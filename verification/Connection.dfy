/** The program behind a connection: objects updated in place, bytes in and out
    (src/milter.rs). */
module Connections {
  import opened ByteStrings
  import opened BodyCanonicalizers
  import opened Configs
  import opened Framing
  import opened Reloads
  import opened Signers
  import opened Milter

  class MessageState {
    var config: Option<Config>
    var headers: seq<Header>
    var headerBytes: nat
    var body: BodyCanonicalizer
    var error: Option<Reason>

    ghost function View(): Message
      reads this, body
    {
      Message(config, headers, headerBytes, body.State(), error)
    }

    constructor ()
      ensures View() == NO_MESSAGE && fresh(body)
    {
      config, headers, headerBytes, error := None, [], 0, None;
      body := new BodyCanonicalizer();
    }

    method Reset()
      modifies this
      ensures View() == NO_MESSAGE && fresh(body)
    {
      config, headers, headerBytes, error := None, [], 0, None;
      body := new BodyCanonicalizer();
    }

    method Begin(active: Config)
      modifies this
      ensures View() == Begun(active) && fresh(body)
    {
      Reset();
      config := Some(active);
    }

    method Fail(reason: Reason)
      modifies this
      ensures View() == Failed(old(View()), reason) && body == old(body)
    {
      if error.None? {
        error := Some(reason);
      }
    }

    method ReceiveHeader(payload: Bytes)
      modifies this
      ensures View() == WithHeader(old(View()), payload) && body == old(body)
    {
      if error.Some? {
        return;
      }
      var separator := Find(payload, '\0');
      if separator == |payload| {
        Fail(MalformedPacket);
        return;
      }
      var name, valueWithNul := payload[..separator], payload[separator + 1..];
      if valueWithNul == [] || valueWithNul[|valueWithNul| - 1] != '\0' {
        Fail(MalformedValue);
        return;
      }
      var value := valueWithNul[..|valueWithNul| - 1];
      if '\0' in value {
        Fail(MalformedValue);
        return;
      }
      headerBytes := SaturatingAdd(headerBytes, |name| + |value|);
      if |headers| >= MAX_HEADERS || headerBytes > MAX_HEADER_BYTES {
        Fail(LimitExceeded);
        return;
      }
      var header := NewHeader(name, value);
      if header.Some? {
        headers := headers + [header.value];
      } else {
        Fail(InvalidHeader);
      }
    }

    method ReceiveBody(payload: Bytes)
      modifies this, body
      ensures View() == WithBody(old(View()), payload) && body == old(body)
    {
      if config.None? {
        Fail(BodyBeforeStart);
      } else if error.None? {
        body.Update(payload);
      }
    }
  }

  method WriteReply(sink: Sink, effect: Effect) returns (ok: bool)
    requires effect.Reply?
    modifies sink
    ensures ok <==> Fits(effect)
    ensures sink.written == old(sink.written) + BytesOf(effect)
  {
    ok := WritePacket(sink, effect.command, effect.payload);
  }

  method ContinueIfNeeded(sink: Sink, protocol: nat, command: Byte)
    modifies sink
    ensures sink.written == old(sink.written) + Wire(Continue(protocol, command))
  {
    if And(protocol, NoReplyFlag(command)) == 0 {
      var reply := Reply('c', []);
      WireOne(reply);
      var _ := WriteReply(sink, reply);
    }
  }

  method SendSigned(sink: Sink, actions: nat, value: Bytes) returns (verdict: Verdict)
    modifies sink
    ensures var (effects, v) := EndReplies(Ok(value), actions);
            verdict == v && Logged(effects) == [] && sink.written == old(sink.written) + Wire(effects)
  {
    var action := HeaderAction(actions, value);
    WireTwo(action, ACCEPT);
    var ok := WriteReply(sink, action);
    if !ok {
      return Aborted;
    }
    ok := WriteReply(sink, ACCEPT);
    return Open;
  }

  method SendUnsigned(sink: Sink, reason: Reason)
    modifies sink
    ensures Logged([Log(reason), ACCEPT]) == [reason]
    ensures sink.written == old(sink.written) + Wire([Log(reason), ACCEPT])
  {
    WireTwo(Log(reason), ACCEPT);
    assert [] + BytesOf(ACCEPT) == BytesOf(ACCEPT) && [reason] + [] == [reason];
    var _ := WriteReply(sink, ACCEPT);
  }

  /** Signs when nothing stands against it, and answers the end of the message. */
  method FinishMessage(sink: Sink, state: MessageState, actions: nat, time: nat, crypto: Crypto)
    returns (log: seq<Reason>, verdict: Verdict)
    modifies sink, state, state.body
    ensures state.body == old(state.body)
    ensures var (effects, v) := EndReplies(Outcome(old(state.View()), actions, time, crypto), actions);
            verdict == v && log == Logged(effects) && sink.written == old(sink.written) + Wire(effects)
  {
    if state.config.None? {
      state.Fail(EndBeforeStart);
    }
    if state.error.None? && And(actions, SUPPORTED_ACTIONS) == 0 {
      state.Fail(NoPermission);
    }
    if state.error.None? {
      var output := state.body.Complete();
      var field := Sign(state.config.value, state.headers, crypto.sha256(output), time, crypto);
      if field.Ok? {
        verdict := SendSigned(sink, actions, field.value);
        return [], verdict;
      }
      state.Fail(NotSigned(field.error));
    }
    SendUnsigned(sink, state.error.value);
    return [state.error.value], Open;
  }

  method Negotiate(sink: Sink, payload: Bytes) returns (actions: nat, protocol: nat)
    requires |payload| == 12
    modifies sink
    ensures var step := Negotiated(FRESH, payload);
            && actions == step.conn.actions && protocol == step.conn.protocol
            && sink.written == old(sink.written) + Wire(step.effects)
  {
    var version := FromBigEndian(payload[..4]);
    if version > 6 {
      version := 6;
    }
    var offered := FromBigEndian(payload[4..8]);
    actions := And(offered, SUPPORTED_ACTIONS);
    var offeredProtocol := FromBigEndian(payload[8..12]);
    protocol := if version >= 6 then And(offeredProtocol, SUPPORTED_NO_REPLY) else 0;
    var response := BigEndian(version);
    response := response + BigEndian(actions);
    response := response + BigEndian(protocol);
    WireOne(Reply('O', response));
    var _ := WriteReply(sink, Reply('O', response));
  }

  lemma NothingLogged(protocol: nat, command: Byte)
    ensures Logged(Continue(protocol, command)) == []
  {
    WireOne(Reply('c', []));
  }

  /** A header before any envelope command starts a message of its own. */
  method HandleHeader(state: MessageState, payload: Bytes, active: Config)
    modifies state
    ensures state.body == old(state.body) || fresh(state.body)
    ensures var m := old(state.View());
            state.View() == WithHeader(if m.config.None? then Begun(active) else m, payload)
  {
    if state.config.None? {
      state.Begin(active);
    }
    state.ReceiveHeader(payload);
  }

  method HandleEnd(sink: Sink, state: MessageState, actions: nat, time: nat, crypto: Crypto)
    returns (log: seq<Reason>, verdict: Verdict)
    modifies sink, state, state.body
    ensures state.body == old(state.body) || fresh(state.body)
    ensures var (effects, v) := EndReplies(Outcome(old(state.View()), actions, time, crypto), actions);
            && verdict == v && log == Logged(effects) && sink.written == old(sink.written) + Wire(effects)
            && (verdict == Open ==> state.View() == NO_MESSAGE)
  {
    log, verdict := FinishMessage(sink, state, actions, time, crypto);
    if verdict == Open {
      state.Reset();
    }
  }

  method HandleMessagePacket(sink: Sink, state: MessageState, command: Byte, payload: Bytes,
                             actions: nat, protocol: nat, active: Config, time: nat, crypto: Crypto)
    returns (log: seq<Reason>, verdict: Verdict)
    requires ChangesMessage(command)
    modifies sink, state, state.body
    ensures state.body == old(state.body) || fresh(state.body)
    ensures var c := Conn(old(state.View()), actions, protocol);
            var step := HandleMessage(c, command, payload, active, time, crypto);
            && verdict == step.verdict && log == Logged(step.effects)
            && (verdict == Open ==> state.View() == step.conn.message)
            && sink.written == old(sink.written) + Wire(step.effects)
  {
    if command == 'E' {
      log, verdict := HandleEnd(sink, state, actions, time, crypto);
      return;
    }
    log, verdict := [], Open;
    if command == 'A' {
      state.Reset();
      assert sink.written + [] == sink.written;
      return;
    }
    NothingLogged(protocol, command);
    if command == 'M' {
      state.Begin(active);
    } else if command == 'L' {
      HandleHeader(state, payload, active);
    } else {
      state.ReceiveBody(payload);
    }
    ContinueIfNeeded(sink, protocol, command);
  }

  method HandlePacket(sink: Sink, state: MessageState, packet: Bytes, actions: nat, protocol: nat,
                      active: Config, time: nat, crypto: Crypto)
    returns (actions': nat, protocol': nat, log: seq<Reason>, verdict: Verdict)
    modifies sink, state, state.body
    ensures state.body == old(state.body) || fresh(state.body)
    ensures var step := Handle(Conn(old(state.View()), actions, protocol), packet, active, time, crypto);
            && verdict == step.verdict && log == Logged(step.effects)
            && (verdict == Open ==> Conn(state.View(), actions', protocol') == step.conn)
            && sink.written == old(sink.written) + Wire(step.effects)
  {
    actions', protocol', log, verdict := actions, protocol, [], Open;
    assert sink.written + [] == sink.written;
    if packet == [] {
      return actions, protocol, [], Aborted;
    }
    var command, payload := packet[0], packet[1..];
    if command == 'O' {
      if |payload| != 12 {
        return actions, protocol, [], Aborted;
      }
      actions', protocol' := Negotiate(sink, payload);
    } else if ChangesMessage(command) {
      log, verdict := HandleMessagePacket(sink, state, command, payload, actions, protocol, active, time, crypto);
    } else if command == 'Q' || command == 'K' {
      verdict := Closed;
    } else if command == 'D' {
      // Macro definitions never get a reply.
    } else if OnlyContinues(command) {
      NothingLogged(protocol, command);
      ContinueIfNeeded(sink, protocol, command);
    } else {
      verdict := Aborted;
    }
  }

  /** Reads the next packet and handles it with the configuration then active. */
  method ServePacket(stream: Stream, sink: Sink, active: Active, packet: PacketBuffer, state: MessageState,
                     actions: nat, protocol: nat, moment: Moment, crypto: Crypto)
    returns (outcome: ReadOutcome, actions': nat, protocol': nat, log: seq<Reason>, verdict: Verdict)
    requires packet.Valid()
    modifies stream, sink, active, packet, packet.data, state, state.body
    ensures packet.Valid() && (state.body == old(state.body) || fresh(state.body))
    ensures outcome == OutcomeOf(NextFrame(old(stream.rest)))
    ensures outcome != Ready ==> sink.written == old(sink.written) && log == []
    ensures outcome == Ready ==>
              && stream.rest == NextFrame(old(stream.rest)).rest
              && active.config == ReloadedAll(old(active.config), moment.reloads)
              && var step := Handle(Conn(old(state.View()), actions, protocol), NextFrame(old(stream.rest)).packet,
                                    active.config, moment.time, crypto);
                 && verdict == step.verdict && log == Logged(step.effects)
                 && (verdict == Open ==> Conn(state.View(), actions', protocol') == step.conn)
                 && sink.written == old(sink.written) + Wire(step.effects)
  {
    actions', protocol', log, verdict := actions, protocol, [], Open;
    outcome := ReadPacketInto(stream, packet);
    if outcome == Ready {
      active.TryReloads(moment.reloads);
      actions', protocol', log, verdict := HandlePacket(
        sink, state, packet.data[..packet.length], actions, protocol, active.config, moment.time, crypto);
    }
  }

  /** Where the stream stands after the packets `done`. */
  ghost predicate Reading(all: Packets, done: seq<Bytes>, rest: Bytes) {
    all.list == done + ReadAll(rest).list && all.ending == ReadAll(rest).ending
  }

  lemma ReadingOn(all: Packets, done: seq<Bytes>, rest: Bytes, packet: Bytes, left: Bytes)
    requires Reading(all, done, rest) && NextFrame(rest) == Got(packet, left)
    ensures Reading(all, done + [packet], left)
  {
    ConcatAssoc(done, [packet], ReadAll(left).list);
  }

  lemma ReadingEnds(all: Packets, done: seq<Bytes>, rest: Bytes)
    requires Reading(all, done, rest) && !NextFrame(rest).Got?
    ensures all.list == done && (all.ending == Clean <==> OutcomeOf(NextFrame(rest)) == EndOfStream)
  {
    assert done + [] == done;
  }

  lemma RestIsIgnored(w: World, all: Packets, done: seq<Bytes>, rest: Bytes)
    requires Reading(all, done, rest) && After(w, done).verdict != Open
    ensures After(w, all.list) == After(w, done)
  {
    AfterFrozen(w, done, ReadAll(rest).list);
  }

  /** One round of the connection loop, followed on the whole session: `done` are
      the packets so far, `s` the session after them. */
  method ServeRound(stream: Stream, sink: Sink, active: Active, packet: PacketBuffer, state: MessageState,
                    actions: nat, protocol: nat, log: seq<Reason>, moment: Moment, crypto: Crypto,
                    ghost w: World, ghost all: Packets, ghost done: seq<Bytes>, ghost s: Session, ghost start: Bytes)
    returns (outcome: ReadOutcome, actions': nat, protocol': nat, log': seq<Reason>, verdict: Verdict,
             ghost done': seq<Bytes>, ghost s': Session)
    requires packet.Valid() && moment == w.moments(|done|) && crypto == w.crypto
    requires s == After(w, done) && s.verdict == Open && s.conn == Conn(state.View(), actions, protocol)
    requires active.config == if done == [] then w.initial else ActiveAt(w, |done| - 1)
    requires sink.written == start + Wire(s.effects) && log == Logged(s.effects)
    requires Reading(all, done, stream.rest)
    modifies stream, sink, active, packet, packet.data, state, state.body
    ensures packet.Valid() && (state.body == old(state.body) || fresh(state.body))
    ensures s' == After(w, done') && sink.written == start + Wire(s'.effects) && log' == Logged(s'.effects)
    ensures outcome != Ready || verdict != Open ==> s' == After(w, all.list)
    ensures outcome != Ready ==> s'.verdict == Open && (all.ending == Clean <==> outcome == EndOfStream)
    ensures outcome == Ready ==>
              && |stream.rest| < |old(stream.rest)| && |done'| == |done| + 1 && Reading(all, done', stream.rest)
              && active.config == ActiveAt(w, |done|)
              && s'.verdict == verdict && (verdict == Open ==> s'.conn == Conn(state.View(), actions', protocol'))
  {
    ghost var before, read := stream.rest, NextFrame(stream.rest);
    done', s' := done, s;
    outcome, actions', protocol', log', verdict :=
      ServePacket(stream, sink, active, packet, state, actions, protocol, moment, crypto);
    log' := log + log';
    if outcome == Ready {
      assert active.config == ActiveAt(w, |done|);
      SessionStep(w, done, read.packet, start);
      ReadingOn(all, done, before, read.packet, stream.rest);
      done' := done + [read.packet];
      s' := After(w, done');
      if verdict != Open {
        RestIsIgnored(w, all, done', stream.rest);
      }
    } else {
      ReadingEnds(all, done, before);
    }
  }

  /** Serves one connection to its end. `moments` is what the rest of the process
      does meanwhile: the reloads tried before each packet is handled. */
  method HandleConnection(stream: Stream, sink: Sink, active: Active, moments: nat -> Moment, crypto: Crypto)
    returns (log: seq<Reason>, clean: bool)
    modifies stream, sink, active
    ensures var w := World(old(active.config), moments, crypto);
            var packets := ReadAll(old(stream.rest));
            var s := After(w, packets.list);
            && sink.written == old(sink.written) + Wire(s.effects) && log == Logged(s.effects)
            && (clean <==> s.verdict == Closed || (s.verdict == Open && packets.ending == Clean))
  {
    var state := new MessageState();
    var packet := new PacketBuffer();
    log, clean := ServePackets(stream, sink, active, packet, state, moments, crypto);
  }

  /** The loop of a connection, with its buffer and its message state. */
  method ServePackets(stream: Stream, sink: Sink, active: Active, packet: PacketBuffer, state: MessageState,
                      moments: nat -> Moment, crypto: Crypto)
    returns (log: seq<Reason>, clean: bool)
    requires packet.Valid() && state.View() == NO_MESSAGE
    modifies stream, sink, active, packet, packet.data, state, state.body
    ensures var w := World(old(active.config), moments, crypto);
            var packets := ReadAll(old(stream.rest));
            var s := After(w, packets.list);
            && sink.written == old(sink.written) + Wire(s.effects) && log == Logged(s.effects)
            && (clean <==> s.verdict == Closed || (s.verdict == Open && packets.ending == Clean))
  {
    var actions, protocol := 0, 0;
    var handled := 0;
    log := [];
    ghost var w, start, all := World(active.config, moments, crypto), sink.written, ReadAll(stream.rest);
    ghost var done: seq<Bytes>, s := [], After(w, []);
    assert Reading(all, done, stream.rest);
    while true
      invariant (state.body == old(state.body) || fresh(state.body)) && packet.Valid()
      invariant handled == |done| && active.config == if done == [] then w.initial else ActiveAt(w, |done| - 1)
      invariant s == After(w, done) && s.verdict == Open && s.conn == Conn(state.View(), actions, protocol)
      invariant Reading(all, done, stream.rest)
      invariant sink.written == start + Wire(s.effects) && log == Logged(s.effects)
      decreases |stream.rest|
    {
      var outcome, verdict;
      outcome, actions, protocol, log, verdict, done, s :=
        ServeRound(stream, sink, active, packet, state, actions, protocol, log, moments(handled), crypto,
                   w, all, done, s, start);
      if outcome != Ready {
        return log, outcome == EndOfStream;
      }
      handled := handled + 1;
      if verdict != Open {
        return log, verdict == Closed;
      }
    }
  }
}
