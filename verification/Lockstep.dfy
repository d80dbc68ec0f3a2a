/** A mail server that waits for a reply exactly when the negotiated flags call
    for one never waits in vain and never misses one. */
module Lockstep {
  import opened ByteStrings
  import opened BodyCanonicalizers
  import opened Configs
  import opened FlagWords
  import opened Foldings
  import opened Framing
  import opened Signers
  import opened TagLists
  import opened Milter
  import opened MilterHistory
  import opened MilterProperties
  import opened SignatureInput
  import opened SignatureTheorems
  import opened Verifiers
  import Base64

  // ----- the client -----

  datatype Client = Client(flags: nat, stream: Bytes)

  predicate IsContinue(packet: Bytes) { |packet| == 1 && packet[0] == 'c' }
  predicate IsAccept(packet: Bytes) { |packet| == 1 && packet[0] == 'a' }
  predicate IsHeaderAction(packet: Bytes) { packet != [] && (packet[0] == 'h' || packet[0] == 'i') }
  predicate IsOptions(packet: Bytes) { |packet| == 13 && packet[0] == 'O' }

  /** The step of each command among the flags of the client's own protocol table. */
  predicate Skips(flags: nat, command: Byte) {
    match command
    case 'C' => Bit(flags, 12)
    case 'H' => Bit(flags, 13)
    case 'M' => Bit(flags, 14)
    case 'R' => Bit(flags, 15)
    case 'T' => Bit(flags, 16)
    case 'U' => Bit(flags, 17)
    case 'L' => Bit(flags, 7)
    case 'N' => Bit(flags, 18)
    case 'B' => Bit(flags, 19)
    case _ => false
  }

  lemma SkipsAgree(flags: nat, command: Byte)
    ensures Skips(flags, command) <==> And(flags, NoReplyFlag(command)) != 0
  {
    Powers();
    AndPower(flags, 12);
    AndPower(flags, 13);
    AndPower(flags, 14);
    AndPower(flags, 15);
    AndPower(flags, 16);
    AndPower(flags, 17);
    AndPower(flags, 7);
    AndPower(flags, 18);
    AndPower(flags, 19);
  }

  /** What the client does after sending a command: the replies it reads, and the
      flags it goes by afterwards. None is a reply it does not understand. */
  function Await(client: Client, packet: Bytes): Option<Client> {
    var command, read := Command(packet), NextFrame(client.stream);
    if command == 'O' then
      if read.Got? && IsOptions(read.packet)
      then Some(Client(FromBigEndian(read.packet[9..13]), read.rest)) else None
    else if command == 'E' then
      if read.Got? && IsAccept(read.packet) then Some(client.(stream := read.rest))
      else if read.Got? && IsHeaderAction(read.packet) then
        var last := NextFrame(read.rest);
        if last.Got? && IsAccept(last.packet) then Some(client.(stream := last.rest)) else None
      else None
    else if command == 'A' || command == 'D' || Skips(client.flags, command) then Some(client)
    else if read.Got? && IsContinue(read.packet) then Some(client.(stream := read.rest))
    else None
  }

  /** The client over a list of commands. */
  function AwaitAll(client: Client, packets: seq<Bytes>): Option<Client>
    decreases |packets|
  {
    if packets == [] then Some(client)
    else
      var next := Await(client, packets[0]);
      if next.None? then None else AwaitAll(next.value, packets[1..])
  }

  lemma ReplyRead(e: Effect, rest: Bytes)
    requires e.Reply? && 1 + |e.payload| <= MAX_PACKET
    ensures NextFrame(BytesOf(e) + rest) == Got([e.command] + e.payload, rest)
  {
    NextOfFrame([e.command] + e.payload, rest);
  }

  lemma ContinueAwaited(command: Byte, protocol: nat, packet: Bytes, rest: Bytes)
    requires Command(packet) == command && command != 'O' && command != 'E' && command != 'A' && command != 'D'
    ensures Await(Client(protocol, Wire(Continue(protocol, command)) + rest), packet)
         == Some(Client(protocol, rest))
  {
    var reply := Reply('c', []);
    SkipsAgree(protocol, command);
    WireOne(reply);
    ReplyRead(reply, rest);
    assert ['c'] + [] == ['c'] && [] + rest == rest;
  }

  lemma OptionsAwaited(c: Conn, packet: Bytes, flags: nat, rest: Bytes)
    requires Command(packet) == 'O' && |Payload(packet)| == 12
    ensures var step := Negotiated(c, Payload(packet));
            Await(Client(flags, Wire(step.effects) + rest), packet) == Some(Client(step.conn.protocol, rest))
  {
    var step := Negotiated(c, Payload(packet));
    var reply := step.effects[0];
    WireOne(reply);
    assert step.effects == [reply];
    ReplyRead(reply, rest);
    var sent := [reply.command] + reply.payload;
    BigEndianRoundTrip(step.conn.protocol);
    assert sent[9..13] == BigEndian(step.conn.protocol);
  }

  lemma AcceptAwaited(packet: Bytes, flags: nat, rest: Bytes)
    requires Command(packet) == 'E'
    ensures Await(Client(flags, BytesOf(ACCEPT) + rest), packet) == Some(Client(flags, rest))
  {
    AcceptRead(rest);
  }

  lemma ActionAwaited(action: Effect, packet: Bytes, flags: nat, rest: Bytes)
    requires Command(packet) == 'E'
    requires action.Reply? && (action.command == 'h' || action.command == 'i') && 1 + |action.payload| <= MAX_PACKET
    ensures Await(Client(flags, BytesOf(action) + (BytesOf(ACCEPT) + rest)), packet) == Some(Client(flags, rest))
  {
    var last, sent := BytesOf(ACCEPT) + rest, [action.command] + action.payload;
    ReplyRead(action, last);
    assert sent[0] == action.command;
    AcceptRead(rest);
    AwaitTwo(BytesOf(action) + last, packet, flags, sent, last, rest);
  }

  lemma AcceptRead(rest: Bytes)
    ensures NextFrame(BytesOf(ACCEPT) + rest) == Got(['a'], rest)
  {
    ReplyRead(ACCEPT, rest);
    assert ['a'] + [] == ['a'];
  }

  lemma AwaitTwo(stream: Bytes, packet: Bytes, flags: nat, sent: Bytes, last: Bytes, rest: Bytes)
    requires Command(packet) == 'E' && !IsAccept(sent) && IsHeaderAction(sent)
    requires NextFrame(stream) == Got(sent, last) && NextFrame(last) == Got(['a'], rest)
    ensures Await(Client(flags, stream), packet) == Some(Client(flags, rest))
  {
  }

  lemma ActionShape(actions: nat, value: Bytes)
    requires |value| + 21 <= MAX_PACKET
    ensures var action := HeaderAction(actions, value);
            && action.Reply? && (action.command == 'h' || action.command == 'i')
            && 1 + |action.payload| <= MAX_PACKET && Fits(action)
  {
  }

  lemma EndAwaited(outcome: Result<Bytes, Reason>, actions: nat, packet: Bytes, flags: nat, rest: Bytes)
    requires Command(packet) == 'E'
    requires outcome.Ok? ==> |outcome.value| + 21 <= MAX_PACKET
    ensures var effects := EndReplies(outcome, actions).0;
            Await(Client(flags, Wire(effects) + rest), packet) == Some(Client(flags, rest))
    ensures EndReplies(outcome, actions).1 == Open
  {
    if outcome.Ok? {
      var action := HeaderAction(actions, outcome.value);
      ActionShape(actions, outcome.value);
      WireTwo(action, ACCEPT);
      ConcatAssoc(BytesOf(action), BytesOf(ACCEPT), rest);
      ActionAwaited(action, packet, flags, rest);
    } else {
      WireTwo(Log(outcome.error), ACCEPT);
      assert [] + BytesOf(ACCEPT) == BytesOf(ACCEPT);
      AcceptAwaited(packet, flags, rest);
    }
  }

  // ----- signatures are short -----

  /** Digests of 32 bytes and signatures of keys up to 4096 bits. */
  ghost predicate Sane(crypto: Crypto) {
    && (forall m :: |crypto.sha256(m)| == 32)
    && forall key, m :: crypto.sign(key, m).Some? ==> |crypto.sign(key, m).value| <= 512
  }

  lemma {:induction false} FoldLength(tokens: seq<Bytes>, column: nat)
    requires forall t :: t in tokens ==> |t| <= 688
    ensures |FoldTokens(tokens, column)| <= 691 * |tokens|
    decreases |tokens|
  {
    if tokens != [] {
      assert tokens[0] in tokens && forall t :: t in tokens[1..] ==> t in tokens;
      FoldLength(tokens[1..], NextColumn(column, tokens[0]));
    }
  }

  lemma SignedValueShort(config: Config, headers: seq<Header>, time: nat, bodyHash: Octets, signature: Octets)
    requires Loaded(config) && time <= USIZE_MAX && |bodyHash| == 32 && |signature| <= 512
    ensures |SignedValue(config, headers, time, bodyHash, Base64.Encode(signature))| <= 6219
  {
    var b := Base64.Encode(signature);
    var tags := SignatureTags(config, Names(headers), time, bodyHash, b);
    SignatureText(signature);
    EncodeAtMost(bodyHash, 11);
    EncodeAtMost(signature, 171);
    NamesShort(config);
    TagValuesShort(config, headers, time, bodyHash, b);
    UnsignedIsRendered(config, Names(headers), time, bodyHash, b);
    FieldEolFree(config, headers, time, bodyHash, b);
    TokensShort(tags);
    FoldLength(Tokens(tags), 0);
  }

  lemma OutcomeShort(w: World, packets: seq<Bytes>, time: nat)
    requires AllLoaded(w) && Sane(w.crypto) && time <= USIZE_MAX
    ensures StoredOutcome(w, packets, time).Ok? ==> |StoredOutcome(w, packets, time).value| <= 6219
  {
    if StoredOutcome(w, packets, time).Ok? {
      var start := MessageStart(packets).value;
      var config, headers := ActiveAt(w, start), ReceivedHeaders(packets);
      var digest := w.crypto.sha256(BodyOutput(ReceivedBody(packets)));
      ActiveIsLoaded(w, start);
      SignedOutcome(w, packets, time, StoredOutcome(w, packets, time).value);
      var signature := SignedFieldIs(config, headers, digest, time, w.crypto, StoredOutcome(w, packets, time).value);
      SignedValueShort(config, headers, time, digest, signature);
    }
  }

  // ----- whole runs -----

  /** The replies by kind of command, while the connection stays open. */
  lemma RepliesByCommand(packet: Bytes, flags: (nat, nat), outcome: Result<Bytes, Reason>, sent: seq<Effect>)
    requires RepliesFor(packet, flags, outcome) == (sent, Open)
    ensures var command := Command(packet);
            if command == 'O' then |Payload(packet)| == 12 && sent == Negotiated(FRESH, Payload(packet)).effects
            else if command == 'E' then sent == EndReplies(outcome, flags.0).0
            else if command == 'A' || command == 'D' then sent == []
            else sent == Continue(flags.1, command)
  {
  }

  function NextFlags(packet: Bytes, flags: nat): nat {
    if Command(packet) == 'O' && |Payload(packet)| == 12 then Negotiated(FRESH, Payload(packet)).conn.protocol
    else flags
  }

  lemma RepliesAwaited(packet: Bytes, flags: (nat, nat), outcome: Result<Bytes, Reason>,
                       sent: seq<Effect>, rest: Bytes)
    requires outcome.Ok? ==> |outcome.value| + 21 <= MAX_PACKET
    requires RepliesFor(packet, flags, outcome) == (sent, Open)
    ensures Await(Client(flags.1, Wire(sent) + rest), packet) == Some(Client(NextFlags(packet, flags.1), rest))
  {
    RepliesByCommand(packet, flags, outcome, sent);
    var command := Command(packet);
    if command == 'O' {
      OptionsAwaited(FRESH, packet, flags.1, rest);
    } else if command == 'E' {
      EndAwaited(outcome, flags.0, packet, flags.1, rest);
    } else if command == 'A' || command == 'D' {
      NothingAwaited(packet, flags.1, sent, rest);
    } else {
      ContinueAwaited(command, flags.1, packet, rest);
    }
  }

  lemma NothingAwaited(packet: Bytes, flags: nat, sent: seq<Effect>, rest: Bytes)
    requires (Command(packet) == 'A' || Command(packet) == 'D') && sent == []
    ensures Await(Client(flags, Wire(sent) + rest), packet) == Some(Client(flags, rest))
  {
    assert Wire(sent) + rest == rest;
  }

  lemma PacketAwaited(w: World, packets: seq<Bytes>, packet: Bytes, sent: seq<Effect>, rest: Bytes)
    requires AllLoaded(w) && Sane(w.crypto) && w.moments(|packets|).time <= USIZE_MAX
    requires Emitted(w, packets, packet) == (sent, Open)
    ensures Await(Client(Negotiation(packets).1, Wire(sent) + rest), packet)
         == Some(Client(Negotiation(packets + [packet]).1, rest))
  {
    var outcome := StoredOutcome(w, packets, w.moments(|packets|).time);
    OutcomeShort(w, packets, w.moments(|packets|).time);
    NegotiationSnoc(packets, packet);
    RepliesAwaited(packet, Negotiation(packets), outcome, sent, rest);
  }

  lemma {:induction false} AwaitSnoc(client: Client, packets: seq<Bytes>, packet: Bytes)
    ensures AwaitAll(client, packets + [packet])
         == (var c := AwaitAll(client, packets); if c.Some? then Await(c.value, packet) else None)
    decreases |packets|
  {
    var all := packets + [packet];
    if packets == [] {
      assert all == [packet] && all[1..] == [];
    } else {
      assert all[1..] == packets[1..] + [packet];
      var next := Await(client, packets[0]);
      if next.Some? {
        AwaitSnoc(next.value, packets[1..], packet);
      }
    }
  }

  lemma {:induction false} StoredStaysInStep(w: World, packets: seq<Bytes>, rest: Bytes)
    requires AllLoaded(w) && Sane(w.crypto) && forall i: nat :: w.moments(i).time <= USIZE_MAX
    requires StoreAndForward(w, packets).verdict == Open
    ensures AwaitAll(Client(0, Wire(StoreAndForward(w, packets).effects) + rest), packets)
         == Some(Client(Negotiation(packets).1, rest))
    decreases |packets|
  {
    if packets == [] {
      assert [] + rest == rest;
    } else {
      var n := |packets| - 1;
      var front, packet := packets[..n], packets[n];
      SplitLast(packets);
      var sent, more := StoredStep(w, front, packet);
      StoredStaysInStep(w, front, Wire(more) + rest);
      OneMoreAwaited(w, front, packet, sent, more, rest);
    }
  }

  lemma StoredStep(w: World, front: seq<Bytes>, packet: Bytes) returns (sent: seq<Effect>, more: seq<Effect>)
    requires StoreAndForward(w, front + [packet]).verdict == Open
    ensures StoreAndForward(w, front) == Transcript(sent, Open) && Emitted(w, front, packet) == (more, Open)
    ensures StoreAndForward(w, front + [packet]).effects == sent + more
  {
    StoreAndForwardSnoc(w, front, packet);
    sent, more := StoreAndForward(w, front).effects, Emitted(w, front, packet).0;
  }

  lemma OneMoreAwaited(w: World, front: seq<Bytes>, packet: Bytes, sent: seq<Effect>, more: seq<Effect>, rest: Bytes)
    requires AllLoaded(w) && Sane(w.crypto) && w.moments(|front|).time <= USIZE_MAX
    requires Emitted(w, front, packet) == (more, Open)
    requires AwaitAll(Client(0, Wire(sent) + (Wire(more) + rest)), front)
          == Some(Client(Negotiation(front).1, Wire(more) + rest))
    ensures AwaitAll(Client(0, Wire(sent + more) + rest), front + [packet])
         == Some(Client(Negotiation(front + [packet]).1, rest))
  {
    WireConcat(sent, more);
    ConcatAssoc(Wire(sent), Wire(more), rest);
    PacketAwaited(w, front, packet, more, rest);
    AwaitSnoc(Client(0, Wire(sent + more) + rest), front, packet);
  }

  /** In every run the replies are read one command after another with nothing
      missing and nothing left over: after each command that leaves the connection
      open, the client has read exactly what was sent, and goes by the server's
      flags. */
  lemma ClientStaysInStep(w: World, packets: seq<Bytes>, rest: Bytes)
    requires AllLoaded(w) && Sane(w.crypto) && forall i: nat :: w.moments(i).time <= USIZE_MAX
    requires After(w, packets).verdict == Open
    ensures AwaitAll(Client(0, Wire(After(w, packets).effects) + rest), packets)
         == Some(Client(After(w, packets).conn.protocol, rest))
  {
    StreamingIsStoreAndForward(w, packets);
    StreamingHolds(w, packets);
    StoredStaysInStep(w, packets, rest);
  }

  lemma {:induction false} StoredReadsEverything(w: World, packets: seq<Bytes>) returns (n: nat)
    ensures n <= |packets| && StoreAndForward(w, packets[..n]).verdict == Open
    ensures StoreAndForward(w, packets).effects == StoreAndForward(w, packets[..n]).effects
    ensures StoreAndForward(w, packets).verdict == Open ==> n == |packets|
    ensures n < |packets| ==>
              StoreAndForward(w, packets[..n + 1]).verdict == StoreAndForward(w, packets).verdict
    decreases |packets|
  {
    n := |packets|;
    assert packets[..n] == packets;
    if StoreAndForward(w, packets).verdict != Open {
      var front, packet := packets[..n - 1], packets[n - 1];
      SplitLast(packets);
      StoreAndForwardSnoc(w, front, packet);
      if StoreAndForward(w, front).verdict == Open {
        LastCommandSendsNothing(w, front, packet);
        assert packets[..|front|] == front && packets[..|front| + 1] == packets;
        n := |front|;
      } else {
        n := StoredReadsEverything(w, front);
        PrefixOfPrefix(packets, |front|, n);
        PrefixOfPrefix(packets, |front|, n + 1);
      }
    }
  }

  /** The command that ends a connection is not answered. */
  lemma LastCommandSendsNothing(w: World, packets: seq<Bytes>, packet: Bytes)
    requires Emitted(w, packets, packet).1 != Open
    ensures Emitted(w, packets, packet).0 == []
  {
    NoReplyAtTheEnd(packet, Negotiation(packets), StoredOutcome(w, packets, w.moments(|packets|).time));
  }

  lemma NoReplyAtTheEnd(packet: Bytes, flags: (nat, nat), outcome: Result<Bytes, Reason>)
    requires RepliesFor(packet, flags, outcome).1 != Open
    ensures RepliesFor(packet, flags, outcome).0 == []
  {
  }

  /** So it is in every run, also one that ends the connection: the client has read
      all that was sent by the command before the one that ended it. */
  lemma ClientReadsEverything(w: World, packets: seq<Bytes>, rest: Bytes) returns (n: nat)
    requires AllLoaded(w) && Sane(w.crypto) && forall i: nat :: w.moments(i).time <= USIZE_MAX
    ensures n <= |packets| && (After(w, packets).verdict == Open ==> n == |packets|)
    ensures After(w, packets[..n]).verdict == Open
    ensures n < |packets| ==> After(w, packets[..n + 1]).verdict == After(w, packets).verdict
    ensures AwaitAll(Client(0, Wire(After(w, packets).effects) + rest), packets[..n])
         == Some(Client(After(w, packets[..n]).conn.protocol, rest))
  {
    n := StoredReadsEverything(w, packets);
    StreamingIsStoreAndForward(w, packets);
    StreamingIsStoreAndForward(w, packets[..n]);
    if n < |packets| {
      StreamingIsStoreAndForward(w, packets[..n + 1]);
    }
    ClientStaysInStep(w, packets[..n], rest);
  }
}
