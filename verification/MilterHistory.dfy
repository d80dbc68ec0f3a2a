/** A machine that keeps every packet and looks back when a message ends. It has
    no message state at all; the streaming connection behaves the same. */
module MilterHistory {
  import opened ByteStrings
  import opened BodyCanonicalizers
  import opened Configs
  import opened Signers
  import opened Milter

  function Command(packet: Bytes): Byte { if packet == [] then '\0' else packet[0] }

  function Payload(packet: Bytes): Bytes { if packet == [] then [] else packet[1..] }

  /** The position of the packet that began the current message: the last M, or
      the first L since the last message ended. */
  function MessageStart(packets: seq<Bytes>): (start: Option<nat>)
    ensures start.Some? ==> start.value < |packets|
  {
    if packets == [] then None
    else
      var n := |packets| - 1;
      match Command(packets[n])
      case 'M' => Some(n)
      case 'L' => (var earlier := MessageStart(packets[..n]); if earlier.Some? then earlier else Some(n))
      case 'E' => None
      case 'A' => None
      case _ => MessageStart(packets[..n])
  }

  function HeaderPayloads(packets: seq<Bytes>): seq<Bytes> {
    if packets == [] then []
    else
      var n := |packets| - 1;
      HeaderPayloads(packets[..n]) + (if Command(packets[n]) == 'L' then [Payload(packets[n])] else [])
  }

  function BodyBytes(packets: seq<Bytes>): Bytes {
    if packets == [] then []
    else
      var n := |packets| - 1;
      BodyBytes(packets[..n]) + (if Command(packets[n]) == 'B' then Payload(packets[n]) else [])
  }

  /** Whether a body packet came with no message to belong to. */
  predicate StrayBody(packets: seq<Bytes>) {
    if packets == [] then false
    else
      var n := |packets| - 1;
      match Command(packets[n])
      case 'B' => true
      case 'M' => false
      case 'L' => false
      case 'E' => false
      case 'A' => false
      case _ => StrayBody(packets[..n])
  }

  function HeaderSize(payload: Bytes): nat {
    match ParseHeader(payload)
    case Ok(h) => |h.name| + |h.value|
    case Err(_) => 0
  }

  function TotalSize(payloads: seq<Bytes>): nat {
    if payloads == [] then 0
    else TotalSize(payloads[..|payloads| - 1]) + HeaderSize(payloads[|payloads| - 1])
  }

  function ParsedHeaders(payloads: seq<Bytes>): seq<Header> {
    if payloads == [] then []
    else
      ParsedHeaders(payloads[..|payloads| - 1])
      + (match ParseHeader(payloads[|payloads| - 1]) case Ok(h) => [h] case Err(_) => [])
  }

  /** The first thing wrong with the headers of a message. */
  function HeaderError(payloads: seq<Bytes>): Option<Reason> {
    if payloads == [] then None
    else
      var n := |payloads| - 1;
      var earlier := HeaderError(payloads[..n]);
      if earlier.Some? then earlier
      else
        match ParseHeader(payloads[n])
        case Err(reason) => Some(reason)
        case Ok(h) =>
          if n >= MAX_HEADERS || TotalSize(payloads) > MAX_HEADER_BYTES then Some(LimitExceeded)
          else if NewHeader(h.name, h.value).None? then Some(InvalidHeader)
          else None
  }

  /** The flags of the last option negotiation. */
  function Negotiation(packets: seq<Bytes>): (nat, nat) {
    if packets == [] then (0, 0)
    else
      var n := |packets| - 1;
      if Command(packets[n]) == 'O' && |Payload(packets[n])| == 12 then
        var step := Negotiated(FRESH, Payload(packets[n]));
        (step.conn.actions, step.conn.protocol)
      else Negotiation(packets[..n])
  }

  /** What becomes of the message that ends after `packets`. */
  function StoredOutcome(w: World, packets: seq<Bytes>, time: nat): Result<Bytes, Reason> {
    match MessageStart(packets)
    case None => Err(if StrayBody(packets) then BodyBeforeStart else EndBeforeStart)
    case Some(start) =>
      var message := packets[start..];
      var wrong := HeaderError(HeaderPayloads(message));
      if wrong.Some? then Err(wrong.value)
      else if And(Negotiation(packets).0, SUPPORTED_ACTIONS) == 0 then Err(NoPermission)
      else
        var digest := w.crypto.sha256(BodyOutput(BodyBytes(message)));
        match SignedField(ActiveAt(w, start), ParsedHeaders(HeaderPayloads(message)), digest, time, w.crypto)
        case Ok(value) => Ok(value)
        case Err(error) => Err(NotSigned(error))
  }

  // ----- the streaming connection holds what the packets say -----

  ghost predicate Holds(w: World, packets: seq<Bytes>, m: Message) {
    match MessageStart(packets)
    case None => m == NO_MESSAGE.(error := if StrayBody(packets) then Some(BodyBeforeStart) else None)
    case Some(start) =>
      var headers, body := HeaderPayloads(packets[start..]), BodyBytes(packets[start..]);
      && m.config == Some(ActiveAt(w, start))
      && m.error == HeaderError(headers)
      && (m.error.None? ==>
            && m.headers == ParsedHeaders(headers) && m.headerBytes == TotalSize(headers)
            && m.body == Run(INITIAL, body))
  }

  lemma {:induction false} NoErrorBounds(payloads: seq<Bytes>)
    requires HeaderError(payloads).None?
    ensures |payloads| <= MAX_HEADERS && TotalSize(payloads) <= MAX_HEADER_BYTES
    ensures |ParsedHeaders(payloads)| == |payloads|
  {
    if payloads != [] {
      NoErrorBounds(payloads[..|payloads| - 1]);
    }
  }

  /** Adding one header payload to a message without error. */
  lemma HeaderAdded(m: Message, payloads: seq<Bytes>, payload: Bytes)
    requires m.config.Some? && m.error == HeaderError(payloads)
    requires m.error.None? ==> m.headers == ParsedHeaders(payloads) && m.headerBytes == TotalSize(payloads)
    ensures var now, all := WithHeader(m, payload), payloads + [payload];
            && now.config == m.config && now.body == m.body
            && now.error == HeaderError(all)
            && (now.error.None? ==>
                  m.error.None? && now.headers == ParsedHeaders(all) && now.headerBytes == TotalSize(all))
  {
    var all := payloads + [payload];
    assert all[..|all| - 1] == payloads;
    if m.error.None? {
      NoErrorBounds(payloads);
    }
  }

  lemma SliceSnoc(packets: seq<Bytes>, packet: Bytes, start: nat)
    requires start <= |packets|
    ensures var all, part := packets + [packet], packets[start..];
            && all[start..] == part + [packet]
            && HeaderPayloads(all[start..])
               == HeaderPayloads(part) + (if Command(packet) == 'L' then [Payload(packet)] else [])
            && BodyBytes(all[start..]) == BodyBytes(part) + (if Command(packet) == 'B' then Payload(packet) else [])
  {
    var all, part := packets + [packet], packets[start..];
    assert all[start..] == part + [packet];
    assert (part + [packet])[..|part|] == part;
  }

  lemma StartSnoc(packets: seq<Bytes>, packet: Bytes)
    ensures MessageStart(packets + [packet])
         == (var c, earlier := Command(packet), MessageStart(packets);
             if c == 'M' || (c == 'L' && earlier.None?) then Some(|packets|)
             else if c == 'E' || c == 'A' then None
             else earlier)
    ensures StrayBody(packets + [packet])
         == (Command(packet) == 'B' || (!ChangesMessage(Command(packet)) && StrayBody(packets)))
  {
    assert (packets + [packet])[..|packets|] == packets;
  }

  lemma HeldAfterHeader(w: World, packets: seq<Bytes>, packet: Bytes, m: Message)
    requires Command(packet) == 'L' && Holds(w, packets, m)
    ensures var started := if m.config.None? then Begun(ActiveAt(w, |packets|)) else m;
            Holds(w, packets + [packet], WithHeader(started, Payload(packet)))
  {
    StartSnoc(packets, packet);
    var start := MessageStart(packets);
    if start.None? {
      var m0 := Begun(ActiveAt(w, |packets|));
      assert packets[|packets|..] == [] && [] + [Payload(packet)] == [Payload(packet)];
      SliceSnoc(packets, packet, |packets|);
      HeaderAdded(m0, [], Payload(packet));
    } else {
      var part := packets[start.value..];
      SliceSnoc(packets, packet, start.value);
      HeaderAdded(m, HeaderPayloads(part), Payload(packet));
      assert BodyBytes(part) + [] == BodyBytes(part);
    }
  }

  lemma HeldAfterBody(w: World, packets: seq<Bytes>, packet: Bytes, m: Message)
    requires Command(packet) == 'B' && Holds(w, packets, m)
    ensures Holds(w, packets + [packet], WithBody(m, Payload(packet)))
  {
    StartSnoc(packets, packet);
    var start := MessageStart(packets);
    if start.Some? {
      SliceSnoc(packets, packet, start.value);
      var part := packets[start.value..];
      RunSplit(INITIAL, BodyBytes(part), Payload(packet));
      assert HeaderPayloads(part) + [] == HeaderPayloads(part);
    }
  }

  lemma HeldAfterMail(w: World, packets: seq<Bytes>, packet: Bytes)
    requires Command(packet) == 'M'
    ensures Holds(w, packets + [packet], Begun(ActiveAt(w, |packets|)))
  {
    StartSnoc(packets, packet);
    SliceSnoc(packets, packet, |packets|);
    assert packets[|packets|..] == [];
  }

  lemma HeldAfterOther(w: World, packets: seq<Bytes>, packet: Bytes, m: Message)
    requires !ChangesMessage(Command(packet)) && Holds(w, packets, m)
    ensures Holds(w, packets + [packet], m)
  {
    StartSnoc(packets, packet);
    var start := MessageStart(packets);
    if start.Some? {
      SliceSnoc(packets, packet, start.value);
      var part := packets[start.value..];
      assert HeaderPayloads(part) + [] == HeaderPayloads(part) && BodyBytes(part) + [] == BodyBytes(part);
    }
  }

  lemma NegotiationSnoc(packets: seq<Bytes>, packet: Bytes)
    ensures Negotiation(packets + [packet])
         == if Command(packet) == 'O' && |Payload(packet)| == 12 then
              (Negotiated(FRESH, Payload(packet)).conn.actions, Negotiated(FRESH, Payload(packet)).conn.protocol)
            else Negotiation(packets)
  {
    assert (packets + [packet])[..|packets|] == packets;
  }

  lemma HandledMessage(c: Conn, packet: Bytes, active: Config, time: nat, crypto: Crypto)
    requires Handle(c, packet, active, time, crypto).verdict == Open
    ensures var m, payload, next := c.message, Payload(packet), Handle(c, packet, active, time, crypto).conn.message;
            match Command(packet)
            case 'M' => next == Begun(active)
            case 'L' => next == WithHeader(if m.config.None? then Begun(active) else m, payload)
            case 'B' => next == WithBody(m, payload)
            case 'E' => next == NO_MESSAGE
            case 'A' => next == NO_MESSAGE
            case _ => next == m
  {
  }

  lemma HandledFlags(c: Conn, packet: Bytes, active: Config, time: nat, crypto: Crypto)
    requires Handle(c, packet, active, time, crypto).verdict == Open
    ensures var next := Handle(c, packet, active, time, crypto).conn;
            if Command(packet) == 'O' then
              && |Payload(packet)| == 12
              && next.actions == Negotiated(FRESH, Payload(packet)).conn.actions
              && next.protocol == Negotiated(FRESH, Payload(packet)).conn.protocol
            else next.actions == c.actions && next.protocol == c.protocol
  {
  }

  lemma MessageHolds(w: World, packets: seq<Bytes>, packet: Bytes, m: Message, next: Message)
    requires Holds(w, packets, m)
    requires match Command(packet)
             case 'M' => next == Begun(ActiveAt(w, |packets|))
             case 'L' => next == WithHeader(if m.config.None? then Begun(ActiveAt(w, |packets|)) else m, Payload(packet))
             case 'B' => next == WithBody(m, Payload(packet))
             case 'E' => next == NO_MESSAGE
             case 'A' => next == NO_MESSAGE
             case _ => next == m
    ensures Holds(w, packets + [packet], next)
  {
    var command := Command(packet);
    if command == 'M' {
      HeldAfterMail(w, packets, packet);
    } else if command == 'L' {
      HeldAfterHeader(w, packets, packet, m);
    } else if command == 'B' {
      HeldAfterBody(w, packets, packet, m);
    } else if command == 'E' || command == 'A' {
      StartSnoc(packets, packet);
    } else {
      HeldAfterOther(w, packets, packet, m);
    }
  }

  /** While a connection is open, its state is what the packets so far say. */
  lemma {:induction false} StreamingHolds(w: World, packets: seq<Bytes>)
    requires After(w, packets).verdict == Open
    ensures Holds(w, packets, After(w, packets).conn.message)
    ensures (After(w, packets).conn.actions, After(w, packets).conn.protocol) == Negotiation(packets)
  {
    if packets != [] {
      var n := |packets| - 1;
      var front, packet := packets[..n], packets[n];
      assert packets == front + [packet];
      assert After(w, front).verdict == Open;
      StreamingHolds(w, front);
      AfterSnoc(w, front, packet);
      NegotiationSnoc(front, packet);
      var c, active, time := After(w, front).conn, ActiveAt(w, n), w.moments(n).time;
      var next := Handle(c, packet, active, time, w.crypto);
      HandledMessage(c, packet, active, time, w.crypto);
      HandledFlags(c, packet, active, time, w.crypto);
      MessageHolds(w, front, packet, c.message, next.conn.message);
    }
  }

  // ----- the same replies -----

  /** The replies of one step need only the flags and, at E, the outcome. */
  function RepliesFor(packet: Bytes, flags: (nat, nat), outcome: Result<Bytes, Reason>): (seq<Effect>, Verdict) {
    var command, payload := Command(packet), Payload(packet);
    if command == 'O' && |payload| == 12 then (Negotiated(FRESH, payload).effects, Open)
    else if command == 'M' || command == 'L' || command == 'B' || OnlyContinues(command) then
      (Continue(flags.1, command), Open)
    else if command == 'E' then EndReplies(outcome, flags.0)
    else if command == 'A' || command == 'D' then ([], Open)
    else if command == 'Q' || command == 'K' then ([], Closed)
    else ([], Aborted)
  }

  /** What is sent for a packet that comes after `packets`, by looking back. */
  function Emitted(w: World, packets: seq<Bytes>, packet: Bytes): (seq<Effect>, Verdict) {
    RepliesFor(packet, Negotiation(packets), StoredOutcome(w, packets, w.moments(|packets|).time))
  }

  datatype Transcript = Transcript(effects: seq<Effect>, verdict: Verdict)

  function StoreAndForward(w: World, packets: seq<Bytes>): Transcript {
    if packets == [] then Transcript([], Open)
    else
      var n := |packets| - 1;
      var t := StoreAndForward(w, packets[..n]);
      if t.verdict != Open then t
      else
        var (effects, verdict) := Emitted(w, packets[..n], packets[n]);
        Transcript(t.effects + effects, verdict)
  }

  lemma OutcomeIsStored(w: World, packets: seq<Bytes>, c: Conn, time: nat)
    requires Holds(w, packets, c.message) && c.actions == Negotiation(packets).0
    ensures Outcome(c.message, c.actions, time, w.crypto) == StoredOutcome(w, packets, time)
  {
  }

  lemma HandledReplies(c: Conn, packet: Bytes, active: Config, time: nat, crypto: Crypto)
    ensures var step := Handle(c, packet, active, time, crypto);
            (step.effects, step.verdict)
            == RepliesFor(packet, (c.actions, c.protocol), Outcome(c.message, c.actions, time, crypto))
  {
    if Command(packet) == 'E' {
      var end := EndReplies(Outcome(c.message, c.actions, time, crypto), c.actions);
      assert Handle(c, packet, active, time, crypto) == Step(c.(message := NO_MESSAGE), end.0, end.1);
    }
  }

  lemma SameReplies(w: World, packets: seq<Bytes>, packet: Bytes, c: Conn)
    requires Holds(w, packets, c.message) && (c.actions, c.protocol) == Negotiation(packets)
    ensures var step := Handle(c, packet, ActiveAt(w, |packets|), w.moments(|packets|).time, w.crypto);
            Emitted(w, packets, packet) == (step.effects, step.verdict)
  {
    var time := w.moments(|packets|).time;
    OutcomeIsStored(w, packets, c, time);
    HandledReplies(c, packet, ActiveAt(w, |packets|), time, w.crypto);
  }

  lemma StoreAndForwardSnoc(w: World, packets: seq<Bytes>, packet: Bytes)
    ensures StoreAndForward(w, packets + [packet])
         == (var t, e := StoreAndForward(w, packets), Emitted(w, packets, packet);
             if t.verdict != Open then t else Transcript(t.effects + e.0, e.1))
  {
    assert (packets + [packet])[..|packets|] == packets;
  }

  /** Over every run of packets interleaved with reloads, the connection that
      streams sends what the machine that stores the whole run and looks back
      sends, and ends when that ends. */
  lemma {:induction false} StreamingIsStoreAndForward(w: World, packets: seq<Bytes>)
    ensures StoreAndForward(w, packets) == Transcript(After(w, packets).effects, After(w, packets).verdict)
  {
    if packets != [] {
      var n := |packets| - 1;
      var front, packet := packets[..n], packets[n];
      assert packets == front + [packet];
      StreamingIsStoreAndForward(w, front);
      StoreAndForwardSnoc(w, front, packet);
      if After(w, front).verdict == Open {
        StreamingHolds(w, front);
        AfterSnoc(w, front, packet);
        SameReplies(w, front, packet, After(w, front).conn);
      } else {
        AfterFrozen(w, front, [packet]);
      }
    }
  }
}
