/** One milter connection (src/milter.rs, handle_connection_until). */
module Milter {
  import opened ByteStrings
  import opened BodyCanonicalizers
  import opened Configs
  import opened Framing
  import opened Reloads
  import opened Signers

  const MAX_HEADERS: nat := 1000
  const MAX_HEADER_BYTES: nat := 1024 * 1024

  // ----- flag words -----

  const ACTION_ADD_HEADER: nat := 0x01
  const ACTION_CHANGE_HEADER: nat := 0x10
  const SUPPORTED_ACTIONS: nat := ACTION_ADD_HEADER + ACTION_CHANGE_HEADER
  const SUPPORTED_NO_REPLY: nat := 0x000F_F080

  /** Bitwise and of two flag words. */
  function And(a: nat, b: nat): (r: nat)
    ensures r <= a && r <= b
    decreases a
  {
    if a == 0 || b == 0 then 0
    else 2 * And(a / 2, b / 2) + (if a % 2 == 1 && b % 2 == 1 then 1 else 0)
  }

  function NoReplyFlag(command: Byte): nat {
    match command
    case 'C' => 0x0000_1000
    case 'H' => 0x0000_2000
    case 'M' => 0x0000_4000
    case 'R' => 0x0000_8000
    case 'T' => 0x0001_0000
    case 'U' => 0x0002_0000
    case 'L' => 0x0000_0080
    case 'N' => 0x0004_0000
    case 'B' => 0x0008_0000
    case _ => 0
  }

  // ----- message state -----

  datatype Reason =
    | MalformedPacket | MalformedValue | LimitExceeded | InvalidHeader
    | BodyBeforeStart | EndBeforeStart | NoPermission
    | NotSigned(error: SignError)

  datatype Message = Message(
    config: Option<Config>,
    headers: seq<Header>,
    headerBytes: nat,
    body: BodyState,
    error: Option<Reason>)

  const NO_MESSAGE := Message(None, [], 0, INITIAL, None)

  function Begun(config: Config): Message { NO_MESSAGE.(config := Some(config)) }

  function Failed(m: Message, reason: Reason): Message {
    if m.error.None? then m.(error := Some(reason)) else m
  }

  /** A header packet: a name and a value, each followed by a zero byte. */
  function ParseHeader(payload: Bytes): Result<Header, Reason> {
    var separator := Find(payload, '\0');
    if separator == |payload| then Err(MalformedPacket)
    else
      var rest := payload[separator + 1..];
      if rest == [] || rest[|rest| - 1] != '\0' || '\0' in rest[..|rest| - 1] then Err(MalformedValue)
      else Ok(Header(payload[..separator], rest[..|rest| - 1]))
  }

  function WithHeader(m: Message, payload: Bytes): Message {
    var parsed := ParseHeader(payload);
    if m.error.Some? then m
    else if parsed.Err? then Failed(m, parsed.error)
    else
      var h := parsed.value;
      var counted := m.(headerBytes := SaturatingAdd(m.headerBytes, |h.name| + |h.value|));
      if |m.headers| >= MAX_HEADERS || counted.headerBytes > MAX_HEADER_BYTES then Failed(counted, LimitExceeded)
      else if NewHeader(h.name, h.value).None? then Failed(counted, InvalidHeader)
      else counted.(headers := m.headers + [h])
  }

  function WithBody(m: Message, payload: Bytes): Message {
    if m.config.None? then Failed(m, BodyBeforeStart)
    else if m.error.None? then m.(body := Run(m.body, payload))
    else m
  }

  // ----- replies -----

  datatype Effect = Reply(command: Byte, payload: Bytes) | Log(reason: Reason)

  datatype Verdict = Open | Closed | Aborted

  const ACCEPT := Reply('a', [])

  function Continue(protocol: nat, command: Byte): seq<Effect> {
    if And(protocol, NoReplyFlag(command)) == 0 then [Reply('c', [])] else []
  }

  const FIELD_NAME: Bytes := "DKIM-Signature" + ['\0']

  function HeaderAction(actions: nat, value: Bytes): Effect {
    if And(actions, ACTION_CHANGE_HEADER) != 0
    then Reply('i', BigEndian(0) + FIELD_NAME + value + ['\0'])
    else Reply('h', FIELD_NAME + value + ['\0'])
  }

  predicate Fits(e: Effect) { e.Reply? ==> 1 + |e.payload| < U32_LIMIT }

  function Outcome(m: Message, actions: nat, time: nat, crypto: Crypto): Result<Bytes, Reason> {
    if m.config.None? then Err(if m.error.Some? then m.error.value else EndBeforeStart)
    else if m.error.Some? then Err(m.error.value)
    else if And(actions, SUPPORTED_ACTIONS) == 0 then Err(NoPermission)
    else
      var field := SignedField(m.config.value, m.headers, crypto.sha256(Finish(m.body)), time, crypto);
      if field.Ok? then Ok(field.value) else Err(NotSigned(field.error))
  }

  /** The replies at the end of a message: a signature or a logged reason, and an
      accept; only a field too long for a packet ends the connection. */
  function EndReplies(outcome: Result<Bytes, Reason>, actions: nat): (seq<Effect>, Verdict) {
    if outcome.Err? then ([Log(outcome.error), ACCEPT], Open)
    else
      var action := HeaderAction(actions, outcome.value);
      if Fits(action) then ([action, ACCEPT], Open) else ([], Aborted)
  }

  // ----- the connection -----

  datatype Conn = Conn(message: Message, actions: nat, protocol: nat)

  const FRESH := Conn(NO_MESSAGE, 0, 0)

  datatype Step = Step(conn: Conn, effects: seq<Effect>, verdict: Verdict)

  function Negotiated(c: Conn, payload: Bytes): Step
    requires |payload| == 12
  {
    var offeredVersion := FromBigEndian(payload[..4]);
    var version := if offeredVersion < 6 then offeredVersion else 6;
    var actions := And(FromBigEndian(payload[4..8]), SUPPORTED_ACTIONS);
    var protocol := if version >= 6 then And(FromBigEndian(payload[8..12]), SUPPORTED_NO_REPLY) else 0;
    Step(c.(actions := actions, protocol := protocol),
         [Reply('O', BigEndian(version) + BigEndian(actions) + BigEndian(protocol))], Open)
  }

  predicate ChangesMessage(command: Byte) {
    command == 'M' || command == 'L' || command == 'B' || command == 'E' || command == 'A'
  }

  predicate OnlyContinues(command: Byte) {
    || command == 'C' || command == 'H' || command == 'R'
    || command == 'T' || command == 'N' || command == 'U'
  }

  /** M, L, B, E and A: the commands that change the message. */
  function HandleMessage(c: Conn, command: Byte, payload: Bytes, active: Config, time: nat, crypto: Crypto): Step {
    match command
    case 'M' => Step(c.(message := Begun(active)), Continue(c.protocol, 'M'), Open)
    case 'L' =>
      var started := if c.message.config.None? then Begun(active) else c.message;
      Step(c.(message := WithHeader(started, payload)), Continue(c.protocol, 'L'), Open)
    case 'B' => Step(c.(message := WithBody(c.message, payload)), Continue(c.protocol, 'B'), Open)
    case 'E' =>
      var (effects, verdict) := EndReplies(Outcome(c.message, c.actions, time, crypto), c.actions);
      Step(c.(message := NO_MESSAGE), effects, verdict)
    case _ => Step(c.(message := NO_MESSAGE), [], Open)
  }

  function Handle(c: Conn, packet: Bytes, active: Config, time: nat, crypto: Crypto): Step {
    if packet == [] then Step(c, [], Aborted)
    else
      var command, payload := packet[0], packet[1..];
      if command == 'O' then
        if |payload| == 12 then Negotiated(c, payload) else Step(c, [], Aborted)
      else if ChangesMessage(command) then HandleMessage(c, command, payload, active, time, crypto)
      else if command == 'Q' || command == 'K' then Step(c, [], Closed)
      else if command == 'D' then Step(c, [], Open)
      else if OnlyContinues(command) then Step(c, Continue(c.protocol, command), Open)
      else Step(c, [], Aborted)
  }

  /** What happens around the handling of one packet: the reloads tried since the
      packet before, and the clock. */
  datatype Moment = Moment(reloads: seq<Attempt>, time: nat)

  datatype World = World(initial: Config, moments: nat -> Moment, crypto: Crypto)

  /** The configuration a connection finds when it handles packet `i`. */
  function ActiveAt(w: World, i: nat): Config
    decreases i
  {
    ReloadedAll(if i == 0 then w.initial else ActiveAt(w, i - 1), w.moments(i).reloads)
  }

  datatype Session = Session(conn: Conn, effects: seq<Effect>, verdict: Verdict)

  /** The connection after the given packets. */
  function After(w: World, packets: seq<Bytes>): Session {
    if packets == [] then Session(FRESH, [], Open)
    else
      var n := |packets| - 1;
      var s := After(w, packets[..n]);
      if s.verdict != Open then s
      else
        var step := Handle(s.conn, packets[n], ActiveAt(w, n), w.moments(n).time, w.crypto);
        Session(step.conn, s.effects + step.effects, step.verdict)
  }

  lemma AfterSnoc(w: World, packets: seq<Bytes>, packet: Bytes)
    requires After(w, packets).verdict == Open
    ensures var n := |packets|;
            var s := After(w, packets);
            var step := Handle(s.conn, packet, ActiveAt(w, n), w.moments(n).time, w.crypto);
            After(w, packets + [packet]) == Session(step.conn, s.effects + step.effects, step.verdict)
  {
    assert (packets + [packet])[..|packets|] == packets;
  }

  /** Once a connection is over, further packets change nothing. */
  lemma {:induction false} AfterFrozen(w: World, packets: seq<Bytes>, more: seq<Bytes>)
    requires After(w, packets).verdict != Open
    ensures After(w, packets + more) == After(w, packets)
    decreases |more|
  {
    if more == [] {
      assert packets + more == packets;
    } else {
      var n := |more| - 1;
      AfterFrozen(w, packets, more[..n]);
      assert (packets + more)[..|packets| + n] == packets + more[..n];
    }
  }

  function BytesOf(e: Effect): Bytes {
    if e.Reply? && Fits(e) then Frame([e.command] + e.payload) else []
  }

  /** The bytes sent for a list of effects. */
  function Wire(effects: seq<Effect>): Bytes {
    if effects == [] then [] else BytesOf(effects[0]) + Wire(effects[1..])
  }

  function ReasonsOf(e: Effect): seq<Reason> { if e.Log? then [e.reason] else [] }

  function Logged(effects: seq<Effect>): seq<Reason> {
    if effects == [] then [] else ReasonsOf(effects[0]) + Logged(effects[1..])
  }

  lemma {:induction false} WireConcat(a: seq<Effect>, b: seq<Effect>)
    ensures Wire(a + b) == Wire(a) + Wire(b)
  {
    if a == [] {
      assert a + b == b;
    } else {
      assert (a + b)[1..] == a[1..] + b;
      WireConcat(a[1..], b);
      ConcatAssoc(BytesOf(a[0]), Wire(a[1..]), Wire(b));
    }
  }

  lemma {:induction false} LoggedConcat(a: seq<Effect>, b: seq<Effect>)
    ensures Logged(a + b) == Logged(a) + Logged(b)
  {
    if a == [] {
      assert a + b == b;
    } else {
      assert (a + b)[1..] == a[1..] + b;
      LoggedConcat(a[1..], b);
      ConcatAssoc(ReasonsOf(a[0]), Logged(a[1..]), Logged(b));
    }
  }

  /** One more packet, with what is sent and logged for it. */
  lemma SessionStep(w: World, packets: seq<Bytes>, packet: Bytes, start: Bytes)
    requires After(w, packets).verdict == Open
    ensures var n, s, t := |packets|, After(w, packets), After(w, packets + [packet]);
            var step := Handle(s.conn, packet, ActiveAt(w, n), w.moments(n).time, w.crypto);
            && t.conn == step.conn && t.verdict == step.verdict
            && start + Wire(s.effects) + Wire(step.effects) == start + Wire(t.effects)
            && Logged(s.effects) + Logged(step.effects) == Logged(t.effects)
  {
    AfterSnoc(w, packets, packet);
    var n, s := |packets|, After(w, packets);
    var more := Handle(s.conn, packet, ActiveAt(w, n), w.moments(n).time, w.crypto).effects;
    WireConcat(s.effects, more);
    LoggedConcat(s.effects, more);
    ConcatAssoc(start, Wire(s.effects), Wire(more));
  }

  lemma WireOne(e: Effect)
    ensures Wire([e]) == BytesOf(e) && Logged([e]) == ReasonsOf(e)
  {
    assert [e][1..] == [];
    assert BytesOf(e) + [] == BytesOf(e) && ReasonsOf(e) + [] == ReasonsOf(e);
  }

  lemma WireTwo(a: Effect, b: Effect)
    ensures Wire([a, b]) == BytesOf(a) + BytesOf(b) && Logged([a, b]) == ReasonsOf(a) + ReasonsOf(b)
  {
    WireOne(b);
    assert [a, b][1..] == [b];
  }
}
