/** Signatures as the connection sends them: which end of message gets one, and
    what it is worth. */
module SentSignatures {
  import opened ByteStrings
  import opened BodyCanonicalizers
  import opened Configs
  import opened EndToEnd
  import opened FlagWords
  import opened Foldings
  import opened Framing
  import opened LineEnds
  import opened Lockstep
  import opened MailboxProperties
  import opened Milter
  import opened MilterHistory
  import opened MilterProperties
  import opened RelaxedBodies
  import opened SignatureInput
  import opened SignatureTheorems
  import opened Signers
  import opened SigningConditions
  import opened TagLists
  import opened Verifiers

  // ----- reading a modification off a reply -----

  /** A header put at a place among those of its name, or after all headers. */
  datatype Insertion = Insertion(index: Option<nat>, header: Header)

  /** A name and a value, each followed by a zero byte. */
  function ReadField(s: Bytes): Option<Header> {
    var n := Find(s, '\0');
    if n == |s| then None
    else
      var rest := s[n + 1..];
      var m := Find(rest, '\0');
      if m + 1 == |rest| then Some(Header(s[..n], rest[..m])) else None
  }

  /** A reply as a mail server reads it: `h` adds a header, `i` inserts one at an
      index of four bytes. */
  function ReadInsertion(packet: Bytes): Option<Insertion> {
    if packet != [] && packet[0] == 'h' then
      var field := ReadField(packet[1..]);
      if field.Some? then Some(Insertion(None, field.value)) else None
    else if |packet| >= 5 && packet[0] == 'i' then
      var field := ReadField(packet[5..]);
      if field.Some? then Some(Insertion(Some(FromBigEndian(packet[1..5])), field.value)) else None
    else None
  }

  lemma FieldIsRead(s: Bytes, name: Bytes, value: Bytes)
    requires s == name + ['\0'] + value + ['\0'] && '\0' !in name && '\0' !in value
    ensures ReadField(s) == Some(Header(name, value))
  {
    FindIn(name, '\0', value + ['\0']);
    FindIn(value, '\0', []);
    assert s == name + ['\0'] + (value + ['\0']);
    assert s[|name| + 1..] == value + ['\0'] + [] == value + ['\0'];
    assert s[..|name|] == name && (value + ['\0'])[..|value|] == value;
  }

  lemma NameIs()
    ensures FIELD_NAME == "DKIM-Signature" + ['\0'] && '\0' !in "DKIM-Signature"
  {
  }

  /** The place a signature gets: at index 0 when changing headers was granted (bit
      4 of the actions), else after all headers. */
  function Place(actions: nat): Option<nat> { if Bit(actions, 4) then Some(0) else None }

  function Packet(e: Effect): Bytes
    requires e.Reply?
  {
    [e.command] + e.payload
  }

  lemma AddIsRead(value: Bytes, packet: Bytes)
    requires '\0' !in value && packet == ['h'] + (FIELD_NAME + value + ['\0'])
    ensures ReadInsertion(packet) == Some(Insertion(None, Header("DKIM-Signature", value)))
  {
    NameIs();
    FieldIsRead(packet[1..], "DKIM-Signature", value);
  }

  lemma InsertIsRead(value: Bytes, packet: Bytes)
    requires '\0' !in value && packet == ['i'] + (BigEndian(0) + FIELD_NAME + value + ['\0'])
    ensures ReadInsertion(packet) == Some(Insertion(Some(0), Header("DKIM-Signature", value)))
  {
    NameIs();
    BigEndianRoundTrip(0);
    var rest := FIELD_NAME + value + ['\0'];
    assert packet == ['i'] + BigEndian(0) + rest;
    assert packet[1..5] == BigEndian(0) && packet[5..] == rest;
    FieldIsRead(rest, "DKIM-Signature", value);
  }

  lemma ActionIsRead(actions: nat, value: Bytes)
    requires '\0' !in value
    ensures var action := HeaderAction(actions, value);
            && action.Reply? && (action.command == 'i' <==> Bit(actions, 4))
            && ReadInsertion(Packet(action)) == Some(Insertion(Place(actions), Header("DKIM-Signature", value)))
  {
    Powers();
    AndPower(actions, 4);
    if Bit(actions, 4) {
      InsertIsRead(value, Packet(HeaderAction(actions, value)));
    } else {
      AddIsRead(value, Packet(HeaderAction(actions, value)));
    }
  }

  // ----- no zero byte in a signature -----

  lemma {:induction false} FoldNulFree(tokens: seq<Bytes>, column: nat)
    requires forall t :: t in tokens ==> '\0' !in t
    ensures '\0' !in FoldTokens(tokens, column)
    decreases |tokens|
  {
    if tokens != [] {
      assert tokens[0] in tokens && forall t :: t in tokens[1..] ==> t in tokens;
      FoldNulFree(tokens[1..], NextColumn(column, tokens[0]));
    }
  }

  lemma {:induction false} TokensNulFree(tags: seq<Tag>)
    requires AllCompact(tags)
    ensures forall t :: t in Tokens(tags) ==> '\0' !in t
  {
    if tags != [] {
      TokensTail(tags);
      TokensNulFree(tags[1..]);
      assert Compact(tags[0]);
      assert '\0' !in tags[0].name && '\0' !in tags[0].value;
    }
  }

  lemma FieldNulFree(config: Config, headers: seq<Header>, time: nat, bodyHash: Octets, crypto: Crypto, field: Bytes)
    requires Loaded(config) && SignedField(config, headers, bodyHash, time, crypto) == Ok(field)
    ensures '\0' !in field
  {
    var signature := SignedFieldIs(config, headers, bodyHash, time, crypto, field);
    var b := Base64.Encode(signature);
    SignatureText(signature);
    FieldEolFree(config, headers, time, bodyHash, b);
    NamesPlain(headers);
    TagsCompact(config, Names(headers), time, bodyHash, b);
    UnsignedIsRendered(config, Names(headers), time, bodyHash, b);
    TokensNulFree(SignatureTags(config, Names(headers), time, bodyHash, b));
    FoldNulFree(Tokens(SignatureTags(config, Names(headers), time, bodyHash, b)), 0);
  }

  // ----- what is sent -----

  /** What stands to be sent when `packets` are followed by the end of a message. */
  function OutcomeAtEnd(w: World, packets: seq<Bytes>): Result<Bytes, Reason> {
    StoredOutcome(w, packets, w.moments(|packets|).time)
  }

  /** The two replies by which a mail server is told to insert a header and to accept
      the message. */
  predicate InsertsAndAccepts(replies: seq<Effect>, ins: Insertion) {
    && |replies| == 2 && replies[0].Reply? && replies[1].Reply?
    && ReadInsertion(Packet(replies[0])) == Some(ins) && Packet(replies[1]) == ['a']
  }

  /** The connection was open after `packets`, was then sent the end of the message
      by `packet`, and answered with this insertion and an accept. */
  ghost predicate SendsSignature(w: World, packets: seq<Bytes>, packet: Bytes, ins: Insertion) {
    && After(w, packets).verdict == Open && Command(packet) == 'E'
    && After(w, packets).effects <= After(w, packets + [packet]).effects
    && InsertsAndAccepts(After(w, packets + [packet]).effects[|After(w, packets).effects|..], ins)
  }

  lemma RepliesAtEnd(w: World, packets: seq<Bytes>, packet: Bytes)
    returns (sent: seq<Effect>, outcome: Result<Bytes, Reason>, actions: nat)
    requires After(w, packets).verdict == Open && Command(packet) == 'E'
    ensures sent == After(w, packets).effects && outcome == OutcomeAtEnd(w, packets)
    ensures actions == Negotiation(packets).0
    ensures After(w, packets + [packet]).effects == sent + EndReplies(outcome, actions).0
  {
    sent, outcome, actions := After(w, packets).effects, OutcomeAtEnd(w, packets), Negotiation(packets).0;
    StreamingIsStoreAndForward(w, packets);
    StreamingIsStoreAndForward(w, packets + [packet]);
    StoreAndForwardSnoc(w, packets, packet);
    RepliesToEnd(packet, Negotiation(packets), outcome);
  }

  lemma RepliesToEnd(packet: Bytes, flags: (nat, nat), outcome: Result<Bytes, Reason>)
    requires Command(packet) == 'E'
    ensures RepliesFor(packet, flags, outcome) == EndReplies(outcome, flags.0)
  {
  }

  lemma RepliesCarry(outcome: Result<Bytes, Reason>, actions: nat, ins: Insertion)
    requires outcome.Ok? ==> '\0' !in outcome.value && Fits(HeaderAction(actions, outcome.value))
    ensures InsertsAndAccepts(EndReplies(outcome, actions).0, ins)
       <==> outcome.Ok? && ins == Insertion(Place(actions), Header("DKIM-Signature", outcome.value))
  {
    if outcome.Ok? {
      ActionIsRead(actions, outcome.value);
      assert ['a'] + [] == ['a'];
    }
  }

  lemma OutcomeIsClean(w: World, packets: seq<Bytes>)
    requires AllLoaded(w) && Sane(w.crypto) && w.moments(|packets|).time <= USIZE_MAX
    ensures var outcome := OutcomeAtEnd(w, packets);
            outcome.Ok? ==> '\0' !in outcome.value && Fits(HeaderAction(Negotiation(packets).0, outcome.value))
  {
    var time := w.moments(|packets|).time;
    OutcomeShort(w, packets, time);
    if StoredOutcome(w, packets, time).Ok? {
      var field := StoredOutcome(w, packets, time).value;
      var start := MessageStart(packets).value;
      SignedOutcome(w, packets, time, field);
      ActiveIsLoaded(w, start);
      FieldNulFree(ActiveAt(w, start), ReceivedHeaders(packets), time,
                   w.crypto.sha256(BodyOutput(ReceivedBody(packets))), w.crypto, field);
      ActionShape(Negotiation(packets).0, field);
    }
  }

  lemma OutcomeOfSignable(w: World, packets: seq<Bytes>, field: Bytes)
    ensures OutcomeAtEnd(w, packets) == Ok(field)
       <==> Signable(packets) && SignedAtEnd(w, packets, w.moments(|packets|).time) == Ok(field)
  {
    var time := w.moments(|packets|).time;
    MessageSignedExactlyWhen(w, packets, time);
    if StoredOutcome(w, packets, time).Ok? {
      SignedOutcome(w, packets, time, StoredOutcome(w, packets, time).value);
    }
  }

  /** With digests and keys of the usual sizes, the end of a message is answered by
      inserting a header exactly when the message may be signed and the signer signs
      it, with the configuration of its beginning and the time of its end; and the
      header inserted is then DKIM-Signature with that field, at index 0 exactly when
      changing headers was granted. */
  lemma SignatureSentExactlyWhen(w: World, packets: seq<Bytes>, packet: Bytes, ins: Insertion)
    requires After(w, packets).verdict == Open && Command(packet) == 'E'
    requires AllLoaded(w) && Sane(w.crypto) && w.moments(|packets|).time <= USIZE_MAX
    ensures SendsSignature(w, packets, packet, ins)
       <==> && Signable(packets)
            && SignedAtEnd(w, packets, w.moments(|packets|).time) == Ok(ins.header.value)
            && ins.header.name == "DKIM-Signature"
            && ins.index == if Bit(Negotiation(packets).0, 4) then Some(0) else None
  {
    var sent, outcome, actions := RepliesAtEnd(w, packets, packet);
    var replies := EndReplies(outcome, actions).0;
    assert (sent + replies)[|sent|..] == replies;
    OutcomeIsClean(w, packets);
    RepliesCarry(outcome, actions, ins);
    OutcomeOfSignable(w, packets, ins.header.value);
    SentForOutcome(outcome, ins, Place(actions));
  }

  lemma SentForOutcome(outcome: Result<Bytes, Reason>, ins: Insertion, place: Option<nat>)
    ensures outcome.Ok? && ins == Insertion(place, Header("DKIM-Signature", outcome.value))
       <==> outcome == Ok(ins.header.value) && ins.header.name == "DKIM-Signature" && ins.index == place
  {
  }

  /** A signature that is sent names the sole domain of the From field received,
      which is that of the configuration at the beginning of the message. */
  lemma SentForOwnDomain(w: World, packets: seq<Bytes>, packet: Bytes, ins: Insertion)
    requires AllLoaded(w) && Sane(w.crypto) && w.moments(|packets|).time <= USIZE_MAX
    requires SendsSignature(w, packets, packet, ins)
    ensures MessageStart(packets).Some?
    ensures var from := Instances(ReceivedHeaders(packets), "from");
            && |from| == 1
            && StrippedText(from[0].value).Some?
            && SoleMailbox(StrippedText(from[0].value).value, ActiveAt(w, MessageStart(packets).value).domain)
  {
    SignatureSentExactlyWhen(w, packets, packet, ins);
    OutcomeOfSignable(w, packets, ins.header.value);
    RunSignsOnlyOwnDomain(w, packets, w.moments(|packets|).time);
  }

  /** The header inserted, with what the mail system puts after its colon. */
  function Placed(ins: Insertion, lead: Bytes): Header { Header(ins.header.name, lead + ins.header.value) }

  /** And it verifies: the header that the mail server reads off the reply, put at
      any place in the header block, with the headers and the body received since the
      beginning of the message, their line ends as they are or as CRLF, against the
      key that was active when the message began. */
  lemma SentSignatureVerifies(w: World, packets: seq<Bytes>, packet: Bytes, ins: Insertion,
                              keyFor: (Bytes, Bytes) -> Bytes, lead: Bytes, k: nat)
    requires AllLoaded(w) && Sane(w.crypto) && w.moments(|packets|).time <= USIZE_MAX
    requires SendsSignature(w, packets, packet, ins)
    requires MessageStart(packets).Some? && |ReceivedBody(packets)| <= USIZE_MAX
    requires k <= |ReceivedHeaders(packets)| && LegalLead(lead)
    requires var c := ActiveAt(w, MessageStart(packets).value);
             KeyPair(w.crypto, c.key, keyFor(c.domain, c.selector))
    ensures var headers, body := ReceivedHeaders(packets), ReceivedBody(packets);
            && (AllLegal(Selected(SIGNED_HEADERS, headers)) ==>
                  Verifies(Inserted(headers, k, Placed(ins, lead)), k, body, w.crypto, keyFor))
            && (AllFolded(Selected(SIGNED_HEADERS, headers)) ==>
                  Verifies(Inserted(TransmittedAll(headers), k, Placed(ins, lead)), k, Transmitted(body),
                           w.crypto, keyFor))
  {
    var time, field := w.moments(|packets|).time, ins.header.value;
    SignatureSentExactlyWhen(w, packets, packet, ins);
    OutcomeOfSignable(w, packets, field);
    assert Placed(ins, lead) == FieldHeader(lead, field);
    if AllLegal(Selected(SIGNED_HEADERS, ReceivedHeaders(packets))) {
      AddedSignatureVerifies(w, packets, time, field, keyFor, lead, k);
    }
    if AllFolded(Selected(SIGNED_HEADERS, ReceivedHeaders(packets))) {
      WireSignatureVerifies(w, packets, time, field, keyFor, lead, k);
    }
  }

  lemma WireSignatureVerifies(w: World, packets: seq<Bytes>, time: nat, field: Bytes,
                              keyFor: (Bytes, Bytes) -> Bytes, lead: Bytes, k: nat)
    requires AllLoaded(w) && StoredOutcome(w, packets, time) == Ok(field)
    requires MessageStart(packets).Some? && |ReceivedBody(packets)| <= USIZE_MAX
    requires k <= |ReceivedHeaders(packets)| && LegalLead(lead)
    requires AllFolded(Selected(SIGNED_HEADERS, ReceivedHeaders(packets)))
    requires var c := ActiveAt(w, MessageStart(packets).value);
             KeyPair(w.crypto, c.key, keyFor(c.domain, c.selector))
    ensures var headers, body, signature := ReceivedHeaders(packets), ReceivedBody(packets), FieldHeader(lead, field);
            Verifies(Inserted(TransmittedAll(headers), k, signature), k, Transmitted(body), w.crypto, keyFor)
  {
    var start := MessageStart(packets).value;
    SignedOutcome(w, packets, time, field);
    ParsedAreNamed(HeaderPayloads(packets[start..]));
    ActiveIsLoaded(w, start);
    CountableBodyIsRelaxed(ReceivedBody(packets));
    TransmittedMessageVerifies(ActiveAt(w, start), ReceivedHeaders(packets), ReceivedBody(packets), time, w.crypto,
                               keyFor, lead, k, field);
  }
}
