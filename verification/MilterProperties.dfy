/** What every run of a connection keeps, and what its signatures are worth. */
module MilterProperties {
  import opened ByteStrings
  import opened BodyCanonicalizers
  import opened Configs
  import opened Reloads
  import opened RelaxedBodies
  import opened Signers
  import opened Milter
  import opened MilterHistory
  import opened EndToEnd
  import opened SignatureTheorems
  import opened Verifiers

  // ----- bounded storage -----

  function StoredSize(headers: seq<Header>): nat {
    if headers == [] then 0
    else
      var n := |headers| - 1;
      StoredSize(headers[..n]) + |headers[n].name| + |headers[n].value|
  }

  /** At most 1,000 headers of at most 1 MiB in all, each well formed; counted
      exactly while nothing is wrong. */
  predicate Bounded(m: Message) {
    && |m.headers| <= 1000 && StoredSize(m.headers) <= 1_048_576
    && (m.error.None? ==> m.headerBytes == StoredSize(m.headers))
    && forall i :: 0 <= i < |m.headers| ==> NewHeader(m.headers[i].name, m.headers[i].value).Some?
  }

  lemma HeaderKeepsBounds(m: Message, payload: Bytes)
    requires Bounded(m)
    ensures Bounded(WithHeader(m, payload))
  {
    var now := WithHeader(m, payload);
    if now.headers != m.headers {
      var n := |m.headers|;
      assert now.headers[..n] == m.headers;
    }
  }

  lemma StepKeepsBounds(c: Conn, packet: Bytes, active: Config, time: nat, crypto: Crypto)
    requires Bounded(c.message)
    ensures Bounded(Handle(c, packet, active, time, crypto).conn.message)
  {
    HeaderKeepsBounds(c.message, Payload(packet));
    HeaderKeepsBounds(Begun(active), Payload(packet));
  }

  /** The bounds hold in every state a connection can reach. */
  lemma {:induction false} RunKeepsBounds(w: World, packets: seq<Bytes>)
    ensures Bounded(After(w, packets).conn.message)
  {
    if packets != [] {
      var n := |packets| - 1;
      var front, packet := packets[..n], packets[n];
      assert packets == front + [packet];
      RunKeepsBounds(w, front);
      if After(w, front).verdict == Open {
        AfterSnoc(w, front, packet);
        StepKeepsBounds(After(w, front).conn, packet, ActiveAt(w, n), w.moments(n).time, w.crypto);
      } else {
        AfterFrozen(w, front, [packet]);
      }
    }
  }

  // ----- failures -----

  predicate StartsOrEnds(packet: Bytes) {
    Command(packet) == 'M' || Command(packet) == 'E' || Command(packet) == 'A'
  }

  /** A failed message stays exactly as it failed until M, E or A. */
  lemma FailureSticks(c: Conn, packet: Bytes, active: Config, time: nat, crypto: Crypto)
    requires c.message.config.Some? && c.message.error.Some?
    requires !StartsOrEnds(packet)
    ensures Handle(c, packet, active, time, crypto).conn.message == c.message
  {
  }

  /** A run of packets with no M, E or A after a failure. */
  lemma {:induction false} FailureSticksOverRuns(w: World, packets: seq<Bytes>, more: seq<Bytes>)
    requires After(w, packets).conn.message.config.Some? && After(w, packets).conn.message.error.Some?
    requires forall p :: p in more ==> !StartsOrEnds(p)
    ensures After(w, packets + more).conn.message == After(w, packets).conn.message
    decreases |more|
  {
    if more == [] {
      assert packets + more == packets;
    } else {
      var n := |more| - 1;
      var front := packets + more[..n];
      assert packets + more == front + [more[n]];
      assert more[n] in more;
      FailureSticksOverRuns(w, packets, more[..n]);
      if After(w, front).verdict == Open {
        AfterSnoc(w, front, more[n]);
        FailureSticks(After(w, front).conn, more[n], ActiveAt(w, |front|), w.moments(|front|).time, w.crypto);
      } else {
        AfterFrozen(w, front, [more[n]]);
      }
    }
  }

  /** The end of a failed message is an accept, with the first reason logged. */
  lemma FailedMessageAccepted(c: Conn, packet: Bytes, active: Config, time: nat, crypto: Crypto)
    requires Command(packet) == 'E' && c.message.error.Some?
    ensures var step := Handle(c, packet, active, time, crypto);
            step.effects == [Log(c.message.error.value), ACCEPT] && step.verdict == Open
            && step.conn.message == NO_MESSAGE
  {
  }

  /** Over a run: once a message with a configuration has failed, its end, when it
      comes, is one accept with the first reason logged, whatever was sent between. */
  lemma FailedMessageEnds(w: World, packets: seq<Bytes>, more: seq<Bytes>, packet: Bytes)
    requires After(w, packets).conn.message.config.Some? && After(w, packets).conn.message.error.Some?
    requires (forall p :: p in more ==> !StartsOrEnds(p)) && Command(packet) == 'E'
    requires After(w, packets + more).verdict == Open
    ensures var reason := After(w, packets).conn.message.error.value;
            var end := After(w, packets + more + [packet]);
            && end.effects == After(w, packets + more).effects + [Log(reason), ACCEPT]
            && end.verdict == Open && end.conn.message == NO_MESSAGE
  {
    var n := |packets + more|;
    FailureSticksOverRuns(w, packets, more);
    AfterSnoc(w, packets + more, packet);
    FailedMessageAccepted(After(w, packets + more).conn, packet, ActiveAt(w, n), w.moments(n).time, w.crypto);
  }

  // ----- which messages are signed -----

  predicate GoodHeader(payload: Bytes) {
    var parsed := ParseHeader(payload);
    parsed.Ok? && NewHeader(parsed.value.name, parsed.value.value).Some?
  }

  predicate AllGood(payloads: seq<Bytes>) { forall i :: 0 <= i < |payloads| ==> GoodHeader(payloads[i]) }

  lemma {:induction false} SizesGrow(payloads: seq<Bytes>, n: nat)
    requires n <= |payloads|
    ensures TotalSize(payloads[..n]) <= TotalSize(payloads)
    decreases |payloads| - n
  {
    if n < |payloads| {
      assert payloads[..n + 1][..n] == payloads[..n];
      SizesGrow(payloads, n + 1);
    } else {
      assert payloads[..n] == payloads;
    }
  }

  /** The headers of a message are in order exactly when each is well formed and
      together they are within the limits. */
  lemma {:induction false} HeadersInOrder(payloads: seq<Bytes>)
    ensures HeaderError(payloads).None?
       <==> AllGood(payloads) && |payloads| <= 1000 && TotalSize(payloads) <= 1_048_576
  {
    if payloads != [] {
      var n := |payloads| - 1;
      HeadersInOrder(payloads[..n]);
      SizesGrow(payloads, n);
      assert AllGood(payloads) <==> AllGood(payloads[..n]) && GoodHeader(payloads[n]);
    }
  }

  lemma {:induction false} ParsedAreNamed(payloads: seq<Bytes>)
    requires AllGood(payloads)
    ensures AllNamed(ParsedHeaders(payloads))
  {
    if payloads != [] {
      var n := |payloads| - 1;
      ParsedAreNamed(payloads[..n]);
    }
  }

  // ----- what a signature added by the connection is worth -----

  /** Every configuration involved came through validation. */
  ghost predicate AllLoaded(w: World) {
    && Loaded(w.initial)
    && forall i: nat, a :: a in w.moments(i).reloads && a.Loads? ==> Loaded(a.config)
  }

  lemma {:induction false} ActiveIsLoaded(w: World, i: nat)
    requires AllLoaded(w)
    ensures Loaded(ActiveAt(w, i)) && ActiveAt(w, i).listen == w.initial.listen
    decreases i
  {
    var before := if i == 0 then w.initial else ActiveAt(w, i - 1);
    if i > 0 {
      ActiveIsLoaded(w, i - 1);
    }
    ReloadsKeepListen(before, w.moments(i).reloads);
  }

  /** The message as the rest of the mail system has it when it ends. */
  function ReceivedHeaders(packets: seq<Bytes>): seq<Header>
    requires MessageStart(packets).Some?
  {
    ParsedHeaders(HeaderPayloads(packets[MessageStart(packets).value..]))
  }

  function ReceivedBody(packets: seq<Bytes>): Bytes
    requires MessageStart(packets).Some?
  {
    BodyBytes(packets[MessageStart(packets).value..])
  }

  /** When a run leads to a signature, that signature verifies for the headers and
      the body sent since the message began, with the key that was active then. */
  lemma AddedSignatureVerifies(w: World, packets: seq<Bytes>, time: nat, field: Bytes,
                               keyFor: (Bytes, Bytes) -> Bytes, lead: Bytes, k: nat)
    requires AllLoaded(w) && StoredOutcome(w, packets, time) == Ok(field)
    requires var headers := ReceivedHeaders(packets);
             k <= |headers| && LegalLead(lead) && AllLegal(Selected(SIGNED_HEADERS, headers))
    requires |ReceivedBody(packets)| <= USIZE_MAX
    requires var c := ActiveAt(w, MessageStart(packets).value);
             KeyPair(w.crypto, c.key, keyFor(c.domain, c.selector))
    ensures var headers, body := ReceivedHeaders(packets), ReceivedBody(packets);
            Verifies(Inserted(headers, k, FieldHeader(lead, field)), k, body, w.crypto, keyFor)
  {
    var start := MessageStart(packets).value;
    SignedOutcome(w, packets, time, field);
    ParsedAreNamed(HeaderPayloads(packets[start..]));
    ActiveIsLoaded(w, start);
    CountableBodyIsRelaxed(ReceivedBody(packets));
    SignedMessageVerifies(ActiveAt(w, start), ReceivedHeaders(packets), ReceivedBody(packets), time, w.crypto,
                          keyFor, lead, k, field);
  }

  lemma SignedOutcome(w: World, packets: seq<Bytes>, time: nat, field: Bytes)
    requires StoredOutcome(w, packets, time) == Ok(field)
    ensures MessageStart(packets).Some? && AllGood(HeaderPayloads(packets[MessageStart(packets).value..]))
    ensures SignedField(ActiveAt(w, MessageStart(packets).value), ReceivedHeaders(packets),
                        w.crypto.sha256(BodyOutput(ReceivedBody(packets))), time, w.crypto) == Ok(field)
  {
    HeadersInOrder(HeaderPayloads(packets[MessageStart(packets).value..]));
  }
}
