/** Line ends inside header values: an input on which the program and the standard
    part, and what becomes of such values once they are sent with CRLF. */
module LineEnds {
  import opened ByteStrings
  import opened BodyCanonicalizers
  import opened Configs
  import opened CoveredHeaders
  import opened EndToEnd
  import opened HeaderCanonicalizers
  import opened FromFields
  import opened MailboxExact
  import opened MailboxForms
  import opened Milter
  import opened RelaxedBodies
  import opened SignatureTheorems
  import opened Signers
  import opened SigningConditions
  import opened TagLists
  import opened Verifiers
  import Base64

  // ----- values as they are sent -----

  /** Every line end written as CRLF, as a mail server puts it on the wire. */
  function Transmitted(value: Bytes): Bytes
    decreases |value|
  {
    if value == [] then []
    else if IsEol(value[0]) then CRLF + Transmitted(AfterEol(value))
    else [value[0]] + Transmitted(value[1..])
  }

  /** Every line end, of any kind, is followed by whitespace. */
  predicate Folded(value: Bytes)
    decreases |value|
  {
    value == [] ||
    if IsEol(value[0]) then
      var rest := AfterEol(value);
      rest != [] && IsWsp(rest[0]) && Folded(rest)
    else Folded(value[1..])
  }

  lemma RelaxCrlf(rest: Bytes, started: bool, pending: bool)
    ensures RelaxFrom(CRLF + rest, started, pending) == RelaxFrom(rest, started, true)
  {
    assert (CRLF + rest)[1..][1..] == rest;
  }

  lemma {:induction false} TransmittedRelaxes(value: Bytes, started: bool, pending: bool)
    ensures RelaxFrom(Transmitted(value), started, pending) == RelaxFrom(value, started, pending)
    decreases |value|
  {
    if value != [] {
      if IsEol(value[0]) {
        var rest := AfterEol(value);
        RelaxCrlf(Transmitted(rest), started, pending);
        TransmittedRelaxes(rest, started, true);
        if rest != value[1..] {
          assert value[1..][1..] == rest;
        }
      } else {
        var rest := value[1..];
        assert value == [value[0]] + rest;
        TransmittedRelaxes(rest, started, true);
        TransmittedRelaxes(rest, true, false);
        RelaxFromCons(value[0], rest, started, pending);
        RelaxFromCons(value[0], Transmitted(rest), started, pending);
      }
    }
  }

  lemma {:induction false} TransmittedIsLegal(value: Bytes)
    ensures LegallyFolded(Transmitted(value)) <==> Folded(value)
    decreases |value|
  {
    if value != [] {
      if IsEol(value[0]) {
        var rest := AfterEol(value);
        TransmittedIsLegal(rest);
        assert (CRLF + Transmitted(rest))[2..] == Transmitted(rest);
      } else {
        TransmittedIsLegal(value[1..]);
        assert ([value[0]] + Transmitted(value[1..]))[1..] == Transmitted(value[1..]);
      }
    }
  }

  /** The program's form of a value is the standard's form of the value as sent,
      exactly when every line end in it is followed by whitespace. */
  lemma TransmittedIsStandard(value: Bytes)
    ensures Relaxed(value) == StandardRelaxed(Transmitted(value)) <==> Folded(value)
  {
    TransmittedRelaxes(value, false, false);
    TransmittedIsLegal(value);
    RelaxedIsStandard(Transmitted(value));
  }

  lemma {:induction false} TransmittedLines(body: Bytes)
    ensures SplitLines(Transmitted(body)) == SplitLines(body)
    decreases |body|
  {
    if body != [] {
      if IsEol(body[0]) {
        var rest := AfterEol(body);
        TransmittedLines(rest);
        assert (CRLF + Transmitted(rest))[2..] == Transmitted(rest);
      } else {
        TransmittedLines(body[1..]);
        assert ([body[0]] + Transmitted(body[1..]))[1..] == Transmitted(body[1..]);
      }
    }
  }

  // ----- whole messages as they are sent -----

  function TransmittedHeader(h: Header): Header { Header(h.name, Transmitted(h.value)) }

  function TransmittedAll(headers: seq<Header>): (r: seq<Header>)
    ensures |r| == |headers| && forall i :: 0 <= i < |r| ==> r[i] == TransmittedHeader(headers[i])
  {
    seq(|headers|, i requires 0 <= i < |headers| => TransmittedHeader(headers[i]))
  }

  predicate AllFolded(headers: seq<Header>) { forall i :: 0 <= i < |headers| ==> Folded(headers[i].value) }

  lemma {:induction false} TransmittedInstances(headers: seq<Header>, name: Bytes)
    ensures Instances(TransmittedAll(headers), name) == TransmittedAll(Instances(headers, name))
  {
    if headers != [] {
      TransmittedInstances(headers[1..], name);
      assert TransmittedAll(headers)[1..] == TransmittedAll(headers[1..]);
    }
  }

  lemma {:induction false} TransmittedLast(headers: seq<Header>, name: Bytes)
    ensures var last := LastInstance(headers, name);
            LastInstance(TransmittedAll(headers), name)
            == if last.Some? then Some(TransmittedHeader(last.value)) else None
  {
    if headers != [] {
      var n := |headers| - 1;
      TransmittedLast(headers[..n], name);
      assert TransmittedAll(headers)[..n] == TransmittedAll(headers[..n]);
    }
  }

  lemma TransmittedConcat(a: seq<Header>, b: seq<Header>)
    ensures TransmittedAll(a + b) == TransmittedAll(a) + TransmittedAll(b)
  {
  }

  lemma {:induction false} TransmittedSelected(names: seq<Bytes>, headers: seq<Header>)
    ensures Selected(names, TransmittedAll(headers)) == TransmittedAll(Selected(names, headers))
    ensures SignedNames(names, TransmittedAll(headers)) == SignedNames(names, headers)
  {
    if names != [] {
      TransmittedSelected(names[1..], headers);
      TransmittedLast(headers, names[0]);
      var last := LastInstance(headers, names[0]);
      var first := if last.Some? then [last.value] else [];
      TransmittedConcat(first, Selected(names[1..], headers));
      assert TransmittedAll(first) == if last.Some? then [TransmittedHeader(last.value)] else [];
    }
  }

  lemma {:induction false} TransmittedCanonical(headers: seq<Header>)
    ensures CanonicalHeaders(TransmittedAll(headers)) == CanonicalHeaders(headers)
  {
    if headers != [] {
      TransmittedCanonical(headers[1..]);
      assert TransmittedAll(headers)[1..] == TransmittedAll(headers[1..]);
      TransmittedRelaxes(headers[0].value, false, false);
    }
  }

  lemma TransmittedLegal(headers: seq<Header>)
    ensures AllLegal(TransmittedAll(headers)) <==> AllFolded(headers)
  {
    forall i | 0 <= i < |headers|
      ensures LegallyFolded(TransmittedAll(headers)[i].value) <==> Folded(headers[i].value)
    {
      TransmittedIsLegal(headers[i].value);
    }
    if AllLegal(TransmittedAll(headers)) {
      assert forall i :: 0 <= i < |headers| ==> LegallyFolded(TransmittedAll(headers)[i].value);
    }
  }

  /** The signer makes the same names and the same hash input of both. */
  lemma TransmittedHashInput(config: Config, headers: seq<Header>, time: nat, bodyHash: Octets)
    ensures Names(TransmittedAll(headers)) == Names(headers)
    ensures HashInput(config, TransmittedAll(headers), time, bodyHash) == HashInput(config, headers, time, bodyHash)
    ensures AllLegal(Selected(SIGNED_HEADERS, TransmittedAll(headers)))
       <==> AllFolded(Selected(SIGNED_HEADERS, headers))
  {
    TransmittedSelected(SIGNED_HEADERS, headers);
    TransmittedCanonical(Selected(SIGNED_HEADERS, headers));
    TransmittedLegal(Selected(SIGNED_HEADERS, headers));
  }

  lemma TransmittedNamed(headers: seq<Header>)
    requires AllNamed(headers)
    ensures AllNamed(TransmittedAll(headers))
  {
  }

  /** A verifier that gets the message with CRLF line ends rebuilds the signed
      bytes exactly when the line ends of the selected values are followed by
      whitespace. */
  lemma RebuiltFromTransmitted(config: Config, headers: seq<Header>, time: nat, bodyHash: Octets, b: Bytes,
                               lead: Bytes, k: nat)
    requires Loaded(config) && AllNamed(headers) && |Instances(headers, "from")| == 1
    requires forall c :: c in b ==> IsValueByte(c)
    requires k <= |headers| && LegalLead(lead)
    ensures (var field := FieldHeader(lead, SignedValue(config, headers, time, bodyHash, b));
             Rebuilt(Inserted(TransmittedAll(headers), k, field), k, Names(headers))
             == HashInput(config, headers, time, bodyHash))
       <==> AllFolded(Selected(SIGNED_HEADERS, headers))
  {
    TransmittedHashInput(config, headers, time, bodyHash);
    TransmittedInstances(headers, "from");
    TransmittedNamed(headers);
    RebuiltIsHashed(config, TransmittedAll(headers), time, bodyHash, b, lead, k);
  }

  /** And then it accepts the message, body and all. */
  lemma TransmittedMessageVerifies(config: Config, headers: seq<Header>, body: Bytes, time: nat, crypto: Crypto,
                                   keyFor: (Bytes, Bytes) -> Bytes, lead: Bytes, k: nat, field: Bytes)
    requires Loaded(config) && AllNamed(headers) && AllFolded(Selected(SIGNED_HEADERS, headers))
    requires SignedField(config, headers, crypto.sha256(RelaxedBody(body)), time, crypto) == Ok(field)
    requires KeyPair(crypto, config.key, keyFor(config.domain, config.selector))
    requires k <= |headers| && LegalLead(lead)
    ensures Verifies(Inserted(TransmittedAll(headers), k, FieldHeader(lead, field)), k, Transmitted(body),
                     crypto, keyFor)
  {
    var bodyHash := crypto.sha256(RelaxedBody(body));
    TransmittedLines(body);
    assert RelaxedBody(Transmitted(body)) == RelaxedBody(body);
    var signature := SignedFieldIs(config, headers, bodyHash, time, crypto, field);
    PairVerifies(crypto, config.key, keyFor(config.domain, config.selector),
                 HashInput(config, headers, time, bodyHash), signature);
    TransmittedHashInput(config, headers, time, bodyHash);
    TransmittedInstances(headers, "from");
    TransmittedNamed(headers);
    FieldAccepted(config, TransmittedAll(headers), Transmitted(body), time, crypto, keyFor, lead, k, bodyHash,
                  signature, field);
  }

  // ----- an input on which the program and the standard part -----

  const BROKEN_SUBJECT := Header("Subject", "a\nb")

  /** The program reads the line feed as a space; the standard keeps it. */
  lemma BrokenSubject()
    ensures !LegallyFolded(BROKEN_SUBJECT.value) && !Folded(BROKEN_SUBJECT.value)
    ensures Relaxed(BROKEN_SUBJECT.value) != StandardRelaxed(BROKEN_SUBJECT.value)
  {
    var value := BROKEN_SUBJECT.value;
    assert value[1..][0] == '\n' && value[1..][1..][0] == 'b';
    RelaxedIsStandard(value);
  }

  /** Such a field is taken from a header packet. */
  lemma BrokenSubjectArrives(m: Message)
    requires m.error.None? && |m.headers| < MAX_HEADERS && m.headerBytes + 10 <= MAX_HEADER_BYTES
    ensures WithHeader(m, "Subject" + ['\0'] + "a\nb" + ['\0'])
         == m.(headers := m.headers + [BROKEN_SUBJECT], headerBytes := m.headerBytes + 10)
  {
    var payload := "Subject" + ['\0'] + "a\nb" + ['\0'];
    SubjectParses(payload);
    assert IsHeaderName("Subject");
  }

  lemma SubjectParses(payload: Bytes)
    requires payload == "Subject" + ['\0'] + "a\nb" + ['\0']
    ensures ParseHeader(payload) == Ok(BROKEN_SUBJECT)
  {
    FindIn("Subject", '\0', "a\nb" + ['\0']);
    assert payload == "Subject" + ['\0'] + ("a\nb" + ['\0']);
    assert payload[7 + 1..] == "a\nb" + ['\0'] && payload[..7] == "Subject";
  }

  function BrokenMessage(config: Config): seq<Header> {
    [Header("From", "a" + ['@'] + config.domain), BROKEN_SUBJECT]
  }

  /** A message with it is signed. */
  lemma BrokenMessageIsSigned(config: Config, bodyHash: Octets, time: nat, crypto: Crypto)
    requires Loaded(config)
    requires crypto.sign(config.key, HashInput(config, BrokenMessage(config), time, bodyHash)).Some?
    ensures SignedField(config, BrokenMessage(config), bodyHash, time, crypto).Ok?
  {
    var headers := BrokenMessage(config);
    BrokenFrom(config);
    LoadedIsLower(config);
    LoadedIsHost(config);
    assert DotAtom("a");
    SimpleBytes("a", config.domain);
    OrdinaryFromIsSigned(config, headers, bodyHash, time, crypto, Alone(Simple("a", config.domain)));
  }

  lemma BrokenFrom(config: Config)
    ensures Instances(BrokenMessage(config), "from") == [BrokenMessage(config)[0]]
  {
    var from := BrokenMessage(config)[0];
    assert BrokenMessage(config) == [from] + ([BROKEN_SUBJECT] + []);
    InstancesCons(from, [BROKEN_SUBJECT] + [], "from");
    InstancesCons(BROKEN_SUBJECT, [], "from");
    assert LowerAll("From") == LowerAll("from");
    assert |LowerAll("Subject")| != |LowerAll("from")|;
  }

  /** And no verifier rebuilds what was signed. */
  lemma BrokenMessageBreaks(config: Config, time: nat, bodyHash: Octets, b: Bytes, lead: Bytes, k: nat)
    requires Loaded(config) && (forall c :: c in b ==> IsValueByte(c)) && k <= 2 && LegalLead(lead)
    ensures var headers := BrokenMessage(config);
            var field := FieldHeader(lead, SignedValue(config, headers, time, bodyHash, b));
            && Rebuilt(Inserted(headers, k, field), k, Names(headers)) != HashInput(config, headers, time, bodyHash)
            && Rebuilt(Inserted(TransmittedAll(headers), k, field), k, Names(headers))
               != HashInput(config, headers, time, bodyHash)
  {
    var headers := BrokenMessage(config);
    BrokenFrom(config);
    BrokenNamed(config);
    BrokenSelected(config);
    RebuiltIsHashed(config, headers, time, bodyHash, b, lead, k);
    RebuiltFromTransmitted(config, headers, time, bodyHash, b, lead, k);
  }

  lemma BrokenNamed(config: Config)
    ensures AllNamed(BrokenMessage(config))
  {
    assert IsHeaderName("From") && IsHeaderName("Subject");
  }

  lemma BrokenSelected(config: Config)
    ensures !AllLegal(Selected(SIGNED_HEADERS, BrokenMessage(config)))
    ensures !AllFolded(Selected(SIGNED_HEADERS, BrokenMessage(config)))
  {
    var headers := BrokenMessage(config);
    CoveredAreSigned("subject");
    assert LowerAll("Subject") == LowerAll("subject");
    assert LastInstance(headers, "subject") == Some(BROKEN_SUBJECT);
    var i := SelectedFor(SIGNED_HEADERS, headers, "subject");
    BrokenSubject();
  }

  lemma LoadedIsHost(config: Config)
    requires Loaded(config)
    ensures HostName(config.domain)
  {
    ValidatedName(config.domain);
    assert TrimDots(config.domain) != [];
    var name := TrimDots(config.domain);
    assert config.domain == LowerAll(name);
    assert config.domain[|name| - 1] == Lower(name[|name| - 1]);
  }
}
