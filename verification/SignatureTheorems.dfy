/** The main statements about signatures: verifiers accept them, a second From
    spoils them, and the signed bytes name what was signed. */
module SignatureTheorems {
  import opened ByteStrings
  import opened HeaderCanonicalizers
  import opened Foldings
  import opened TagLists
  import opened Configs
  import opened Signers
  import opened Verifiers
  import opened RelaxedBodies
  import opened EndToEnd
  import Base64

  function Names(headers: seq<Header>): seq<Bytes> { SignedNames(SIGNED_HEADERS, headers) }

  /** The emitted field, with what the mail system puts after the colon. */
  function FieldHeader(lead: Bytes, field: Bytes): Header { Header("DKIM-Signature", lead + field) }

  function Inserted(headers: seq<Header>, k: nat, field: Header): seq<Header>
    requires k <= |headers|
  {
    headers[..k] + [field] + headers[k..]
  }

  function SignedValue(config: Config, headers: seq<Header>, time: nat, bodyHash: Octets, b: Bytes): Bytes {
    Fold(UnsignedValue(config, Names(headers), time, bodyHash) + b)
  }

  lemma NamesPlain(headers: seq<Header>)
    ensures forall n :: n in Names(headers) ==> IsPlainName(n)
  {
    SignedNamesWithin(SIGNED_HEADERS, headers);
    SignedHeadersPlain();
  }

  lemma NamesFromFirst(names: seq<Bytes>, headers: seq<Header>)
    requires names != [] && names[0] == "from" && |Instances(headers, "from")| == 1
    ensures SignedNames(names, headers) == ["from", "from"] + SignedNames(names[1..], headers)
  {
    LastOfInstances(headers, "from");
    assert NamesFor("from", true) == ["from", "from"];
  }

  lemma FromIsFirst()
    ensures SIGNED_HEADERS != [] && SIGNED_HEADERS[0] == "from"
  {
  }

  lemma NamesStartWithFrom(headers: seq<Header>)
    requires |Instances(headers, "from")| == 1
    ensures Names(headers) == ["from", "from"] + SignedNames(SIGNED_HEADERS[1..], headers)
  {
    FromIsFirst();
    NamesFromFirst(SIGNED_HEADERS, headers);
  }

  /** Whatever the signature, a verifier rebuilds the signer's bytes, wherever
      the field was put, exactly when the selected values are legally folded. */
  lemma RebuiltIsHashed(config: Config, headers: seq<Header>, time: nat, bodyHash: Octets, b: Bytes,
                        lead: Bytes, k: nat)
    requires Loaded(config) && AllNamed(headers) && |Instances(headers, "from")| == 1
    requires forall c :: c in b ==> IsValueByte(c)
    requires k <= |headers| && LegalLead(lead)
    ensures (var message := Inserted(headers, k, FieldHeader(lead, SignedValue(config, headers, time, bodyHash, b)));
             Rebuilt(message, k, Names(headers)) == HashInput(config, headers, time, bodyHash))
       <==> AllLegal(Selected(SIGNED_HEADERS, headers))
  {
    var field := FieldHeader(lead, SignedValue(config, headers, time, bodyHash, b));
    var message := Inserted(headers, k, field);
    assert message[k] == field;
    SignatureBytes(config, headers, time, bodyHash, b, lead);
    HeaderBytes(headers, k, field);
    var selected := Selected(SIGNED_HEADERS, headers);
    SelectedNamed(SIGNED_HEADERS, headers);
    LegalHeadersAgree(selected);
    var last := CanonicalSignature(UnsignedValue(config, Names(headers), time, bodyHash));
    if StandardHeaders(selected) + last == CanonicalHeaders(selected) + last {
      assert |StandardHeaders(selected)| == |CanonicalHeaders(selected)|;
      assert StandardHeaders(selected) == (StandardHeaders(selected) + last)[..|CanonicalHeaders(selected)|];
    }
  }

  lemma HeaderBytes(headers: seq<Header>, k: nat, field: Header)
    requires k <= |headers| && field.name == "DKIM-Signature" && |Instances(headers, "from")| == 1
    ensures HeadersByName(Names(headers), Inserted(headers, k, field))
         == StandardHeaders(Selected(SIGNED_HEADERS, headers))
  {
    SignedHeadersPlain();
    SignedHeadersDistinct();
    NoSignatureNames();
    InsertedInstances(headers, k, field, SIGNED_HEADERS);
    PickSelected(SIGNED_HEADERS, headers, Inserted(headers, k, field));
  }

  lemma NoSignatureNames()
    ensures "dkim-signature" !in SIGNED_HEADERS
  {
    forall i | 0 <= i < |SIGNED_HEADERS|
      ensures SIGNED_HEADERS[i] != "dkim-signature"
    {
      assert |SIGNED_HEADERS[i]| != 14;
    }
  }

  lemma SignatureBytes(config: Config, headers: seq<Header>, time: nat, bodyHash: Octets, b: Bytes, lead: Bytes)
    requires Loaded(config) && LegalLead(lead) && forall c :: c in b ==> IsValueByte(c)
    ensures StandardRelaxed(DeleteSignature(lead + SignedValue(config, headers, time, bodyHash, b)))
         == Relaxed(UnsignedValue(config, Names(headers), time, bodyHash))
  {
    var names := Names(headers);
    var unsigned := UnsignedValue(config, names, time, bodyHash);
    NamesPlain(headers);
    TagsCompact(config, names, time, bodyHash, b);
    UnsignedIsRendered(config, names, time, bodyHash, b);
    UnsignedIsRendered(config, names, time, bodyHash, []);
    assert unsigned + [] == unsigned;
    EmptiedTags(config, names, time, bodyHash, b);
    DeletedFieldCanonical(lead, SignatureTags(config, names, time, bodyHash, b));
  }

  lemma {:induction false} SelectedNamed(names: seq<Bytes>, headers: seq<Header>)
    requires AllNamed(headers)
    ensures AllNamed(Selected(names, headers))
  {
    if names != [] {
      SelectedNamed(names[1..], headers);
      LastOfInstances(headers, names[0]);
    }
  }

  /** A verifier reads out of the emitted field what the signer put in. */
  lemma ClaimIsRead(config: Config, headers: seq<Header>, time: nat, bodyHash: Octets, b: Bytes, lead: Bytes)
    requires Loaded(config) && Blank(lead) && |Instances(headers, "from")| == 1
    requires forall c :: c in b ==> IsValueByte(c)
    ensures ReadClaim(lead + SignedValue(config, headers, time, bodyHash, b))
         == Some(Claim(config.domain, config.selector, Names(headers), Base64.Encode(bodyHash), b))
  {
    var names := Names(headers);
    var tags := SignatureTags(config, names, time, bodyHash, b);
    FieldParses(config, headers, time, bodyHash, b, lead);
    SignatureLookups(config, names, time, bodyHash, b);
    NamesOfText(headers);
    ClaimOfTags(lead + SignedValue(config, headers, time, bodyHash, b), tags, config.domain, config.selector,
                Join(names, [':']), Base64.Encode(bodyHash), b);
  }

  lemma FieldParses(config: Config, headers: seq<Header>, time: nat, bodyHash: Octets, b: Bytes, lead: Bytes)
    requires Loaded(config) && Blank(lead) && forall c :: c in b ==> IsValueByte(c)
    ensures ParseTagList(lead + SignedValue(config, headers, time, bodyHash, b))
         == Some(SignatureTags(config, Names(headers), time, bodyHash, b))
  {
    var names := Names(headers);
    NamesPlain(headers);
    TagsCompact(config, names, time, bodyHash, b);
    TagsDistinct(config, names, time, bodyHash, b);
    UnsignedIsRendered(config, names, time, bodyHash, b);
    TagListRoundTrip(lead, SignatureTags(config, names, time, bodyHash, b));
  }

  lemma NamesOfText(headers: seq<Header>)
    ensures NamesIn(Join(Names(headers), [':'])) == Names(headers)
  {
    NamesPlain(headers);
    FromIsFirst();
    assert "from" in NamesFor("from", LastInstance(headers, "from").Some?);
    assert forall n :: n in Names(headers) ==> ':' !in n;
    SplitJoin(Names(headers), ':');
  }

  lemma SignatureLookups(config: Config, names: seq<Bytes>, time: nat, bodyHash: Octets, b: Bytes)
    ensures var tags := SignatureTags(config, names, time, bodyHash, b);
            && Lookup(tags, "v") == Some("1") && Lookup(tags, "a") == Some("rsa-sha256")
            && Lookup(tags, "c") == Some("relaxed/relaxed")
            && Lookup(tags, "d") == Some(config.domain) && Lookup(tags, "s") == Some(config.selector)
            && Lookup(tags, "t") == Some(Decimal(time)) && Lookup(tags, "h") == Some(Join(names, [':']))
            && Lookup(tags, "bh") == Some(Base64.Encode(bodyHash)) && Lookup(tags, "b") == Some(b)
  {
    var tags := SignatureTags(config, names, time, bodyHash, b);
    TagsDistinct(config, names, time, bodyHash, b);
    LookupFinds(tags, 0);
    LookupFinds(tags, 1);
    LookupFinds(tags, 2);
    LookupFinds(tags, 3);
    LookupFinds(tags, 4);
    LookupFinds(tags, 5);
    LookupFinds(tags, 6);
    LookupFinds(tags, 7);
    LookupFinds(tags, 8);
  }

  lemma ClaimOfTags(field: Bytes, tags: seq<Tag>, d: Bytes, s: Bytes, h: Bytes, bh: Bytes, b: Bytes)
    requires ParseTagList(field) == Some(tags)
    requires Lookup(tags, "v") == Some("1") && Lookup(tags, "a") == Some("rsa-sha256")
    requires Lookup(tags, "c") == Some("relaxed/relaxed")
    requires Lookup(tags, "d") == Some(d) && Lookup(tags, "s") == Some(s) && Lookup(tags, "h") == Some(h)
    requires Lookup(tags, "bh") == Some(bh) && Lookup(tags, "b") == Some(b)
    ensures ReadClaim(field) == Some(Claim(d, s, NamesIn(h), bh, b))
  {
  }

  lemma SignedFieldIs(config: Config, headers: seq<Header>, bodyHash: Octets, time: nat, crypto: Crypto,
                      field: Bytes) returns (signature: Octets)
    requires SignedField(config, headers, bodyHash, time, crypto) == Ok(field)
    ensures |Instances(headers, "from")| == 1
    ensures crypto.sign(config.key, HashInput(config, headers, time, bodyHash)) == Some(signature)
    ensures field == SignedValue(config, headers, time, bodyHash, Base64.Encode(signature))
  {
    signature := crypto.sign(config.key, HashInput(config, headers, time, bodyHash)).value;
  }

  /** What `key` signs is accepted with `public`. */
  ghost predicate KeyPair(crypto: Crypto, key: Bytes, public: Bytes) {
    forall m :: crypto.sign(key, m).Some? ==> crypto.verify(public, m, crypto.sign(key, m).value)
  }

  lemma PairVerifies(crypto: Crypto, key: Bytes, public: Bytes, m: Bytes, signature: Octets)
    requires KeyPair(crypto, key, public) && crypto.sign(key, m) == Some(signature)
    ensures crypto.verify(public, m, signature)
  {
  }

  lemma SignatureText(signature: Octets)
    ensures forall c :: c in Base64.Encode(signature) ==> IsValueByte(c)
    ensures Base64.Decode(Base64.Encode(signature)) == Some(signature)
  {
    Base64.EncodeAlphabet(signature);
    Base64.RoundTrip(signature);
  }

  lemma AcceptedClaim(message: seq<Header>, k: nat, body: Bytes, crypto: Crypto,
                      keyFor: (Bytes, Bytes) -> Bytes, claim: Claim, signature: Octets)
    requires k < |message| && ReadClaim(message[k].value) == Some(claim) && "from" in claim.names
    requires Base64.Decode(claim.bodyHash) == Some(crypto.sha256(RelaxedBody(body)))
    requires Base64.Decode(claim.signature) == Some(signature)
    requires crypto.verify(keyFor(claim.domain, claim.selector), Rebuilt(message, k, claim.names), signature)
    ensures Verifies(message, k, body, crypto, keyFor)
  {
  }

  /** A signed message verifies: whatever signing produced, put at any place in
      the header block, is accepted against the key that belongs to it. */
  lemma SignedMessageVerifies(config: Config, headers: seq<Header>, body: Bytes, time: nat, crypto: Crypto,
                              keyFor: (Bytes, Bytes) -> Bytes, lead: Bytes, k: nat, field: Bytes)
    requires Loaded(config) && AllNamed(headers) && AllLegal(Selected(SIGNED_HEADERS, headers))
    requires SignedField(config, headers, crypto.sha256(RelaxedBody(body)), time, crypto) == Ok(field)
    requires KeyPair(crypto, config.key, keyFor(config.domain, config.selector))
    requires k <= |headers| && LegalLead(lead)
    ensures Verifies(Inserted(headers, k, FieldHeader(lead, field)), k, body, crypto, keyFor)
  {
    var bodyHash := crypto.sha256(RelaxedBody(body));
    var signature := SignedFieldIs(config, headers, bodyHash, time, crypto, field);
    PairVerifies(crypto, config.key, keyFor(config.domain, config.selector),
                 HashInput(config, headers, time, bodyHash), signature);
    FieldAccepted(config, headers, body, time, crypto, keyFor, lead, k, bodyHash, signature, field);
  }

  lemma FieldAccepted(config: Config, headers: seq<Header>, body: Bytes, time: nat, crypto: Crypto,
                      keyFor: (Bytes, Bytes) -> Bytes, lead: Bytes, k: nat, bodyHash: Octets, signature: Octets,
                      value: Bytes)
    requires Loaded(config) && AllNamed(headers) && AllLegal(Selected(SIGNED_HEADERS, headers))
    requires |Instances(headers, "from")| == 1 && k <= |headers| && LegalLead(lead)
    requires bodyHash == crypto.sha256(RelaxedBody(body))
    requires crypto.verify(keyFor(config.domain, config.selector),
                           HashInput(config, headers, time, bodyHash), signature)
    requires value == SignedValue(config, headers, time, bodyHash, Base64.Encode(signature))
    ensures Verifies(Inserted(headers, k, FieldHeader(lead, value)), k, body, crypto, keyFor)
  {
    var b := Base64.Encode(signature);
    SignatureText(signature);
    SignatureText(bodyHash);
    ClaimIsRead(config, headers, time, bodyHash, b, lead);
    RebuiltIsHashed(config, headers, time, bodyHash, b, lead, k);
    NamesStartWithFrom(headers);
    var field := FieldHeader(lead, value);
    var message := Inserted(headers, k, field);
    assert message[k] == field && Names(headers)[0] == "from";
    AcceptedClaim(message, k, body, crypto, keyFor,
                  Claim(config.domain, config.selector, Names(headers), Base64.Encode(bodyHash), b), signature);
  }

  // ----- oversigning -----

  lemma TwoFroms(a: seq<Header>, extra: Header, b: seq<Header>)
    requires Is(extra, "from") && |Instances(a + b, "from")| == 1
    ensures var orig, all := Instances(a + b, "from")[0], Instances(a + [extra] + b, "from");
            all == [extra, orig] || all == [orig, extra]
  {
    InstancesConcat(a, b, "from");
    InstancesConcat(a + [extra], b, "from");
    InstancesConcat(a, [extra], "from");
  }

  lemma OtherInstances(a: seq<Header>, extra: Header, b: seq<Header>, tail: seq<Bytes>)
    requires DistinctPlain(["from"] + tail) && Is(extra, "from")
    ensures SameInstances(tail, a + [extra] + b, a + b)
  {
    var spoiled := a + [extra] + b;
    assert spoiled[|a|] == extra && Remove(spoiled, |a|) == a + b;
    TakenInstances(["from"] + tail, spoiled, |a|);
    assert (["from"] + tail)[1..] == tail;
  }

  lemma {:induction false} NoneAfterLast(message: seq<Header>, name: Bytes)
    requires LastIndex(message, name) >= 0
    ensures Instances(message[LastIndex(message, name) + 1..], name) == []
  {
    var n := |message| - 1;
    var i := LastIndex(message, name);
    if i < n {
      var front, last := message[..n], [message[n]];
      NoneAfterLast(front, name);
      TailOfFront(message, i + 1, n);
      InstancesConcat(front[i + 1..], last, name);
      assert Instances(last, name) == [];
    }
  }

  lemma TailOfFront(message: seq<Header>, i: nat, n: nat)
    requires i <= n == |message| - 1
    ensures message[i..] == message[..n][i..] + [message[n]]
  {
  }

  lemma RemovedLast(message: seq<Header>, i: nat, name: Bytes)
    requires i < |message| && i == LastIndex(message, name)
    ensures Instances(message, name) == Instances(Remove(message, i), name) + [message[i]]
  {
    NoneAfterLast(message, name);
    RemoveInstances(message, i, name);
    InstancesConcat(message[..i], message[i + 1..], name);
  }

  /** Taking From once from a message: its last instance, and what is left. */
  lemma FromTaken(names: seq<Bytes>, tail: seq<Bytes>, message: seq<Header>) returns (left: seq<Header>)
    requires DistinctPlain(["from"] + tail) && Instances(message, "from") != []
    ensures var froms := Instances(message, "from");
            var last := froms[|froms| - 1];
            && Instances(left, "from") == froms[..|froms| - 1]
            && HeadersByName(["from"] + names, message)
               == StandardHeader(last.name, last.value) + HeadersByName(names, left)
    ensures SameInstances(tail, left, message)
  {
    var i := LastIndex(message, "from");
    LastOfInstances(message, "from");
    left := Remove(message, i);
    RemovedLast(message, i, "from");
    PickStep("from", names, message);
    TakenInstances(["from"] + tail, message, i);
    assert (["from"] + tail)[1..] == tail;
  }

  /** What a verifier takes under "from:from" is every From there is, up to two. */
  lemma FromsRead(headers: seq<Header>, tail: seq<Bytes>, message: seq<Header>)
    requires DistinctPlain(["from"] + tail) && SameInstances(tail, headers, message)
    requires 1 <= |Instances(message, "from")| <= 2
    ensures HeadersByName(["from", "from"] + SignedNames(tail, headers), message)
         == ReverseHeaders(Instances(message, "from")) + StandardHeaders(Selected(tail, headers))
  {
    var names := SignedNames(tail, headers);
    var all := ["from"] + (["from"] + names);
    assert ["from", "from"] + names == all;
    var left := FromTaken(["from"] + names, tail, message);
    var rest := left;
    if |Instances(message, "from")| == 2 {
      rest := FromTaken(names, tail, left);
    } else {
      LastOfInstances(left, "from");
      PickStep("from", names, left);
    }
    TailNames(["from"] + tail);
    assert (["from"] + tail)[1..] == tail;
    FromNotInTail(tail);
    PickSelected(tail, headers, rest);
    ReverseTwo(Instances(message, "from"));
  }

  lemma FromNotInTail(tail: seq<Bytes>)
    requires DistinctPlain(["from"] + tail)
    ensures "from" !in tail
  {
    var names := ["from"] + tail;
    forall i | 0 <= i < |tail|
      ensures tail[i] != "from"
    {
      assert names[0] == "from" && names[i + 1] == tail[i];
    }
  }

  function ReverseHeaders(headers: seq<Header>): Bytes {
    if headers == [] then []
    else
      var last := headers[|headers| - 1];
      StandardHeader(last.name, last.value) + ReverseHeaders(headers[..|headers| - 1])
  }

  lemma ReverseTwo(headers: seq<Header>)
    requires 1 <= |headers| <= 2
    ensures |headers| == 1 ==> ReverseHeaders(headers) == Standard(headers[0])
    ensures |headers| == 2 ==> ReverseHeaders(headers) == Standard(headers[1]) + Standard(headers[0])
  {
    ReverseStep(headers);
    if |headers| == 2 {
      ReverseStep(headers[..1]);
    }
  }

  function Standard(h: Header): Bytes { StandardHeader(h.name, h.value) }

  lemma ReverseStep(headers: seq<Header>)
    requires headers != []
    ensures var n := |headers| - 1;
            && ReverseHeaders(headers) == Standard(headers[n]) + ReverseHeaders(headers[..n])
            && (n == 0 ==> ReverseHeaders(headers) == Standard(headers[0]))
  {
    if |headers| == 1 {
      assert Standard(headers[0]) + [] == Standard(headers[0]);
    }
  }

  /** Adding any From field, anywhere, makes a verifier rebuild other bytes than
      it rebuilds without that field. */
  lemma SecondFromBreaks(headers: seq<Header>, k: nat, field: Header, extra: Header,
                         a: seq<Header>, b: seq<Header>, k2: nat)
    requires |Instances(headers, "from")| == 1
    requires k <= |headers| && field.name == "DKIM-Signature" && a + b == Inserted(headers, k, field)
    requires Is(extra, "from") && k2 < |a + [extra] + b| && (a + [extra] + b)[k2] == field
    ensures Rebuilt(a + [extra] + b, k2, Names(headers)) != Rebuilt(a + b, k, Names(headers))
  {
    var message, spoiled, tail := a + b, a + [extra] + b, SIGNED_HEADERS[1..];
    SignedTail();
    NoSignatureNames();
    InsertedInstances(headers, k, field, SIGNED_HEADERS);
    assert SIGNED_HEADERS[0] in SIGNED_HEADERS;
    TwoFroms(a, extra, b);
    OtherInstances(a, extra, b, tail);
    NamesStartWithFrom(headers);
    FromsRead(headers, tail, message);
    FromsRead(headers, tail, spoiled);
    ReverseTwo(Instances(message, "from"));
    ReverseTwo(Instances(spoiled, "from"));
    assert message[k] == field;
  }

  lemma SignedTail()
    ensures SIGNED_HEADERS == ["from"] + SIGNED_HEADERS[1..] && DistinctPlain(["from"] + SIGNED_HEADERS[1..])
    ensures forall n :: n in SIGNED_HEADERS[1..] ==> n in SIGNED_HEADERS
  {
    SignedHeadersPlain();
    SignedHeadersDistinct();
    assert SIGNED_HEADERS == ["from"] + SIGNED_HEADERS[1..];
  }
}
