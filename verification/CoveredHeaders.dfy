/** Which headers a signature covers. */
module CoveredHeaders {
  import opened ByteStrings
  import opened Configs
  import opened EndToEnd
  import opened HeaderCanonicalizers
  import opened SignatureDecoding
  import opened SignatureInput
  import opened SignatureTheorems
  import opened Signers
  import opened TagLists
  import opened Verifiers

  /** The headers whose content a recipient is shown or acts on. */
  predicate IsCovered(name: Bytes) {
    || name == "from" || name == "sender" || name == "reply-to" || name == "subject" || name == "date"
    || name == "message-id" || name == "to" || name == "cc" || name == "mime-version"
    || name == "content-type" || name == "content-transfer-encoding"
    || name == "in-reply-to" || name == "references"
  }

  lemma CoveredAreSigned(name: Bytes)
    requires IsCovered(name)
    ensures name in SIGNED_HEADERS
  {
    assert SIGNED_HEADERS[0] == "from" && SIGNED_HEADERS[1] == "sender" && SIGNED_HEADERS[2] == "reply-to";
    assert SIGNED_HEADERS[3] == "subject" && SIGNED_HEADERS[4] == "date" && SIGNED_HEADERS[5] == "message-id";
    assert SIGNED_HEADERS[6] == "to" && SIGNED_HEADERS[7] == "cc" && SIGNED_HEADERS[8] == "mime-version";
    assert SIGNED_HEADERS[9] == "content-type" && SIGNED_HEADERS[10] == "content-transfer-encoding";
    assert SIGNED_HEADERS[11] == "in-reply-to" && SIGNED_HEADERS[12] == "references";
  }

  lemma SignedAreCovered(name: Bytes)
    requires name in SIGNED_HEADERS
    ensures IsCovered(name)
  {
  }

  lemma {:induction false} NamesHave(names: seq<Bytes>, headers: seq<Header>, n: Bytes)
    ensures n in SignedNames(names, headers)
       <==> n in names && (n == "from" || LastInstance(headers, n).Some?)
  {
    if names != [] {
      NamesHave(names[1..], headers, n);
      var found := LastInstance(headers, names[0]).Some?;
      NameHas(names[0], found, n);
      assert n in names <==> n == names[0] || n in names[1..];
    }
  }

  lemma NameHas(name: Bytes, found: bool, n: Bytes)
    ensures n in NamesFor(name, found) <==> n == name && (found || n == "from")
  {
  }

  lemma {:induction false} InstanceFound(headers: seq<Header>, n: Bytes)
    ensures LastInstance(headers, n).Some? <==> exists h :: h in headers && Is(h, n)
  {
    if headers != [] {
      var k := |headers| - 1;
      InstanceFound(headers[..k], n);
      SplitLast(headers);
      assert forall h :: h in headers <==> h in headers[..k] || h == headers[k];
    }
  }

  /** What a verifier is told to be signed: of the thirteen names those that the
      message has, in any letter case, and From in any event. */
  lemma ClaimCovers(config: Config, headers: seq<Header>, bodyHash: Octets, time: nat, crypto: Crypto,
                    field: Bytes, lead: Bytes, name: Bytes)
    requires Loaded(config) && SignedField(config, headers, bodyHash, time, crypto) == Ok(field) && Blank(lead)
    ensures ReadClaim(lead + field).Some?
    ensures name in ReadClaim(lead + field).value.names
       <==> IsCovered(name) && (name == "from" || exists h :: h in headers && LowerAll(h.name) == LowerAll(name))
  {
    var signature := SignedFieldIs(config, headers, bodyHash, time, crypto, field);
    SignatureText(signature);
    ClaimIsRead(config, headers, time, bodyHash, Base64.Encode(signature), lead);
    NamesHave(SIGNED_HEADERS, headers, name);
    InstanceFound(headers, name);
    if IsCovered(name) {
      CoveredAreSigned(name);
    }
    if name in SIGNED_HEADERS {
      SignedAreCovered(name);
    }
    assert forall h :: Is(h, name) <==> LowerAll(h.name) == LowerAll(name);
  }

  lemma CoveredIsLower(name: Bytes)
    requires name in SIGNED_HEADERS
    ensures LowerAll(name) == name
  {
    SignedHeadersPlain();
    var i :| 0 <= i < |SIGNED_HEADERS| && SIGNED_HEADERS[i] == name;
    PlainLower(name);
  }

  lemma {:induction false} SelectedFor(names: seq<Bytes>, headers: seq<Header>, n: Bytes) returns (i: nat)
    requires n in names && LastInstance(headers, n).Some?
    ensures i < |Selected(names, headers)| && Some(Selected(names, headers)[i]) == LastInstance(headers, n)
  {
    var first := LastInstance(headers, names[0]);
    if n == names[0] {
      i := 0;
    } else {
      var rest := SelectedFor(names[1..], headers, n);
      i := rest + if first.Some? then 1 else 0;
    }
  }

  lemma {:induction false} SelectedIsLast(names: seq<Bytes>, headers: seq<Header>, i: nat)
    requires i < |Selected(names, headers)| && forall n :: n in names ==> LowerAll(n) == n
    ensures LastInstance(headers, LowerAll(Selected(names, headers)[i].name)) == Some(Selected(names, headers)[i])
    ensures LowerAll(Selected(names, headers)[i].name) in names
  {
    var first := LastInstance(headers, names[0]);
    var k := if first.Some? then 1 else 0;
    LastOfInstances(headers, names[0]);
    assert names[0] in names && forall n :: n in names[1..] ==> n in names;
    if i >= k {
      SelectedIsLast(names[1..], headers, i - k);
    }
  }

  /** None of the thirteen headers can be changed, added or removed without changing
      the signed bytes: the last instance of each is signed in its canonical form. */
  lemma CoveredHeaderCannotChange(config: Config, headers: seq<Header>, other: seq<Header>, time: nat,
                                  bodyHash: Octets, name: Bytes)
    requires Loaded(config) && AllNamed(headers) && AllNamed(other) && IsCovered(name)
    requires HashInput(config, headers, time, bodyHash) == HashInput(config, other, time, bodyHash)
    ensures var a, b := LastInstance(headers, name), LastInstance(other, name);
            && (a.Some? <==> b.Some?)
            && (a.Some? ==> Relaxed(a.value.value) == Relaxed(b.value.value))
  {
    SignedBytesDetermineAll(Signed(config, headers, time, bodyHash), Signed(config, other, time, bodyHash));
    CoveredAreSigned(name);
    if LastInstance(headers, name).Some? {
      SameLast(headers, other, name);
    }
    if LastInstance(other, name).Some? {
      SameLast(other, headers, name);
    }
  }

  lemma SameLast(headers: seq<Header>, other: seq<Header>, name: Bytes)
    requires name in SIGNED_HEADERS && LastInstance(headers, name).Some?
    requires var a, b := Selected(SIGNED_HEADERS, headers), Selected(SIGNED_HEADERS, other);
             SameCanonically(a, b) || SameCanonically(b, a)
    ensures LastInstance(other, name).Some?
    ensures Relaxed(LastInstance(headers, name).value.value) == Relaxed(LastInstance(other, name).value.value)
  {
    forall n | n in SIGNED_HEADERS
      ensures LowerAll(n) == n
    {
      CoveredIsLower(n);
    }
    var i := SelectedFor(SIGNED_HEADERS, headers, name);
    LastOfInstances(headers, name);
    SelectedIsLast(SIGNED_HEADERS, other, i);
  }
}
