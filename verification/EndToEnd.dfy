/** What the signer signs is what a verifier rebuilds. */
module EndToEnd {
  import opened ByteStrings
  import opened HeaderCanonicalizers
  import opened Foldings
  import opened TagLists
  import opened Configs
  import opened Signers
  import opened Verifiers
  import Base64

  // ----- the tags -----

  predicate IsPlainName(name: Bytes) {
    name != [] && forall i :: 0 <= i < |name| ==> 'a' <= name[i] <= 'z' || name[i] == '-'
  }

  lemma SignedHeadersPlain()
    ensures forall i :: 0 <= i < |SIGNED_HEADERS| ==> IsPlainName(SIGNED_HEADERS[i])
  {
  }

  lemma SignedHeadersDistinct()
    ensures forall i, j :: 0 <= i < j < |SIGNED_HEADERS| ==> SIGNED_HEADERS[i] != SIGNED_HEADERS[j]
  {
    forall i, j | 0 <= i < j < |SIGNED_HEADERS|
      ensures SIGNED_HEADERS[i] != SIGNED_HEADERS[j]
    {
      assert |SIGNED_HEADERS[i]| != |SIGNED_HEADERS[j]| || SIGNED_HEADERS[i][0] != SIGNED_HEADERS[j][0];
    }
  }

  lemma {:induction false} SignedNamesWithin(names: seq<Bytes>, headers: seq<Header>)
    ensures forall n :: n in SignedNames(names, headers) ==> n in names
  {
    if names != [] {
      SignedNamesWithin(names[1..], headers);
      assert forall n :: n in names[1..] ==> n in names;
    }
  }

  lemma {:induction false} JoinPlain(names: seq<Bytes>)
    requires forall n :: n in names ==> IsPlainName(n)
    ensures forall b :: b in Join(names, [':']) ==> IsValueByte(b)
  {
    if names != [] {
      assert IsPlainName(names[0]) && forall n :: n in names[1..] ==> n in names;
      JoinPlain(names[1..]);
    }
  }

  lemma CompactTag(tag: Tag)
    requires IsPlainName(tag.name) && '-' !in tag.name
    requires forall c :: c in tag.value ==> IsValueByte(c)
    ensures Compact(tag)
  {
  }

  lemma NameTag(name: Bytes, value: Bytes)
    requires IsPlainName(name) && '-' !in name && ValidateDnsName(value) == Some(value)
    ensures Compact(Tag(name, value))
  {
    ValidatedName(value);
    CompactTag(Tag(name, value));
  }

  lemma ConstantTagsCompact()
    ensures Compact(Tag("v", "1"))
    ensures Compact(Tag("a", "rsa-sha256"))
    ensures Compact(Tag("c", "relaxed/relaxed"))
  {
  }

  lemma TagsCompact(config: Config, names: seq<Bytes>, time: nat, bodyHash: Octets, b: Bytes)
    requires Loaded(config) && forall n :: n in names ==> IsPlainName(n)
    requires forall c :: c in b ==> IsValueByte(c)
    ensures AllCompact(SignatureTags(config, names, time, bodyHash, b))
  {
    var tags := SignatureTags(config, names, time, bodyHash, b);
    ConstantTagsCompact();
    NameTag("d", config.domain);
    NameTag("s", config.selector);
    CompactTag(Tag("t", Decimal(time)));
    JoinPlain(names);
    CompactTag(Tag("h", Join(names, [':'])));
    Base64.EncodeAlphabet(bodyHash);
    CompactTag(Tag("bh", Base64.Encode(bodyHash)));
    CompactTag(Tag("b", b));
  }

  lemma TagsDistinct(config: Config, names: seq<Bytes>, time: nat, bodyHash: Octets, b: Bytes)
    ensures DistinctNames(SignatureTags(config, names, time, bodyHash, b))
  {
  }

  lemma EmptiedTags(config: Config, names: seq<Bytes>, time: nat, bodyHash: Octets, b: Bytes)
    ensures EmptiedAll(SignatureTags(config, names, time, bodyHash, b))
         == SignatureTags(config, names, time, bodyHash, [])
  {
    EmptiedAt(SignatureTags(config, names, time, bodyHash, b));
  }

  lemma {:induction false} EmptiedAt(tags: seq<Tag>)
    ensures forall i :: 0 <= i < |tags| ==> EmptiedAll(tags)[i] == Emptied(tags[i])
  {
    if tags != [] {
      EmptiedAt(tags[1..]);
    }
  }

  lemma {:induction false} LookupFinds(tags: seq<Tag>, i: nat)
    requires i < |tags| && DistinctNames(tags)
    ensures Lookup(tags, tags[i].name) == Some(tags[i].value)
  {
    if i > 0 {
      assert tags[0].name != tags[i].name && tags[1..][i - 1] == tags[i];
      LookupFinds(tags[1..], i - 1);
    }
  }

  // ----- header selection -----

  lemma InstancesCons(h: Header, rest: seq<Header>, name: Bytes)
    ensures Instances([h] + rest, name) == (if Is(h, name) then [h] else []) + Instances(rest, name)
  {
    assert ([h] + rest)[1..] == rest;
  }

  lemma {:induction false} InstancesConcat(a: seq<Header>, b: seq<Header>, name: Bytes)
    ensures Instances(a + b, name) == Instances(a, name) + Instances(b, name)
  {
    if a == [] {
      assert a + b == b && [] + Instances(b, name) == Instances(b, name);
    } else {
      var h, rest := a[0], a[1..];
      assert a + b == [h] + (rest + b);
      InstancesCons(h, rest + b, name);
      InstancesConcat(rest, b, name);
      ConcatAssoc(if Is(h, name) then [h] else [], Instances(rest, name), Instances(b, name));
    }
  }

  lemma {:induction false} LastOfInstances(headers: seq<Header>, name: Bytes)
    ensures var all, i := Instances(headers, name), LastIndex(headers, name);
            && (i >= 0 <==> all != [])
            && (i >= 0 ==> headers[i] == all[|all| - 1])
            && LastInstance(headers, name) == if i >= 0 then Some(headers[i]) else None
  {
    if headers != [] {
      var n := |headers| - 1;
      var front, last := headers[..n], [headers[n]];
      assert headers == front + last;
      InstancesConcat(front, last, name);
      LastOfInstances(front, name);
    }
  }

  lemma RemoveInstances(headers: seq<Header>, i: nat, name: Bytes)
    requires i < |headers|
    ensures Instances(headers, name)
         == Instances(headers[..i], name) + Instances([headers[i]], name) + Instances(headers[i + 1..], name)
    ensures !Is(headers[i], name) ==> Instances(Remove(headers, i), name) == Instances(headers, name)
    ensures Is(headers[i], name) ==> |Instances(Remove(headers, i), name)| == |Instances(headers, name)| - 1
  {
    assert headers == headers[..i] + ([headers[i]] + headers[i + 1..]);
    InstancesConcat(headers[..i], [headers[i]] + headers[i + 1..], name);
    InstancesConcat([headers[i]], headers[i + 1..], name);
    InstancesConcat(headers[..i], headers[i + 1..], name);
  }

  lemma PlainLower(name: Bytes)
    requires IsPlainName(name)
    ensures LowerAll(name) == name
  {
  }

  /** The names still to be looked for, in a list of headers of which some may
      have been taken: what is left agrees with the original on those names. */
  ghost predicate SameInstances(names: seq<Bytes>, a: seq<Header>, b: seq<Header>) {
    forall n :: n in names ==> Instances(a, n) == Instances(b, n)
  }

  predicate DistinctPlain(names: seq<Bytes>) {
    && (forall n :: n in names ==> IsPlainName(n))
    && forall i, j :: 0 <= i < j < |names| ==> names[i] != names[j]
  }

  /** The canonical headers by the standard's own form. */
  function StandardHeaders(headers: seq<Header>): Bytes {
    if headers == [] then []
    else StandardHeader(headers[0].name, headers[0].value) + StandardHeaders(headers[1..])
  }

  lemma TakenInstances(names: seq<Bytes>, message: seq<Header>, i: nat)
    requires DistinctPlain(names) && names != [] && i < |message| && Is(message[i], names[0])
    ensures SameInstances(names[1..], Remove(message, i), message)
  {
    forall n | n in names[1..]
      ensures Instances(Remove(message, i), n) == Instances(message, n)
    {
      var j :| 0 <= j < |names[1..]| && names[1..][j] == n;
      assert names[j + 1] == n && names[0] in names && n in names;
      PlainLower(n);
      PlainLower(names[0]);
      RemoveInstances(message, i, n);
    }
  }

  lemma TailNames(names: seq<Bytes>)
    requires DistinctPlain(names) && names != []
    ensures DistinctPlain(names[1..]) && names[0] in names && forall n :: n in names[1..] ==> n in names
  {
    var rest := names[1..];
    assert forall i, j :: 0 <= i < j < |rest| ==> rest[i] == names[i + 1] && rest[j] == names[j + 1];
  }

  lemma SelectedStep(name: Bytes, rest: seq<Bytes>, headers: seq<Header>)
    ensures var last := LastInstance(headers, name);
            && SignedNames([name] + rest, headers) == NamesFor(name, last.Some?) + SignedNames(rest, headers)
            && StandardHeaders(Selected([name] + rest, headers))
               == (if last.Some? then StandardHeader(last.value.name, last.value.value) else [])
                  + StandardHeaders(Selected(rest, headers))
  {
    assert ([name] + rest)[1..] == rest;
    var last, more := LastInstance(headers, name), Selected(rest, headers);
    if last.Some? {
      assert ([last.value] + more)[1..] == more;
    } else {
      assert [] + more == more;
    }
  }

  /** Taking the signed names bottom-up gives the headers the signer selected; the
      extra From finds nothing. */
  lemma {:induction false} PickSelected(names: seq<Bytes>, headers: seq<Header>, message: seq<Header>)
    requires DistinctPlain(names) && SameInstances(names, headers, message)
    requires "from" in names ==> |Instances(headers, "from")| == 1
    ensures HeadersByName(SignedNames(names, headers), message) == StandardHeaders(Selected(names, headers))
  {
    if names != [] {
      var name, rest := names[0], names[1..];
      assert names == [name] + rest;
      TailNames(names);
      SelectedStep(name, rest, headers);
      LastOfInstances(headers, name);
      LastOfInstances(message, name);
      var i := LastIndex(message, name);
      if i < 0 {
        PickSelected(rest, headers, message);
        PickNone(name, SignedNames(rest, headers), message);
      } else {
        TakenInstances(names, message, i);
        PickSelected(rest, headers, Remove(message, i));
        PickOne(name, SignedNames(rest, headers), message);
      }
    }
  }

  lemma PickNone(name: Bytes, rest: seq<Bytes>, message: seq<Header>)
    requires name != "from"
    ensures HeadersByName(NamesFor(name, false) + rest, message) == HeadersByName(rest, message)
  {
    assert NamesFor(name, false) + rest == rest;
  }

  lemma PickStep(name: Bytes, rest: seq<Bytes>, message: seq<Header>)
    ensures HeadersByName([name] + rest, message)
         == (var i := LastIndex(message, name);
             if i < 0 then HeadersByName(rest, message)
             else StandardHeader(message[i].name, message[i].value) + HeadersByName(rest, Remove(message, i)))
  {
    assert ([name] + rest)[1..] == rest;
  }

  lemma PickOne(name: Bytes, rest: seq<Bytes>, message: seq<Header>)
    requires LastIndex(message, name) >= 0
    requires name == "from" ==> |Instances(message, "from")| == 1
    ensures HeadersByName(NamesFor(name, true) + rest, message)
         == (var i := LastIndex(message, name);
             StandardHeader(message[i].name, message[i].value) + HeadersByName(rest, Remove(message, i)))
  {
    NamesForFirst(name, rest);
    if name == "from" {
      PickStep(name, [name] + rest, message);
      PickNoMore(rest, message);
    } else {
      PickStep(name, rest, message);
    }
  }

  lemma NamesForFirst(name: Bytes, rest: seq<Bytes>)
    ensures NamesFor(name, true) + rest == [name] + (if name == "from" then [name] + rest else rest)
  {
  }

  /** The second From is looked for in vain. */
  lemma PickNoMore(rest: seq<Bytes>, message: seq<Header>)
    requires LastIndex(message, "from") >= 0 && |Instances(message, "from")| == 1
    ensures var left := Remove(message, LastIndex(message, "from"));
            HeadersByName(["from"] + rest, left) == HeadersByName(rest, left)
  {
    var i := LastIndex(message, "from");
    var left := Remove(message, i);
    RemoveInstances(message, i, "from");
    LastOfInstances(left, "from");
    PickStep("from", rest, left);
  }

  lemma InsertedInstances(headers: seq<Header>, k: nat, field: Header, names: seq<Bytes>)
    requires k <= |headers| && field.name == "DKIM-Signature"
    requires forall n :: n in names ==> IsPlainName(n) && n != "dkim-signature"
    ensures SameInstances(names, headers, headers[..k] + [field] + headers[k..])
  {
    forall n | n in names
      ensures Instances(headers, n) == Instances(headers[..k] + [field] + headers[k..], n)
    {
      PlainLower(n);
      LowerSignatureName();
      InstancesConcat(headers[..k] + [field], headers[k..], n);
      InstancesConcat(headers[..k], [field], n);
      InstancesConcat(headers[..k], headers[k..], n);
      assert headers[..k] + headers[k..] == headers;
    }
  }

  lemma LowerSignatureName()
    ensures LowerAll("DKIM-Signature") == "dkim-signature"
  {
  }

  // ----- folding, legal and not -----

  lemma {:induction false} LegalAfter(t: Bytes, x: Bytes)
    requires EolFree(t)
    ensures LegallyFolded(t + x) <==> LegallyFolded(x)
  {
    if t == [] {
      assert t + x == x;
    } else {
      assert forall i :: 0 <= i < |t| - 1 ==> t[1..][i] == t[i + 1];
      assert (t + x)[1..] == t[1..] + x;
      LegalAfter(t[1..], x);
    }
  }

  lemma LegalSeparator(sep: Bytes, x: Bytes)
    requires sep == SP || sep == CRLFTAB
    ensures LegallyFolded(sep + x) <==> LegallyFolded(x)
  {
    LegalAfter(SP, x);
    LegalAfter(['\t'], x);
    assert (CRLFTAB + x)[2..] == ['\t'] + x;
  }

  /** Blank text that may stand before the first letter of a field. */
  predicate LegalLead(lead: Bytes) { Blank(lead) && LegallyFolded(lead + ['v']) }

  lemma {:induction false} LegalAfterLead(lead: Bytes, x: Bytes)
    requires LegalLead(lead) && x != [] && !IsFws(x[0])
    ensures LegallyFolded(lead + x) <==> LegallyFolded(x)
    decreases |lead|
  {
    if lead == [] {
      assert lead + x == x;
    } else {
      var step := if lead[0] == '\r' then 2 else 1;
      assert lead[0] == '\r' ==> |lead| >= 3 && (lead + x)[1] == lead[1] && (lead + x)[2] == lead[2];
      assert (lead + ['v'])[step..] == lead[step..] + ['v'];
      assert (lead + x)[step..] == lead[step..] + x;
      LegalAfterLead(lead[step..], x);
    }
  }

  lemma TokensEolFree(tags: seq<Tag>)
    requires AllCompact(tags) && tags != []
    ensures EolFree(Tokens(tags)[0]) && Tokens(tags)[0] != [] && !IsFws(Tokens(tags)[0][0])
  {
    var tag, token := tags[0], Tokens(tags)[0];
    assert Compact(tag);
    forall i | 0 <= i < |token|
      ensures !IsEol(token[i])
    {
      assert i < |tag.name| ==> tag.name[i] in tag.name;
      assert |tag.name| < i < |Text(tag)| ==> token[i] in tag.value;
    }
    assert tag.name[0] in tag.name;
  }

  lemma {:induction false} DeletedIsLegal(tags: seq<Tag>, column: nat)
    requires tags != [] && AllCompact(tags)
    ensures LegallyFolded(DeletedRest(tags, column))
    decreases |tags|
  {
    if |tags| > 1 {
      TokensTail(tags);
      var sep, rest, next := Lead(tags, column), tags[1..], Column(tags, column);
      TokensEolFree(tags);
      DeletedStep(sep, rest, next);
      DeletedIsLegal(rest, next);
      EmptiedCompact(rest);
      TokensEolFree(EmptiedAll(rest));
      LegalAfter(Tokens(EmptiedAll(rest))[0], DeletedRest(rest, next));
      LegalSeparator(sep, Tokens(EmptiedAll(rest))[0] + DeletedRest(rest, next));
    }
  }

  /** The emitted field without its signature is legally folded, so the standard
      and the signer agree on its canonical form. */
  lemma DeletedFieldCanonical(lead: Bytes, tags: seq<Tag>)
    requires LegalLead(lead) && tags != [] && AllCompact(tags)
    ensures StandardRelaxed(DeleteSignature(lead + Fold(Rendered(tags)))) == Relaxed(Rendered(EmptiedAll(tags)))
  {
    DeletionUndoesSigning(lead, tags);
    FoldIsFoldedFrom(tags);
    FoldedFromLead(lead, tags);
    FoldedSplits(lead, tags, 0);
    DeletedStep(lead, tags, 0);
    DeletedIsLegal(tags, 0);
    EmptiedCompact(tags);
    TokensEolFree(EmptiedAll(tags));
    var token := Tokens(EmptiedAll(tags))[0];
    LegalAfter(token, DeletedRest(tags, 0));
    LegalAfterLead(lead, token + DeletedRest(tags, 0));
    RelaxedIsStandard(DeleteSignature(lead + Fold(Rendered(tags))));
  }

  function EolCount(s: Bytes): nat {
    if s == [] then 0 else (if IsEol(s[0]) then 1 else 0) + EolCount(s[1..])
  }

  lemma {:induction false} EolCountConcat(a: Bytes, b: Bytes)
    ensures EolCount(a + b) == EolCount(a) + EolCount(b)
  {
    if a == [] {
      assert a + b == b;
    } else {
      assert (a + b)[1..] == a[1..] + b;
      EolCountConcat(a[1..], b);
    }
  }

  lemma {:induction false} EolCountZero(s: Bytes)
    ensures EolFree(s) <==> EolCount(s) == 0
  {
    if s != [] {
      assert s == [s[0]] + s[1..];
      EolFreeCons(s[0], s[1..]);
      EolCountZero(s[1..]);
    }
  }

  lemma HeaderEols(h: Header, value: Bytes)
    requires IsHeaderName(h.name)
    ensures EolCount(LowerAll(h.name) + [':'] + value + CRLF) == EolCount(value) + 2
  {
    var name := LowerAll(h.name);
    assert forall i :: 0 <= i < |name| ==> h.name[i] in h.name && name[i] == Lower(h.name[i]);
    EolCountZero(name + [':']);
    EolCountConcat(name + [':'], value);
    EolCountConcat(name + [':'] + value, CRLF);
    assert CRLF[1..] == ['\n'];
  }

  predicate AllNamed(headers: seq<Header>) { forall i :: 0 <= i < |headers| ==> IsHeaderName(headers[i].name) }

  predicate AllLegal(headers: seq<Header>) { forall i :: 0 <= i < |headers| ==> LegallyFolded(headers[i].value) }

  lemma {:induction false} LegalHeadersAgree(headers: seq<Header>)
    requires AllNamed(headers)
    ensures EolCount(CanonicalHeaders(headers)) == 2 * |headers|
    ensures AllLegal(headers) ==> StandardHeaders(headers) == CanonicalHeaders(headers)
    ensures EolCount(StandardHeaders(headers)) >= 2 * |headers|
    ensures !AllLegal(headers) ==> EolCount(StandardHeaders(headers)) > 2 * |headers|
  {
    if headers != [] {
      var h, rest := headers[0], headers[1..];
      assert AllNamed(rest);
      LegalHeadersAgree(rest);
      HeaderEolsAgree(h);
      EolCountConcat(RelaxedHeader(h.name, h.value), CanonicalHeaders(rest));
      EolCountConcat(StandardHeader(h.name, h.value), StandardHeaders(rest));
      assert AllLegal(headers) <==> LegallyFolded(h.value) && AllLegal(rest) by {
        assert forall i :: 0 <= i < |rest| ==> rest[i] == headers[i + 1];
      }
    }
  }

  lemma HeaderEolsAgree(h: Header)
    requires IsHeaderName(h.name)
    ensures EolCount(RelaxedHeader(h.name, h.value)) == 2
    ensures EolCount(StandardHeader(h.name, h.value)) >= 2
    ensures LegallyFolded(h.value) ==> StandardHeader(h.name, h.value) == RelaxedHeader(h.name, h.value)
    ensures !LegallyFolded(h.value) ==> EolCount(StandardHeader(h.name, h.value)) > 2
  {
    HeaderEols(h, Relaxed(h.value));
    HeaderEols(h, StandardRelaxed(h.value));
    RelaxedHasNoEol(h.value, false, false);
    EolCountZero(Relaxed(h.value));
    EolCountZero(StandardRelaxed(h.value));
    RelaxedIsStandard(h.value);
    StandardKeepsEol(h.value);
  }
}
