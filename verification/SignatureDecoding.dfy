/** The hash input read back in full: headers, domain, selector, time, names and
    body hash. */
module SignatureDecoding {
  import opened ByteStrings
  import opened HeaderCanonicalizers
  import opened Foldings
  import opened TagLists
  import opened Configs
  import opened Signers
  import opened Verifiers
  import opened EndToEnd
  import opened SignatureTheorems
  import opened SignatureInput
  import Base64

  predicate Unbroken(t: Bytes) { t != [] && forall i :: 0 <= i < |t| ==> !IsFws(t[i]) }

  lemma {:induction false} RelaxUnbroken(t: Bytes, rest: Bytes, started: bool, pending: bool)
    requires Unbroken(t)
    ensures RelaxFrom(t + rest, started, pending)
         == (if pending && started then SP else []) + (t + RelaxFrom(rest, true, false))
    decreases |t|
  {
    var tail, after := t[1..], RelaxFrom(rest, true, false);
    RelaxFromCons(t[0], tail + rest, started, pending);
    ConcatAssoc([t[0]], tail, rest);
    if tail == [] {
      assert tail + rest == rest && tail + after == after;
    } else {
      RelaxUnbroken(tail, rest, true, false);
      assert [] + (tail + after) == tail + after;
    }
    HeadTail(t);
    ConcatAssoc([t[0]], tail, after);
    ConcatAssoc(if pending && started then SP else [], [t[0]], tail + after);
  }

  lemma HeadTail(t: Bytes)
    requires t != []
    ensures t == [t[0]] + t[1..]
  {
  }

  lemma {:induction false} RelaxJoined(tokens: seq<Bytes>)
    requires forall t :: t in tokens ==> Unbroken(t)
    ensures Relaxed(Join(tokens, SP)) == Join(tokens, SP)
    ensures tokens != [] ==> RelaxFrom(Join(tokens, SP), true, true) == SP + Join(tokens, SP)
  {
    if tokens != [] {
      var first, rest := tokens[0], tokens[1..];
      assert first in tokens && forall t :: t in rest ==> t in tokens;
      RelaxJoined(rest);
      var more := if rest == [] then [] else SP + Join(rest, SP);
      if rest != [] {
        assert more[1..] == Join(rest, SP);
        ConcatAssoc(first, SP, Join(rest, SP));
      } else {
        assert first + [] == first;
      }
      assert RelaxFrom(more, true, false) == more;
      RelaxUnbroken(first, more, false, false);
      RelaxUnbroken(first, more, true, true);
      assert [] + (first + more) == first + more;
    }
  }

  lemma {:induction false} TokensUnbroken(tags: seq<Tag>)
    requires AllCompact(tags)
    ensures forall t :: t in Tokens(tags) ==> Unbroken(t)
  {
    if tags != [] {
      TokensTail(tags);
      TokensUnbroken(tags[1..]);
      TextUnbroken(tags[0]);
    }
  }

  lemma TextUnbroken(tag: Tag)
    requires Compact(tag)
    ensures Unbroken(Text(tag)) && Unbroken(Text(tag) + [';'])
  {
    var text := Text(tag);
    forall i | 0 <= i < |text|
      ensures !IsFws(text[i])
    {
      assert i < |tag.name| ==> tag.name[i] in tag.name;
      assert |tag.name| < i ==> text[i] in tag.value;
    }
  }

  /** The field before it is signed is its own canonical form. */
  lemma UnsignedIsCanonical(config: Config, headers: seq<Header>, time: nat, bodyHash: Octets)
    requires Loaded(config)
    ensures var value := UnsignedValue(config, Names(headers), time, bodyHash);
      Relaxed(value) == value == Rendered(SignatureTags(config, Names(headers), time, bodyHash, []))
  {
    var value := UnsignedValue(config, Names(headers), time, bodyHash);
    var tags := SignatureTags(config, Names(headers), time, bodyHash, []);
    NamesPlain(headers);
    TagsCompact(config, Names(headers), time, bodyHash, []);
    UnsignedIsRendered(config, Names(headers), time, bodyHash, []);
    assert value + [] == value;
    TokensUnbroken(tags);
    RelaxJoined(Tokens(tags));
  }

  lemma TagsOfText(config: Config, headers: seq<Header>, time: nat, bodyHash: Octets)
    requires Loaded(config)
    ensures var tags := SignatureTags(config, Names(headers), time, bodyHash, []);
      ParseTagList([] + Fold(Rendered(tags))) == Some(tags)
  {
    NamesPlain(headers);
    TagsCompact(config, Names(headers), time, bodyHash, []);
    TagsDistinct(config, Names(headers), time, bodyHash, []);
    TagListRoundTrip([], SignatureTags(config, Names(headers), time, bodyHash, []));
  }

  /** The fields of a signature that are signed with the headers. */
  datatype Signed = Signed(config: Config, headers: seq<Header>, time: nat, bodyHash: Octets)

  function InputOf(s: Signed): Bytes { HashInput(s.config, s.headers, s.time, s.bodyHash) }

  function TagsOf(s: Signed): seq<Tag> { SignatureTags(s.config, Names(s.headers), s.time, s.bodyHash, []) }

  lemma SameTags(a: Signed, b: Signed)
    requires TagsOf(a) == TagsOf(b)
    ensures a.config.domain == b.config.domain && a.config.selector == b.config.selector
    ensures a.time == b.time && a.bodyHash == b.bodyHash && Names(a.headers) == Names(b.headers)
  {
    SignatureLookups(a.config, Names(a.headers), a.time, a.bodyHash, []);
    SignatureLookups(b.config, Names(b.headers), b.time, b.bodyHash, []);
    DecimalRoundTrip(a.time);
    DecimalRoundTrip(b.time);
    NamesOfText(a.headers);
    NamesOfText(b.headers);
    Base64.RoundTrip(a.bodyHash);
    Base64.RoundTrip(b.bodyHash);
  }

  /** Nothing that is signed can be changed without changing the signed bytes:
      equal hash inputs have the same selected headers up to canonical form, the
      same domain, selector, time, header names and body hash. */
  lemma SignedBytesDetermineAll(a: Signed, b: Signed)
    requires Loaded(a.config) && Loaded(b.config) && AllNamed(a.headers) && AllNamed(b.headers)
    requires InputOf(a) == InputOf(b)
    ensures SameCanonically(Selected(SIGNED_HEADERS, a.headers), Selected(SIGNED_HEADERS, b.headers))
    ensures a.config.domain == b.config.domain && a.config.selector == b.config.selector
    ensures a.time == b.time && a.bodyHash == b.bodyHash && Names(a.headers) == Names(b.headers)
  {
    var v := UnsignedValue(a.config, Names(a.headers), a.time, a.bodyHash);
    var w := UnsignedValue(b.config, Names(b.headers), b.time, b.bodyHash);
    SelectedNamed(SIGNED_HEADERS, a.headers);
    SelectedNamed(SIGNED_HEADERS, b.headers);
    InputDetermines(Selected(SIGNED_HEADERS, a.headers), v, Selected(SIGNED_HEADERS, b.headers), w);
    UnsignedIsCanonical(a.config, a.headers, a.time, a.bodyHash);
    UnsignedIsCanonical(b.config, b.headers, b.time, b.bodyHash);
    TagsOfText(a.config, a.headers, a.time, a.bodyHash);
    TagsOfText(b.config, b.headers, b.time, b.bodyHash);
    SameTags(a, b);
  }
}
