/** The signed bytes determine what was signed, and the emitted field fits mail. */
module SignatureInput {
  import opened ByteStrings
  import opened HeaderCanonicalizers
  import opened Foldings
  import opened TagLists
  import opened Configs
  import opened Signers
  import opened Verifiers
  import opened RelaxedBodies
  import opened EndToEnd
  import opened SignatureTheorems
  import Base64

  // ----- reading the hash input back -----

  /** A header as it is hashed, without its line end. */
  function HeaderLine(h: Header): Bytes { LowerAll(h.name) + [':'] + Relaxed(h.value) }

  function HeaderLines(headers: seq<Header>): seq<Bytes> {
    if headers == [] then [] else [HeaderLine(headers[0])] + HeaderLines(headers[1..])
  }

  lemma LineEolFree(name: Bytes, value: Bytes)
    requires IsHeaderName(name)
    ensures EolFree(LowerAll(name) + [':'] + Relaxed(value))
  {
    RelaxedHasNoEol(value, false, false);
    forall i | 0 <= i < |name|
      ensures !IsEol(LowerAll(name)[i])
    {
      assert name[i] in name;
    }
  }

  lemma {:induction false} InputSplits(headers: seq<Header>, value: Bytes)
    requires AllNamed(headers)
    ensures SplitLines(CanonicalHeaders(headers) + CanonicalSignature(value))
         == HeaderLines(headers) + [CanonicalSignature(value)]
  {
    var last := CanonicalSignature(value);
    if headers == [] {
      LineEolFree("DKIM-Signature", value);
      SingleLine(last);
      assert CanonicalHeaders(headers) + last == last;
    } else {
      var h, rest := headers[0], CanonicalHeaders(headers[1..]);
      InputSplits(headers[1..], value);
      LineEolFree(h.name, h.value);
      SplitLineCrlf(HeaderLine(h), rest + last);
      assert CanonicalHeaders(headers) + last == HeaderLine(h) + CRLF + (rest + last);
    }
  }

  lemma HeaderLineSplits(a: Header, b: Header)
    requires IsHeaderName(a.name) && IsHeaderName(b.name) && HeaderLine(a) == HeaderLine(b)
    ensures LowerAll(a.name) == LowerAll(b.name) && Relaxed(a.value) == Relaxed(b.value)
  {
    NoColon(a.name);
    NoColon(b.name);
    FindIn(LowerAll(a.name), ':', Relaxed(a.value));
    FindIn(LowerAll(b.name), ':', Relaxed(b.value));
    var n := |a.name|;
    assert LowerAll(a.name) == HeaderLine(a)[..n] && Relaxed(a.value) == HeaderLine(a)[n + 1..];
    assert LowerAll(b.name) == HeaderLine(b)[..n] && Relaxed(b.value) == HeaderLine(b)[n + 1..];
  }

  lemma NoColon(name: Bytes)
    requires IsHeaderName(name)
    ensures ':' !in LowerAll(name)
  {
    forall i | 0 <= i < |name|
      ensures LowerAll(name)[i] != ':'
    {
      assert name[i] in name;
    }
  }

  predicate SameCanonically(a: seq<Header>, b: seq<Header>) {
    && |a| == |b|
    && forall i :: 0 <= i < |a| ==> LowerAll(a[i].name) == LowerAll(b[i].name)
                                    && Relaxed(a[i].value) == Relaxed(b[i].value)
  }

  lemma {:induction false} LinesDetermine(a: seq<Header>, b: seq<Header>)
    requires AllNamed(a) && AllNamed(b) && HeaderLines(a) == HeaderLines(b)
    ensures SameCanonically(a, b)
    decreases |a|
  {
    if a != [] && b != [] {
      assert HeaderLines(a)[1..] == HeaderLines(a[1..]) && HeaderLines(b)[1..] == HeaderLines(b[1..]);
      LinesDetermine(a[1..], b[1..]);
      assert HeaderLines(a)[0] == HeaderLines(b)[0];
      HeaderLineSplits(a[0], b[0]);
      assert forall i :: 1 <= i < |a| ==> a[i] == a[1..][i - 1] && b[i] == b[1..][i - 1];
    }
  }

  /** Equal hash inputs come from headers of the same canonical names and values,
      in the same order, and from the same signature field. */
  lemma InputDetermines(a: seq<Header>, v: Bytes, b: seq<Header>, w: Bytes)
    requires AllNamed(a) && AllNamed(b)
    requires CanonicalHeaders(a) + CanonicalSignature(v) == CanonicalHeaders(b) + CanonicalSignature(w)
    ensures SameCanonically(a, b) && Relaxed(v) == Relaxed(w)
  {
    InputSplits(a, v);
    InputSplits(b, w);
    var lines := SplitLines(CanonicalHeaders(a) + CanonicalSignature(v));
    var n := |lines| - 1;
    assert HeaderLines(a) == lines[..n] && HeaderLines(b) == lines[..n];
    assert CanonicalSignature(v) == lines[n] && CanonicalSignature(w) == lines[n];
    LinesDetermine(a, b);
    var p := |LowerAll("DKIM-Signature") + [':']|;
    assert Relaxed(v) == lines[n][p..] && Relaxed(w) == lines[n][p..];
  }

  // ----- line lengths -----

  const LINE_LIMIT: nat := 998

  function Pow10(k: nat): nat { if k == 0 then 1 else 10 * Pow10(k - 1) }

  lemma {:induction false} DecimalLength(n: nat, k: nat)
    requires k >= 1 && n < Pow10(k)
    ensures |Decimal(n)| <= k
    decreases k
  {
    if n >= 10 {
      assert Pow10(1) == 10;
      DecimalLength(n / 10, k - 1);
    }
  }

  lemma {:induction false} NamesLength(names: seq<Bytes>, headers: seq<Header>)
    requires forall n :: n in names ==> 4 <= |n| <= 25 || |n| == 2
    ensures |Join(SignedNames(names, headers), [':'])| <= 31 * |names|
  {
    if names != [] {
      var more := SignedNames(names[1..], headers);
      var here := NamesFor(names[0], LastInstance(headers, names[0]).Some?);
      assert names[0] in names && forall n :: n in names[1..] ==> n in names;
      NamesLength(names[1..], headers);
      JoinLength(here, more);
      JoinLength(here[..if here == [] then 0 else 1], here[if here == [] then 0 else 1..]);
    }
  }

  lemma {:induction false} JoinLength(a: seq<Bytes>, b: seq<Bytes>)
    ensures |Join(a + b, [':'])| <= |Join(a, [':'])| + 1 + |Join(b, [':'])|
  {
    if a == [] {
      assert a + b == b;
    } else if |a| == 1 {
      assert (a + b)[1..] == b;
    } else {
      JoinLength(a[1..], b);
      assert (a + b)[1..] == a[1..] + b;
    }
  }

  lemma SignedNamesShort(headers: seq<Header>)
    ensures |Join(Names(headers), [':'])| <= 403
  {
    assert forall i :: 0 <= i < |SIGNED_HEADERS| ==> 4 <= |SIGNED_HEADERS[i]| <= 25 || |SIGNED_HEADERS[i]| == 2;
    NamesLength(SIGNED_HEADERS, headers);
  }

  lemma TimeShort(time: nat)
    requires time <= USIZE_MAX
    ensures |Decimal(time)| <= 20
  {
    assert Pow10(5) == 100_000;
    assert Pow10(10) == 10_000_000_000;
    assert Pow10(15) == 1_000_000_000_000_000;
    assert Pow10(20) == 100_000_000_000_000_000_000;
    DecimalLength(time, 20);
  }

  lemma NamesShort(config: Config)
    requires Loaded(config)
    ensures |config.domain| <= 253 && |config.selector| <= 253
  {
    ValidatedName(config.domain);
    ValidatedName(config.selector);
  }

  predicate Short(tag: Tag) { |tag.name| <= 2 && |tag.value| <= 684 }

  lemma TagValuesShort(config: Config, headers: seq<Header>, time: nat, bodyHash: Octets, b: Bytes)
    requires |config.domain| <= 253 && |config.selector| <= 253 && |b| <= 684
    requires time <= USIZE_MAX && |Base64.Encode(bodyHash)| <= 44
    ensures var tags := SignatureTags(config, Names(headers), time, bodyHash, b);
            forall i :: 0 <= i < |tags| ==> Short(tags[i])
  {
    SignedNamesShort(headers);
    TimeShort(time);
  }

  lemma {:induction false} TokensShort(tags: seq<Tag>)
    requires forall i :: 0 <= i < |tags| ==> Short(tags[i])
    ensures forall t :: t in Tokens(tags) ==> |t| <= 688
  {
    if tags != [] {
      TokensShort(tags[1..]);
    }
  }

  lemma {:induction false} FirstLine(prefix: Bytes, s: Bytes)
    requires EolFree(prefix)
    ensures SplitLines(prefix + s) == [prefix + SplitLines(s)[0]] + SplitLines(s)[1..]
    decreases |prefix|
  {
    var lines := SplitLines(s);
    if prefix == [] {
      assert prefix + s == s && prefix + lines[0] == lines[0] && lines == [lines[0]] + lines[1..];
    } else {
      assert (prefix + s)[1..] == prefix[1..] + s;
      assert forall i :: 0 <= i < |prefix| - 1 ==> prefix[1..][i] == prefix[i + 1];
      FirstLine(prefix[1..], s);
      assert [prefix[0]] + (prefix[1..] + lines[0]) == prefix + lines[0];
    }
  }

  lemma FieldEolFree(config: Config, headers: seq<Header>, time: nat, bodyHash: Octets, b: Bytes)
    requires Loaded(config) && forall c :: c in b ==> IsValueByte(c)
    ensures var tags := SignatureTags(config, Names(headers), time, bodyHash, b);
            Split(Rendered(tags), ' ') == Tokens(tags) && EolFree(Rendered(tags))
  {
    var tags := SignatureTags(config, Names(headers), time, bodyHash, b);
    NamesPlain(headers);
    TagsCompact(config, Names(headers), time, bodyHash, b);
    TokensNotEmpty(tags);
    SplitJoin(Tokens(tags), ' ');
    AllTokensEolFree(tags);
    JoinEolFree(Tokens(tags));
  }

  lemma {:induction false} AllTokensEolFree(tags: seq<Tag>)
    requires AllCompact(tags)
    ensures forall t :: t in Tokens(tags) ==> EolFree(t)
  {
    if tags != [] {
      TokensEolFree(tags);
      TokensTail(tags);
      AllTokensEolFree(tags[1..]);
    }
  }

  lemma {:induction false} JoinEolFree(tokens: seq<Bytes>)
    requires forall t :: t in tokens ==> EolFree(t)
    ensures EolFree(Join(tokens, SP))
  {
    if tokens != [] {
      assert tokens[0] in tokens && forall t :: t in tokens[1..] ==> t in tokens;
      JoinEolFree(tokens[1..]);
    }
  }

  predicate LinesWithin(text: Bytes, n: nat) { forall l :: l in SplitLines(text) ==> |l| <= n }

  lemma FitLinesShort(lines: seq<Bytes>, tokens: seq<Bytes>, n: nat)
    requires AllFit(lines, tokens) && n >= LIMIT && forall t :: t in tokens ==> |t| <= n
    ensures forall l :: l in lines ==> |l| <= n + 1
  {
    forall l | l in lines
      ensures |l| <= n + 1
    {
      assert FitsOrSingle(l, tokens);
    }
  }

  lemma FieldLinesShort(tags: seq<Tag>)
    requires forall i :: 0 <= i < |tags| ==> Short(tags[i])
    requires Split(Rendered(tags), ' ') == Tokens(tags) && EolFree(Rendered(tags))
    ensures LinesWithin(Fold(Rendered(tags)), 689)
  {
    TokensShort(tags);
    FoldedLinesFit(Rendered(tags));
    FitLinesShort(SplitLines(Fold(Rendered(tags))), Tokens(tags), 688);
  }

  lemma PrefixedLines(prefix: Bytes, s: Bytes, bound: nat)
    requires EolFree(prefix) && LinesWithin(s, bound)
    ensures LinesWithin(prefix + s, |prefix| + bound)
  {
    FirstLine(prefix, s);
    var lines := SplitLines(s);
    assert lines[0] in lines && forall l :: l in lines[1..] ==> l in lines;
  }

  lemma SignedValueLines(config: Config, headers: seq<Header>, time: nat, bodyHash: Octets, b: Bytes)
    requires Loaded(config) && (forall c :: c in b ==> IsValueByte(c)) && |b| <= 684
    requires time <= USIZE_MAX && |Base64.Encode(bodyHash)| <= 44
    ensures LinesWithin(SignedValue(config, headers, time, bodyHash, b), 689)
  {
    UnsignedIsRendered(config, Names(headers), time, bodyHash, b);
    FieldEolFree(config, headers, time, bodyHash, b);
    NamesShort(config);
    TagValuesShort(config, headers, time, bodyHash, b);
    FieldLinesShort(SignatureTags(config, Names(headers), time, bodyHash, b));
  }

  lemma {:induction false} EncodeAtMost(s: Octets, quanta: nat)
    requires |s| <= 3 * quanta
    ensures |Base64.Encode(s)| <= 4 * quanta
    decreases quanta
  {
    if s != [] {
      EncodeAtMost(if |s| <= 3 then [] else s[3..], quanta - 1);
    }
  }

  lemma EmittedPrefix(field: Bytes)
    requires LinesWithin(field, 689)
    ensures LinesWithin("DKIM-Signature: " + field, LINE_LIMIT)
  {
    PrefixedLines("DKIM-Signature: ", field, 689);
  }

  /** With keys of at most 4096 bits every line of the emitted header field stays
      within the limit of section 2.1.1 of RFC 5322. */
  lemma EmittedLinesFit(config: Config, headers: seq<Header>, time: nat, bodyHash: Octets, signature: Octets)
    requires Loaded(config) && time <= USIZE_MAX && |bodyHash| == 32 && |signature| <= 512
    ensures var field := SignedValue(config, headers, time, bodyHash, Base64.Encode(signature));
            LinesWithin("DKIM-Signature: " + field, LINE_LIMIT)
  {
    var b := Base64.Encode(signature);
    SignatureText(signature);
    EncodeAtMost(bodyHash, 11);
    EncodeAtMost(signature, 171);
    SignedValueLines(config, headers, time, bodyHash, b);
    EmittedPrefix(SignedValue(config, headers, time, bodyHash, b));
  }
}
