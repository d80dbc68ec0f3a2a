/** The From fields that give a domain, exactly. */
module FromFields {
  import opened ByteStrings
  import opened HeaderCanonicalizers
  import opened Mailboxes
  import opened MailboxProperties
  import opened MailboxGrammar
  import opened MailboxExact

  // ----- the grammar -----

  predicate AllSpace(s: Bytes) { SpaceRange(s, 0, |s|) }

  /** Letters, digits, hyphens and dots, the last not a dot. */
  predicate HostName(s: Bytes) {
    s != [] && s[|s| - 1] != '.' && forall i :: 0 <= i < |s| ==> IsHostByte(s[i])
  }

  /** A local part and a host with whitespace around each, and dots after the host. */
  datatype Address = Address(
    lead: Bytes, local: Local, before: Bytes,
    after: Bytes, host: Bytes, dots: nat, trail: Bytes)

  predicate ValidAddress(a: Address) {
    && AllSpace(a.lead) && ValidLocal(a.local) && AllSpace(a.before)
    && AllSpace(a.after) && HostName(a.host) && AllSpace(a.trail)
  }

  function LeftOf(a: Address): Bytes { a.lead + LocalBytes(a.local) + a.before }

  function HostOf(a: Address): Bytes { a.host + Repeat(['.'], a.dots) }

  function RightOf(a: Address): Bytes { a.after + HostOf(a) + a.trail }

  function AddressBytes(a: Address): Bytes { LeftOf(a) + ['@'] + RightOf(a) }

  /** An address alone, or in brackets after a display phrase. */
  datatype Mailbox = Alone(address: Address) | Named(name: Words, address: Address, trail: Bytes)

  predicate ValidMailbox(m: Mailbox) {
    ValidAddress(m.address) && (m.Named? ==> ValidWords(m.name) && AllSpace(m.trail))
  }

  function MailboxBytes(m: Mailbox): Bytes {
    match m
    case Alone(a) => AddressBytes(a)
    case Named(name, a, trail) => WordsBytes(name) + ['<'] + AddressBytes(a) + ['>'] + trail
  }

  // ----- text in which a scan meets no structure -----

  predicate Marks(b: Byte) { b == '(' || b == ')' || b == '<' || b == '>' || b == '@' || IsListByte(b) }

  predicate Passes(s: Bytes, q: Quote)
    decreases |s|
  {
    if s == [] then q == CLOSED
    else (q == CLOSED ==> !Marks(s[0])) && Passes(s[1..], QuoteStep(q, s[0]))
  }

  lemma PassesCons(b: Byte, rest: Bytes, q: Quote)
    ensures Passes([b] + rest, q) <==> (q == CLOSED ==> !Marks(b)) && Passes(rest, QuoteStep(q, b))
  {
    assert ([b] + rest)[1..] == rest;
  }

  lemma {:induction false} PassesConcat(a: Bytes, b: Bytes, q: Quote)
    requires Passes(a, q) && Passes(b, CLOSED)
    ensures Passes(a + b, q)
    decreases |a|
  {
    if a == [] {
      assert a + b == b;
    } else {
      PassesConcat(a[1..], b, QuoteStep(q, a[0]));
      assert (a + b)[1..] == a[1..] + b;
    }
  }

  lemma {:induction false} CharsPass(cs: Chars)
    requires ValidChars(cs)
    ensures Passes(CharsBytes(cs) + ['"'], INNER)
    decreases cs
  {
    match cs
    case NoChars =>
      PassesCons('"', [], INNER);
      assert ['"'] + [] == ['"'] && [] + ['"'] == ['"'];
    case Char(b, rest) =>
      CharsPass(rest);
      PassesCons(b, CharsBytes(rest) + ['"'], INNER);
      ConcatAssoc([b], CharsBytes(rest), ['"']);
    case Escaped(b, rest) =>
      CharsPass(rest);
      PassesCons(b, CharsBytes(rest) + ['"'], Quote(true, true));
      PassesCons('\\', [b] + (CharsBytes(rest) + ['"']), INNER);
      assert ['\\', b] + CharsBytes(rest) + ['"'] == ['\\'] + ([b] + (CharsBytes(rest) + ['"']));
  }

  lemma QuotesPass(cs: Chars)
    requires ValidChars(cs)
    ensures Passes(InQuotes(cs), CLOSED)
  {
    CharsPass(cs);
    PassesCons('"', CharsBytes(cs) + ['"'], CLOSED);
    ConcatAssoc(['"'], CharsBytes(cs), ['"']);
  }

  lemma {:induction false} ShownAreValid(cs: Chars)
    requires ShownChars(cs) || LocalChars(cs)
    ensures ValidChars(cs)
    decreases cs
  {
    match cs
    case NoChars =>
    case Char(_, rest) => ShownAreValid(rest);
    case Escaped(_, rest) => ShownAreValid(rest);
  }

  predicate Quiet(s: Bytes) { forall i :: 0 <= i < |s| ==> !Marks(s[i]) && s[i] != '"' }

  lemma {:induction false} QuietPasses(s: Bytes)
    requires Quiet(s)
    ensures Passes(s, CLOSED)
    decreases |s|
  {
    if s != [] {
      QuietPasses(s[1..]);
    }
  }

  lemma SpacePasses(s: Bytes)
    requires AllSpace(s)
    ensures Passes(s, CLOSED)
  {
    RangeIsBlank(s, 0, |s|);
    QuietPasses(s);
  }

  lemma {:induction false} WordsPass(words: Words)
    requires ValidWords(words)
    ensures Passes(WordsBytes(words), CLOSED)
    decreases words
  {
    match words
    case NoWords =>
    case WordByte(b, rest) =>
      WordsPass(rest);
      WordByteIsQuiet(b);
      PassesCons(b, WordsBytes(rest), CLOSED);
    case WordQuoted(cs, rest) =>
      WordsPass(rest);
      ShownAreValid(cs);
      QuotesPass(cs);
      PassesConcat(InQuotes(cs), WordsBytes(rest), CLOSED);
  }

  lemma WordByteIsQuiet(b: Byte)
    requires IsAtomByte(b) || b == '.' || IsAsciiSpace(b) || !IsAscii(b)
    ensures !Marks(b) && b != '"'
  {
  }

  lemma AtomsAreFirm(s: Bytes)
    requires DotAtom(s)
    ensures Quiet(s) && Firm(s[0]) && Firm(s[|s| - 1])
  {
    forall i | 0 <= i < |s|
      ensures !Marks(s[i]) && s[i] != '"' && Firm(s[i])
    {
      AtomByteIsFirm(s[i]);
    }
  }

  lemma AtomByteIsFirm(b: Byte)
    requires IsAtomByte(b) || b == '.'
    ensures !Marks(b) && b != '"' && Firm(b)
  {
  }

  lemma LocalPasses(l: Local)
    requires ValidLocal(l)
    ensures var s := LocalBytes(l); Passes(s, CLOSED) && s != [] && Firm(s[0]) && Firm(s[|s| - 1])
  {
    match l
    case Atoms(text) =>
      AtomsAreFirm(text);
      QuietPasses(text);
    case QuotedLocal(cs) =>
      ShownAreValid(cs);
      QuotesPass(cs);
  }

  lemma {:induction false} DotsAre(n: nat)
    ensures var s := Repeat(['.'], n); |s| == n && forall i :: 0 <= i < n ==> s[i] == '.'
  {
    if n > 0 {
      DotsAre(n - 1);
    }
  }

  lemma HostIsFirm(host: Bytes, dots: nat)
    requires HostName(host)
    ensures var s := host + Repeat(['.'], dots);
            && Quiet(s) && s != [] && Firm(s[0]) && Firm(s[|s| - 1]) && TrimDots(s) == host
  {
    DotsAre(dots);
    var s := host + Repeat(['.'], dots);
    TrimDotsStops(s, |host|);
    assert s[..|host|] == host;
  }

  lemma SidesPass(a: Address)
    requires ValidAddress(a)
    ensures Passes(LeftOf(a), CLOSED) && Passes(RightOf(a), CLOSED)
  {
    SpacePasses(a.lead);
    LocalPasses(a.local);
    SpacePasses(a.before);
    PassesConcat(a.lead, LocalBytes(a.local), CLOSED);
    PassesConcat(a.lead + LocalBytes(a.local), a.before, CLOSED);
    SpacePasses(a.after);
    HostIsFirm(a.host, a.dots);
    QuietPasses(HostOf(a));
    SpacePasses(a.trail);
    PassesConcat(a.after, HostOf(a), CLOSED);
    PassesConcat(a.after + HostOf(a), a.trail, CLOSED);
  }

  /** `w` stands at `i` in `text`. */
  predicate StandsAt(text: Bytes, i: nat, w: Bytes)
    decreases |w|
  {
    i + |w| <= |text| && (w == [] || (text[i] == w[0] && StandsAt(text, i + 1, w[1..])))
  }

  lemma {:induction false} StandsBetween(a: Bytes, w: Bytes, b: Bytes, text: Bytes)
    requires text == a + w + b
    ensures StandsAt(text, |a|, w)
    decreases |w|
  {
    if w != [] {
      MoveOne(a, w, b);
      StandsBetween(a + [w[0]], w[1..], b, text);
    }
  }

  lemma MoveOne(a: Bytes, w: Bytes, b: Bytes)
    requires w != []
    ensures a + w + b == (a + [w[0]]) + w[1..] + b && (a + w + b)[|a|] == w[0]
  {
    assert w == [w[0]] + w[1..];
  }

  /** Neither brackets nor lists outside quotes; at-signs do not matter here. */
  predicate Flat(s: Bytes, q: Quote)
    decreases |s|
  {
    if s == [] then q == CLOSED
    else
      && (q == CLOSED ==> s[0] != '<' && s[0] != '>' && !IsListByte(s[0]))
      && Flat(s[1..], QuoteStep(q, s[0]))
  }

  lemma {:induction false} PassesIsFlat(s: Bytes, q: Quote)
    requires Passes(s, q)
    ensures Flat(s, q)
    decreases |s|
  {
    if s != [] {
      PassesIsFlat(s[1..], QuoteStep(q, s[0]));
    }
  }

  lemma {:induction false} FlatConcat(a: Bytes, b: Bytes, q: Quote)
    requires Flat(a, q) && Flat(b, CLOSED)
    ensures Flat(a + b, q)
    decreases |a|
  {
    if a == [] {
      assert a + b == b;
    } else {
      FlatConcat(a[1..], b, QuoteStep(q, a[0]));
      assert (a + b)[1..] == a[1..] + b;
    }
  }

  lemma AddressIsFlat(left: Bytes, right: Bytes)
    requires Passes(left, CLOSED) && Passes(right, CLOSED)
    ensures Flat(left + ['@'] + right, CLOSED)
  {
    PassesIsFlat(left, CLOSED);
    PassesIsFlat(right, CLOSED);
    assert ['@'][1..] == [];
    FlatConcat(left, ['@'], CLOSED);
    FlatConcat(left + ['@'], right, CLOSED);
  }

  lemma AnglesPassOne(text: Bytes, i: nat, q: Quote, a: Angles)
    requires i < |text| && a.InOrder(i) && WellQuoted(q)
    requires q == CLOSED ==> text[i] != '<' && text[i] != '>' && !IsListByte(text[i])
    ensures a.InOrder(i + 1) && WellQuoted(QuoteStep(q, text[i]))
    ensures AnglesFrom(text, i, q, a) == AnglesFrom(text, i + 1, QuoteStep(q, text[i]), a)
  {
  }

  lemma {:induction false} AnglesPass(text: Bytes, i: nat, q: Quote, a: Angles, s: Bytes)
    requires a.InOrder(i) && WellQuoted(q) && Flat(s, q) && StandsAt(text, i, s)
    ensures a.InOrder(i + |s|) && AnglesFrom(text, i, q, a) == AnglesFrom(text, i + |s|, CLOSED, a)
    decreases |s|
  {
    if s != [] {
      AnglesPassOne(text, i, q, a);
      AnglesPass(text, i + 1, QuoteStep(q, s[0]), a, s[1..]);
    }
  }

  lemma {:induction false} SeparatorPass(text: Bytes, i: nat, q: Quote, s: Bytes, found: Separator)
    requires WellQuoted(q) && Passes(s, q) && StandsAt(text, i, s) && (found.At? ==> found.index < i)
    ensures SeparatorFrom(text, i, q, found) == SeparatorFrom(text, i + |s|, CLOSED, found)
    decreases |s|
  {
    if s != [] {
      SeparatorPass(text, i + 1, QuoteStep(q, s[0]), s[1..], found);
    }
  }

  // ----- trimming -----

  lemma TrimAround(a: Bytes, c: Bytes, b: Bytes)
    requires AllSpace(a) && AllSpace(b) && c != [] && Firm(c[0]) && Firm(c[|c| - 1])
    ensures Trim(a + c + b) == c
  {
    var t, n := a + c + b, |a| + |c|;
    RangeMoves(a, 0, |a|, t, 0);
    RangeMoves(b, 0, |b|, t, n);
    var text := TrimStops(t, |a|, n);
  }

  lemma {:induction false} SpaceIsTrimmed(s: Bytes, i: nat)
    requires SpaceRange(s, i, |s|)
    ensures TrimLowFrom(s, i) == |s|
    decreases |s| - i
  {
    if i < |s| {
      SpaceIsTrimmed(s, i + SpaceAt(s, i, |s|));
    }
  }

  lemma NothingIsLeft(s: Bytes)
    ensures |Trim(s)| == 0 <==> AllSpace(s)
  {
    if AllSpace(s) {
      SpaceIsTrimmed(s, 0);
    }
    if |Trim(s)| == 0 {
      TrimmedEnds(s);
      RangesJoin(s, 0, TrimLow(s), |s|);
    }
  }

  /** A text in three parts: whitespace, what trimming leaves, whitespace. */
  lemma TrimmedParts(s: Bytes) returns (lead: Bytes, core: Bytes, trail: Bytes)
    ensures s == lead + core + trail && core == Trim(s) && AllSpace(lead) && AllSpace(trail)
  {
    var low, high := TrimLow(s), TrimEndIndex(s);
    TrimmedEnds(s);
    lead, core, trail := s[..low], s[low..high], s[high..];
    EndsAreSpace(s, low, high, lead, trail);
  }

  lemma EndsAreSpace(s: Bytes, low: nat, high: nat, lead: Bytes, trail: Bytes)
    requires low <= high <= |s| && SpaceRange(s, 0, low) && SpaceRange(s, high, |s|)
    requires lead == s[..low] && trail == s[high..]
    ensures AllSpace(lead) && AllSpace(trail)
  {
    RangeMoves(s, 0, low, lead, 0);
    RangeShifts(s, high, |s|, trail, high);
  }

  lemma SpacesJoin(a: Bytes, b: Bytes)
    requires AllSpace(a) && AllSpace(b)
    ensures AllSpace(a + b)
  {
    SpacesMeet(a, b, a + b);
  }

  lemma SpacesMeet(a: Bytes, b: Bytes, t: Bytes)
    requires AllSpace(a) && AllSpace(b) && |t| == |a| + |b|
    requires (forall k :: 0 <= k < |a| ==> a[k] == t[k]) && forall k :: 0 <= k < |b| ==> b[k] == t[|a| + k]
    ensures AllSpace(t)
  {
    RangeMoves(a, 0, |a|, t, 0);
    RangeMoves(b, 0, |b|, t, |a|);
    RangesJoin(t, 0, |a|, |t|);
  }

  // ----- addresses -----

  lemma AroundAt(s: Bytes, left: Bytes, right: Bytes)
    requires s == left + ['@'] + right
    ensures |s| == |left| + 1 + |right| && s[|left|] == '@'
    ensures StandsAt(s, 0, left) && StandsAt(s, |left| + 1, right)
    ensures s[..|left|] == left && s[|left| + 1..] == right
  {
    assert s == [] + left + (['@'] + right) && s == (left + ['@']) + right + [];
    StandsBetween([], left, ['@'] + right, s);
    StandsBetween(left + ['@'], right, [], s);
  }

  lemma SeparatorOf(s: Bytes, left: Bytes, right: Bytes)
    requires |s| == |left| + 1 + |right| && s[|left|] == '@'
    requires StandsAt(s, 0, left) && StandsAt(s, |left| + 1, right)
    requires Passes(left, CLOSED) && Passes(right, CLOSED)
    ensures SeparatorFrom(s, 0, CLOSED, Unseen) == Some(At(|left|))
  {
    SeparatorPass(s, 0, CLOSED, left, Unseen);
    SeparatorPass(s, |left| + 1, CLOSED, right, At(|left|));
    SeparatorAtOnce(s, |left|);
  }

  lemma SeparatorAtOnce(s: Bytes, n: nat)
    requires n < |s| && s[n] == '@'
    requires SeparatorFrom(s, n + 1, CLOSED, At(n)) == SeparatorFrom(s, |s|, CLOSED, At(n))
    ensures SeparatorFrom(s, n, CLOSED, Unseen) == Some(At(n))
  {
  }

  lemma AddressAccepted(a: Address)
    requires ValidAddress(a)
    ensures AddressDomain(AddressBytes(a)) == Some(LowerAll(a.host))
  {
    SidesPass(a);
    AroundAt(AddressBytes(a), LeftOf(a), RightOf(a));
    SeparatorOf(AddressBytes(a), LeftOf(a), RightOf(a));
    SidesTrimmed(a);
    LocalIsAccepted(a.local);
    HostIsFirm(a.host, a.dots);
    FoundAddress(AddressBytes(a), |LeftOf(a)|, LocalBytes(a.local), HostOf(a), a.host);
  }

  lemma SidesTrimmed(a: Address)
    requires ValidAddress(a)
    ensures Trim(LeftOf(a)) == LocalBytes(a.local) && Trim(RightOf(a)) == HostOf(a)
  {
    LocalPasses(a.local);
    TrimAround(a.lead, LocalBytes(a.local), a.before);
    HostIsFirm(a.host, a.dots);
    TrimAround(a.after, HostOf(a), a.trail);
  }

  lemma FoundAddress(s: Bytes, n: nat, local: Bytes, dotted: Bytes, host: Bytes)
    requires n < |s| && SeparatorFrom(s, 0, CLOSED, Unseen) == Some(At(n))
    requires Trim(s[..n]) == local && IsLocalPart(local)
    requires Trim(s[n + 1..]) == dotted && TrimDots(dotted) == host && HostName(host)
    ensures AddressDomain(s) == Some(LowerAll(host))
  {
    assert forall b :: b in host ==> IsHostByte(b);
  }

  lemma AddressOf(s: Bytes) returns (a: Address)
    requires AddressDomain(s).Some?
    ensures ValidAddress(a) && AddressBytes(a) == s && AddressDomain(s) == Some(LowerAll(a.host))
  {
    var at := AtIsThere(s);
    a := PartsOf(s, at, s[..at], s[at + 1..]);
  }

  lemma PartsOf(s: Bytes, at: nat, left: Bytes, right: Bytes) returns (a: Address)
    requires at < |s| && s[at] == '@' && left == s[..at] && right == s[at + 1..]
    requires IsLocalPart(Trim(left)) && TrimDots(Trim(right)) != []
    requires forall b :: b in TrimDots(Trim(right)) ==> IsHostByte(b)
    ensures ValidAddress(a) && AddressBytes(a) == s && a.host == TrimDots(Trim(right))
  {
    assert s == left + ['@'] + right;
    var lead, l, before := LeftParts(left);
    var after, host, dots, trail := RightParts(right);
    a := Address(lead, l, before, after, host, dots, trail);
  }

  lemma LeftParts(left: Bytes) returns (lead: Bytes, l: Local, before: Bytes)
    requires IsLocalPart(Trim(left))
    ensures AllSpace(lead) && ValidLocal(l) && AllSpace(before) && left == lead + LocalBytes(l) + before
  {
    var local;
    lead, local, before := TrimmedParts(left);
    l := LocalOf(local);
  }

  lemma RightParts(right: Bytes) returns (after: Bytes, host: Bytes, dots: nat, trail: Bytes)
    requires TrimDots(Trim(right)) != [] && forall b :: b in TrimDots(Trim(right)) ==> IsHostByte(b)
    ensures AllSpace(after) && HostName(host) && AllSpace(trail) && host == TrimDots(Trim(right))
    ensures right == after + (host + Repeat(['.'], dots)) + trail
  {
    var dotted;
    after, dotted, trail := TrimmedParts(right);
    host := TrimDots(dotted);
    dots := DotsOf(dotted);
    HostIsHost(host);
  }

  lemma HostIsHost(host: Bytes)
    requires host != [] && host[|host| - 1] != '.' && forall b :: b in host ==> IsHostByte(b)
    ensures HostName(host)
  {
    assert forall i :: 0 <= i < |host| ==> host[i] in host;
  }

  lemma AtIsThere(s: Bytes) returns (at: nat)
    requires AddressDomain(s).Some?
    ensures at < |s| && s[at] == '@'
    ensures IsLocalPart(Trim(s[..at])) && TrimDots(Trim(s[at + 1..])) != []
    ensures forall b :: b in TrimDots(Trim(s[at + 1..])) ==> IsHostByte(b)
    ensures AddressDomain(s) == Some(LowerAll(TrimDots(Trim(s[at + 1..]))))
  {
    SeparatorMeaning(s, 0, CLOSED, Unseen);
    at := SeparatorFrom(s, 0, CLOSED, Unseen).value.index;
  }

  lemma DotsOf(s: Bytes) returns (dots: nat)
    ensures s == TrimDots(s) + Repeat(['.'], dots)
  {
    dots := |s| - |TrimDots(s)|;
    DotsAre(dots);
  }

  /** The addresses accepted are exactly those of the grammar. */
  lemma AddressExactly(s: Bytes, d: Bytes)
    ensures AddressDomain(s) == Some(d)
       <==> exists a :: ValidAddress(a) && AddressBytes(a) == s && LowerAll(a.host) == d
  {
    if AddressDomain(s).Some? {
      var a := AddressOf(s);
    }
    forall a | ValidAddress(a) && AddressBytes(a) == s
      ensures AddressDomain(s) == Some(LowerAll(a.host))
    {
      AddressAccepted(a);
    }
  }

  // ----- mailboxes -----

  lemma AloneAccepted(a: Address)
    requires ValidAddress(a)
    ensures MailboxDomain(AddressBytes(a)) == Some(LowerAll(a.host))
  {
    var s := AddressBytes(a);
    SidesPass(a);
    AddressIsFlat(LeftOf(a), RightOf(a));
    assert [] + s + [] == s;
    StandsBetween([], s, [], s);
    AnglesPass(s, 0, CLOSED, NO_ANGLES, s);
    AddressAccepted(a);
    NoBrackets(s);
  }

  lemma NoBrackets(s: Bytes)
    requires AnglesFrom(s, 0, CLOSED, NO_ANGLES) == Some(NO_ANGLES)
    ensures MailboxDomain(s) == AddressDomain(s)
  {
  }

  /** The places of the parts of a bracketed address. */
  predicate Bracketing(s: Bytes, name: Bytes, inner: Bytes, trail: Bytes) {
    var n, e := |name|, |name| + 1 + |inner|;
    && |s| == e + 1 + |trail| && s[n] == '<' && s[e] == '>'
    && StandsAt(s, 0, name) && StandsAt(s, n + 1, inner) && StandsAt(s, e + 1, trail)
  }

  lemma BracketsStand(s: Bytes, name: Bytes, inner: Bytes, trail: Bytes)
    requires s == name + ['<'] + inner + ['>'] + trail
    ensures Bracketing(s, name, inner, trail)
    ensures s[..|name|] == name && s[|name| + 1..|name| + 1 + |inner|] == inner
    ensures s[|name| + 1 + |inner| + 1..] == trail
  {
    assert s == [] + name + (['<'] + inner + ['>'] + trail);
    StandsBetween([], name, ['<'] + inner + ['>'] + trail, s);
    assert s == (name + ['<']) + inner + (['>'] + trail);
    StandsBetween(name + ['<'], inner, ['>'] + trail, s);
    assert s == (name + ['<'] + inner + ['>']) + trail + [];
    StandsBetween(name + ['<'] + inner + ['>'], trail, [], s);
  }

  lemma TrailPasses(s: Bytes, n: nat, e: nat, trail: Bytes)
    requires n < e && |s| == e + 1 + |trail| && StandsAt(s, e + 1, trail) && Flat(trail, CLOSED)
    ensures AnglesFrom(s, e + 1, CLOSED, Angles(Some(n), Some(e)))
         == AnglesFrom(s, |s|, CLOSED, Angles(Some(n), Some(e)))
  {
    AnglesPass(s, e + 1, CLOSED, Angles(Some(n), Some(e)), trail);
  }

  lemma NamePasses(s: Bytes, name: Bytes)
    requires StandsAt(s, 0, name) && Flat(name, CLOSED)
    ensures |name| <= |s| && AnglesFrom(s, 0, CLOSED, NO_ANGLES) == AnglesFrom(s, |name|, CLOSED, NO_ANGLES)
  {
    AnglesPass(s, 0, CLOSED, NO_ANGLES, name);
  }

  lemma InnerPasses(s: Bytes, n: nat, e: nat, inner: Bytes)
    requires e == n + 1 + |inner| && StandsAt(s, n + 1, inner) && Flat(inner, CLOSED)
    ensures e <= |s| && AnglesFrom(s, n + 1, CLOSED, Angles(Some(n), None))
                        == AnglesFrom(s, e, CLOSED, Angles(Some(n), None))
  {
    AnglesPass(s, n + 1, CLOSED, Angles(Some(n), None), inner);
  }

  lemma BracketsFound(s: Bytes, name: Bytes, inner: Bytes, trail: Bytes)
    requires Bracketing(s, name, inner, trail)
    requires Flat(name, CLOSED) && Flat(inner, CLOSED) && Flat(trail, CLOSED)
    ensures AnglesFrom(s, 0, CLOSED, NO_ANGLES) == Some(Angles(Some(|name|), Some(|name| + 1 + |inner|)))
  {
    var n, e := |name|, |name| + 1 + |inner|;
    TrailPasses(s, n, e, trail);
    NamePasses(s, name);
    InnerPasses(s, n, e, inner);
    OpenThenClose(s, n, e);
  }

  lemma OpenThenClose(s: Bytes, n: nat, e: nat)
    requires n < e < |s| && s[n] == '<' && s[e] == '>'
    requires AnglesFrom(s, n + 1, CLOSED, Angles(Some(n), None)) == AnglesFrom(s, e, CLOSED, Angles(Some(n), None))
    requires AnglesFrom(s, e + 1, CLOSED, Angles(Some(n), Some(e)))
          == AnglesFrom(s, |s|, CLOSED, Angles(Some(n), Some(e)))
    ensures AnglesFrom(s, n, CLOSED, NO_ANGLES) == Some(Angles(Some(n), Some(e)))
  {
  }

  lemma InBrackets(s: Bytes, start: nat, end: nat, name: Bytes, inner: Bytes, trail: Bytes, core: Bytes,
                   d: Option<Bytes>)
    requires start < end < |s| && AnglesFrom(s, 0, CLOSED, NO_ANGLES) == Some(Angles(Some(start), Some(end)))
    requires s[..start] == name && s[start + 1..end] == inner && s[end + 1..] == trail
    requires DisplayFrom(name, CLOSED) && |Trim(trail)| == 0 && core == Trim(inner) && AddressDomain(core) == d
    ensures MailboxDomain(s) == d
  {
  }

  /** An address without the whitespace around it. */
  function Bared(a: Address): Address { a.(lead := [], trail := []) }

  lemma TrimmedAddress(a: Address)
    requires ValidAddress(a)
    ensures ValidAddress(Bared(a)) && Trim(AddressBytes(a)) == AddressBytes(Bared(a))
  {
    LocalPasses(a.local);
    HostIsFirm(a.host, a.dots);
    var local, host := LocalBytes(a.local), HostOf(a);
    var core := local + a.before + ['@'] + a.after + host;
    BaredBytes(a, local, host, core);
    assert core[0] == local[0] && core[|core| - 1] == host[|host| - 1];
    TrimAround(a.lead, core, a.trail);
  }

  lemma BaredBytes(a: Address, local: Bytes, host: Bytes, core: Bytes)
    requires local == LocalBytes(a.local) && host == HostOf(a)
    requires core == local + a.before + ['@'] + a.after + host
    ensures AddressBytes(a) == a.lead + core + a.trail
    ensures AddressBytes(Bared(a)) == core
  {
    assert [] + local == local && a.after + host + [] == a.after + host;
    assert local + a.before + ['@'] + (a.after + host) == core;
    assert (a.lead + local + a.before) + ['@'] + (a.after + host + a.trail) == a.lead + core + a.trail;
  }

  lemma NamedAccepted(name: Words, a: Address, trail: Bytes)
    requires ValidWords(name) && ValidAddress(a) && AllSpace(trail)
    ensures MailboxDomain(MailboxBytes(Named(name, a, trail))) == Some(LowerAll(a.host))
  {
    WordsDisplay(name);
    PartsAreFlat(name, a, trail);
    NothingIsLeft(trail);
    TrimmedAddress(a);
    AddressAccepted(Bared(a));
    BracketedGives(MailboxBytes(Named(name, a, trail)), WordsBytes(name), AddressBytes(a), trail,
                   Trim(AddressBytes(a)), Some(LowerAll(a.host)));
  }

  lemma PartsAreFlat(name: Words, a: Address, trail: Bytes)
    requires ValidWords(name) && ValidAddress(a) && AllSpace(trail)
    ensures Flat(WordsBytes(name), CLOSED) && Flat(AddressBytes(a), CLOSED) && Flat(trail, CLOSED)
  {
    WordsPass(name);
    PassesIsFlat(WordsBytes(name), CLOSED);
    SidesPass(a);
    AddressIsFlat(LeftOf(a), RightOf(a));
    SpacePasses(trail);
    PassesIsFlat(trail, CLOSED);
  }

  lemma AnglesOfParts(s: Bytes, name: Bytes, inner: Bytes, trail: Bytes) returns (start: nat, end: nat)
    requires s == name + ['<'] + inner + ['>'] + trail
    requires Flat(name, CLOSED) && Flat(inner, CLOSED) && Flat(trail, CLOSED)
    ensures start < end < |s| && AnglesFrom(s, 0, CLOSED, NO_ANGLES) == Some(Angles(Some(start), Some(end)))
    ensures s[..start] == name && s[start + 1..end] == inner && s[end + 1..] == trail
  {
    start, end := |name|, |name| + 1 + |inner|;
    BracketsStand(s, name, inner, trail);
    BracketsFound(s, name, inner, trail);
  }

  lemma BracketedGives(s: Bytes, name: Bytes, inner: Bytes, trail: Bytes, core: Bytes, d: Option<Bytes>)
    requires s == name + ['<'] + inner + ['>'] + trail
    requires Flat(name, CLOSED) && Flat(inner, CLOSED) && Flat(trail, CLOSED)
    requires DisplayFrom(name, CLOSED) && |Trim(trail)| == 0 && core == Trim(inner) && AddressDomain(core) == d
    ensures MailboxDomain(s) == d
  {
    var start, end := AnglesOfParts(s, name, inner, trail);
    InBrackets(s, start, end, name, inner, trail, core, d);
  }

  lemma MailboxAccepted(m: Mailbox)
    requires ValidMailbox(m)
    ensures MailboxDomain(MailboxBytes(m)) == Some(LowerAll(m.address.host))
  {
    match m
    case Alone(a) => AloneAccepted(a);
    case Named(name, a, trail) => NamedAccepted(name, a, trail);
  }

  lemma Widened(core: Address, lead: Bytes, trail: Bytes) returns (a: Address)
    requires ValidAddress(core) && AllSpace(lead) && AllSpace(trail)
    ensures ValidAddress(a) && a.host == core.host && AddressBytes(a) == lead + AddressBytes(core) + trail
  {
    a := core.(lead := lead + core.lead, trail := core.trail + trail);
    SpacesJoin(lead, core.lead);
    SpacesJoin(core.trail, trail);
    WidenedBytes(lead, core.lead, LocalBytes(core.local), core.before, core.after, HostOf(core), core.trail, trail);
    assert HostOf(a) == HostOf(core);
  }

  lemma WidenedBytes(a: Bytes, b: Bytes, c: Bytes, d: Bytes, e: Bytes, f: Bytes, g: Bytes, h: Bytes)
    ensures (a + b + c + d) + ['@'] + (e + f + (g + h)) == a + ((b + c + d) + ['@'] + (e + f + g)) + h
  {
  }

  lemma BracketsAre(s: Bytes, start: nat, end: nat)
    requires AnglesFrom(s, 0, CLOSED, NO_ANGLES) == Some(Angles(Some(start), Some(end)))
    ensures start < end < |s| && s[start] == '<' && s[end] == '>'
  {
    AnglesMeaning(s, 0, CLOSED, NO_ANGLES);
  }

  lemma NamedOf(s: Bytes, start: nat, end: nat) returns (m: Mailbox)
    requires start < end < |s| && s[start] == '<' && s[end] == '>' && BracketDomain(s, start, end).Some?
    ensures ValidMailbox(m) && MailboxBytes(m) == s && BracketDomain(s, start, end) == Some(LowerAll(m.address.host))
  {
    var name, inner, tail := s[..start], s[start + 1..end], s[end + 1..];
    var words := WordsOf(name);
    var lead, core, trail := TrimmedParts(inner);
    var bare := AddressOf(core);
    var a := Widened(bare, lead, trail);
    NothingIsLeft(tail);
    m := Named(words, a, tail);
    BracketParts5(s, start, end, name, inner, tail);
  }

  lemma BracketParts5(s: Bytes, start: nat, end: nat, name: Bytes, inner: Bytes, tail: Bytes)
    requires start < end < |s| && s[start] == '<' && s[end] == '>'
    requires name == s[..start] && inner == s[start + 1..end] && tail == s[end + 1..]
    ensures s == name + ['<'] + inner + ['>'] + tail
  {
  }

  lemma MailboxOf(s: Bytes) returns (m: Mailbox)
    requires MailboxDomain(s).Some?
    ensures ValidMailbox(m) && MailboxBytes(m) == s && MailboxDomain(s) == Some(LowerAll(m.address.host))
  {
    var angles := AnglesFrom(s, 0, CLOSED, NO_ANGLES).value;
    if angles.end.Some? {
      BracketsAre(s, angles.start.value, angles.end.value);
      m := NamedOf(s, angles.start.value, angles.end.value);
    } else {
      var a := AddressOf(s);
      m := Alone(a);
    }
  }

  /** The texts accepted are exactly the mailboxes of the grammar, and the domain
      is the host of the address in lower case. */
  lemma MailboxExactly(s: Bytes, d: Bytes)
    ensures MailboxDomain(s) == Some(d)
       <==> exists m :: ValidMailbox(m) && MailboxBytes(m) == s && LowerAll(m.address.host) == d
  {
    if MailboxDomain(s).Some? {
      var m := MailboxOf(s);
    }
    forall m | ValidMailbox(m) && MailboxBytes(m) == s
      ensures MailboxDomain(s) == Some(LowerAll(m.address.host))
    {
      MailboxAccepted(m);
    }
  }

  // ----- whole fields -----

  /** A value read as a field: the items of its unfolded text, and the mailbox left
      when their comments are spaces and the text is trimmed. */
  predicate Reads(value: Bytes, items: Items, m: Mailbox) {
    && LegallyFolded(value) && NoControls(value)
    && ValidItems(items) && Source(items) == DeleteFolds(value)
    && Utf8(Stripped(items))
    && ValidMailbox(m) && MailboxBytes(m) == Trim(Stripped(items))
  }

  /** The program gives a domain for exactly the fields of the grammar, and it is
      the host of the mailbox in lower case. */
  lemma FromExactly(value: Bytes, d: Bytes)
    ensures DomainOf(value) == Some(d)
       <==> exists items, m :: Reads(value, items, m) && LowerAll(m.address.host) == d
  {
    UnfoldsExactly(value);
    if DomainOf(value) == Some(d) {
      var items, m := FieldOf(value, d);
    }
    forall items, m | Reads(value, items, m)
      ensures DomainOf(value) == Some(LowerAll(m.address.host))
    {
      ReadFieldAccepted(value, items, m);
    }
  }

  lemma FieldOf(value: Bytes, d: Bytes) returns (items: Items, m: Mailbox)
    requires DomainOf(value) == Some(d)
    ensures Reads(value, items, m) && LowerAll(m.address.host) == d
  {
    UnfoldsExactly(value);
    var unfolded := DeleteFolds(value);
    items := ItemsOf(SCAN_START, unfolded);
    StrippedIs(unfolded, items);
    m := MailboxOf(Trim(Stripped(items)));
  }

  lemma StrippedIs(unfolded: Bytes, items: Items)
    requires ValidItems(items) && Source(items) == unfolded
    ensures WithoutComments(unfolded) == Some(Stripped(items))
  {
    StripsExactly(unfolded, Stripped(items));
  }

  lemma ReadFieldAccepted(value: Bytes, items: Items, m: Mailbox)
    requires Reads(value, items, m)
    ensures DomainOf(value) == Some(LowerAll(m.address.host))
  {
    UnfoldsExactly(value);
    StrippedIs(DeleteFolds(value), items);
    MailboxAccepted(m);
  }
}
