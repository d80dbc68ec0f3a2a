/** What an extracted From domain says about the field it came from. */
module MailboxProperties {
  import opened ByteStrings
  import opened Mailboxes

  /** Byte `i` of `s`, or its end, is outside quotes. */
  predicate Open(s: Bytes, i: nat)
    requires i <= |s|
  {
    QuoteRun(CLOSED, s[..i]) == CLOSED
  }

  lemma OpenWithin(s: Bytes, low: nat, high: nat, k: nat)
    requires low + k <= high <= |s| && Open(s, low)
    ensures QuoteRun(CLOSED, s[..low + k]) == QuoteRun(CLOSED, s[low..high][..k])
    ensures Open(s, low + k) <==> Open(s[low..high], k)
  {
    assert s[..low + k] == s[..low] + s[low..high][..k];
    QuoteRunConcat(CLOSED, s[..low], s[low..high][..k]);
  }

  // ----- the first scan and the later ones -----

  /** The quoting state of a scan; nothing inside a comment is quoted for the others. */
  function Seen(st: Scan): Quote
    requires st.Scan?
  {
    if st.depth == 0 then st.quote else CLOSED
  }

  /** After any part of the unfolded field, the comment scan and a later scan of
      the bytes it has put out are in the same quoting state, and the part put
      out is a prefix of what the later scans read. */
  lemma ScansAgree(unfolded: Bytes, i: nat)
    requires i <= |unfolded| && WithoutComments(unfolded).Some?
    ensures var st := ScanRun(SCAN_START, unfolded[..i]);
            && st.Scan? && st.out <= WithoutComments(unfolded).value
            && QuoteRun(CLOSED, st.out) == Seen(st)
  {
    var st := ScanRun(SCAN_START, unfolded[..i]);
    ScanRunAgrees(SCAN_START, unfolded[..i]);
    ScanRunConcat(SCAN_START, unfolded[..i], unfolded[i..]);
    assert unfolded[..i] + unfolded[i..] == unfolded;
    ScanRunExtends(st, unfolded[i..]);
  }

  lemma {:induction false} ScanRunConcat(st: Scan, a: Bytes, b: Bytes)
    ensures ScanRun(st, a + b) == ScanRun(ScanRun(st, a), b)
    decreases |a|
  {
    if a == [] {
      assert a + b == b;
    } else {
      assert (a + b)[1..] == a[1..] + b;
      ScanRunConcat(ScanStep(st, a[0]), a[1..], b);
    }
  }

  lemma {:induction false} ScanRunExtends(st: Scan, s: Bytes)
    ensures ScanRun(st, s).Scan? ==> st.Scan? && st.out <= ScanRun(st, s).out
    decreases |s|
  {
    if s != [] {
      ScanRunExtends(ScanStep(st, s[0]), s[1..]);
    }
  }

  // ----- the scans, read as statements about unquoted bytes -----

  ghost predicate AnglesDescribe(text: Bytes, from: nat, a: Angles, r: Angles)
    requires a.InOrder(from) && r.InOrder(|text|)
  {
    && (a.start.Some? ==> r.start == a.start)
    && (a.end.Some? ==> r.end == a.end)
    && (forall k :: from <= k < |text| && Open(text, k) ==>
          && !IsListByte(text[k])
          && (text[k] == '<' ==> r.start == Some(k))
          && (text[k] == '>' ==> r.end == Some(k)))
    && (a.start.None? && r.start.Some? ==>
          from <= r.start.value && text[r.start.value] == '<' && Open(text, r.start.value))
    && (a.end.None? && r.end.Some? ==>
          from <= r.end.value && text[r.end.value] == '>' && Open(text, r.end.value))
  }

  lemma {:induction false} AnglesMeaning(text: Bytes, i: nat, q: Quote, a: Angles)
    requires i <= |text| && a.InOrder(i) && q == QuoteRun(CLOSED, text[..i])
    requires AnglesFrom(text, i, q, a).Some?
    ensures AnglesDescribe(text, i, a, AnglesFrom(text, i, q, a).value)
    decreases |text| - i
  {
    if i < |text| {
      QuoteRunSnoc(CLOSED, text, i);
      var next := if q == CLOSED && text[i] != '"' then AngleStep(a, text[i], i).value else a;
      AnglesMeaning(text, i + 1, QuoteStep(q, text[i]), next);
    }
  }

  lemma {:induction false} SeparatorMeaning(s: Bytes, i: nat, q: Quote, found: Separator)
    requires i <= |s| && (found.At? ==> found.index < i) && q == QuoteRun(CLOSED, s[..i])
    requires SeparatorFrom(s, i, q, found).Some?
    ensures var r := SeparatorFrom(s, i, q, found).value;
            && (found.At? ==> r == found)
            && (forall k :: i <= k < |s| && Open(s, k) && s[k] == '@' ==> r == At(k))
            && (found.Unseen? && r.At? ==> i <= r.index && s[r.index] == '@' && Open(s, r.index))
    decreases |s| - i
  {
    if i < |s| {
      QuoteRunSnoc(CLOSED, s, i);
      SeparatorMeaning(s, i + 1, QuoteStep(q, s[i]), if q == CLOSED && s[i] == '@' then At(i) else found);
    }
  }

  lemma {:induction false} DisplayMeaning(s: Bytes, i: nat, q: Quote)
    requires i <= |s| && q == QuoteRun(CLOSED, s[..i]) && DisplayFrom(s[i..], q)
    ensures forall k :: i <= k < |s| && Open(s, k) ==> s[k] == '"' || DisplayByte(s[k])
    decreases |s| - i
  {
    if i < |s| {
      QuoteRunSnoc(CLOSED, s, i);
      assert s[i..][1..] == s[i + 1..];
      DisplayMeaning(s, i + 1, QuoteStep(q, s[i]));
    }
  }

  // ----- soundness -----

  /** `at` is the only unquoted at-sign. */
  ghost predicate SoleAt(s: Bytes, at: nat) {
    && at < |s| && s[at] == '@' && Open(s, at)
    && forall k :: 0 <= k < |s| && k != at && Open(s, k) ==> s[k] != '@'
  }

  datatype Extent = Extent(p: nat, e: nat, f: nat)

  /** Between `at` and `stop` there is whitespace, a host name from `p` to `e`
      of which `d` is the lower-case form, dots up to `f`, and whitespace. */
  ghost predicate HostAt(s: Bytes, at: nat, h: Extent, stop: nat, d: Bytes) {
    && at < h.p < h.e <= h.f <= stop <= |s|
    && SpaceRange(s, at + 1, h.p) && SpaceRange(s, h.f, stop)
    && (forall i :: h.p <= i < h.e ==> IsHostByte(s[i])) && s[h.e - 1] != '.'
    && (forall i :: h.e <= i < h.f ==> s[i] == '.')
    && d == LowerAll(s[h.p..h.e])
  }

  /** The address stops at the only unquoted `>`, or at the end without one. */
  ghost predicate AddressStop(s: Bytes, stop: nat) {
    && stop <= |s|
    && (stop < |s| ==> s[stop] == '>' && Open(s, stop))
    && forall k :: 0 <= k < |s| && Open(s, k) && s[k] == '>' ==> k == stop
  }

  predicate NoList(s: Bytes) { forall k :: 0 <= k < |s| && Open(s, k) ==> !IsListByte(s[k]) }

  ghost predicate Outline(m: Bytes, at: nat, h: Extent, stop: nat, d: Bytes) {
    SoleAt(m, at) && AddressStop(m, stop) && HostAt(m, at, h, stop, d)
  }

  ghost predicate SoleMailbox(m: Bytes, d: Bytes) {
    && NoList(m)
    && exists at: nat, h: Extent, stop: nat :: Outline(m, at, h, stop, d)
  }

  lemma HostFound(s: Bytes, at: nat, h: Extent, text: Bytes, host: Bytes)
    requires at < h.p <= h.f <= |s| && SpaceRange(s, at + 1, h.p) && SpaceRange(s, h.f, |s|)
    requires text == s[h.p..h.f] && host <= text && host != [] && host[|host| - 1] != '.' && h.e == h.p + |host|
    requires forall i :: |host| <= i < |text| ==> text[i] == '.'
    requires forall b :: b in host ==> IsHostByte(b)
    ensures HostAt(s, at, h, |s|, LowerAll(host))
  {
    SliceOfSlice(s, h.p, h.f, 0, |host|);
    assert host == text[0..|host|];
    forall i | h.p <= i < h.f
      ensures i < h.e ==> IsHostByte(s[i])
      ensures i >= h.e ==> s[i] == '.'
      ensures i == h.e - 1 ==> s[i] != '.'
    {
      assert s[i] == text[i - h.p];
      assert i < h.e ==> text[i - h.p] == host[i - h.p];
    }
  }

  /** Around the trimmed part there is whitespace, stated for the whole. */
  lemma TrimmedPart(s: Bytes, from: nat, to: nat) returns (low: nat, high: nat)
    requires from <= to <= |s|
    ensures from <= low <= high <= to
    ensures s[low..high] == Trim(s[from..to]) && low - from == TrimLow(s[from..to])
    ensures SpaceRange(s, from, low) && SpaceRange(s, high, to)
  {
    var part := s[from..to];
    TrimmedEnds(part);
    low, high := PartRange(s, from, to, part, TrimLow(part), TrimEndIndex(part));
  }

  lemma PartRange(s: Bytes, from: nat, to: nat, part: Bytes, a: nat, b: nat) returns (low: nat, high: nat)
    requires from <= to <= |s| && part == s[from..to] && a <= b <= |part|
    requires SpaceRange(part, 0, a) && SpaceRange(part, b, |part|)
    ensures low == from + a && high == from + b && s[low..high] == part[a..b]
    ensures SpaceRange(s, from, low) && SpaceRange(s, high, to)
  {
    low, high := from + a, from + b;
    RangeMoves(part, 0, a, s, from);
    RangeMoves(part, b, |part|, s, from);
    SliceOfSlice(s, from, to, a, b);
  }

  lemma AddressSound(s: Bytes, d: Bytes) returns (at: nat, h: Extent)
    requires AddressDomain(s) == Some(d)
    ensures SoleAt(s, at) && HostAt(s, at, h, |s|, d)
  {
    SeparatorMeaning(s, 0, CLOSED, Unseen);
    at := SeparatorFrom(s, 0, CLOSED, Unseen).value.index;
    h := AddressHost(s, at, TrimDots(Trim(s[at + 1..])));
  }

  lemma AddressHost(s: Bytes, at: nat, host: Bytes) returns (h: Extent)
    requires at < |s| && host == TrimDots(Trim(s[at + 1..])) && host != []
    requires forall b :: b in host ==> IsHostByte(b)
    ensures HostAt(s, at, h, |s|, LowerAll(host))
  {
    FullSlices(s, at + 1);
    var p, f := TrimmedPart(s, at + 1, |s|);
    h := HostWithin(s, at, p, f, s[p..f], host);
  }

  lemma HostWithin(s: Bytes, at: nat, p: nat, f: nat, text: Bytes, host: Bytes) returns (h: Extent)
    requires at < p <= f <= |s| && SpaceRange(s, at + 1, p) && SpaceRange(s, f, |s|)
    requires text == s[p..f] && host == TrimDots(text) && host != []
    requires forall b :: b in host ==> IsHostByte(b)
    ensures HostAt(s, at, h, |s|, LowerAll(host))
  {
    h := Extent(p, p + |host|, f);
    HostFound(s, at, h, text, host);
  }

  /** A sole at-sign of a part is that of the whole, when the rest of the whole
      has no unquoted at-sign. */
  lemma SoleInWhole(s: Bytes, low: nat, t: Bytes, at: nat)
    requires low + |t| <= |s| && t == s[low..low + |t|] && Open(s, low) && SoleAt(t, at)
    requires forall k :: 0 <= k < |s| && !(low <= k < low + |t|) && Open(s, k) ==> s[k] != '@'
    ensures SoleAt(s, low + at)
  {
    OpenWithin(s, low, low + |t|, at);
    forall k | low <= k < low + |t| && k != low + at && Open(s, k)
      ensures s[k] != '@'
    {
      OpenWithin(s, low, low + |t|, k - low);
      assert s[k] == t[k - low];
    }
  }

  function Shift(h: Extent, low: nat): Extent { Extent(low + h.p, low + h.e, low + h.f) }

  lemma HostInWhole(s: Bytes, low: nat, t: Bytes, stop: nat, at: nat, h: Extent, d: Bytes)
    requires low + |t| <= stop <= |s| && t == s[low..low + |t|] && SpaceRange(s, low + |t|, stop)
    requires HostAt(t, at, h, |t|, d)
    ensures HostAt(s, low + at, Shift(h, low), stop, d)
  {
    BytesInWhole(s, low, t, h);
    SpacesInWhole(s, low, t, stop, at, h);
  }

  lemma SpacesInWhole(s: Bytes, low: nat, t: Bytes, stop: nat, at: nat, h: Extent)
    requires low + |t| <= stop <= |s| && SpaceRange(s, low + |t|, stop)
    requires forall k :: 0 <= k < |t| ==> t[k] == s[low + k]
    requires at < h.p <= h.f <= |t| && SpaceRange(t, at + 1, h.p) && SpaceRange(t, h.f, |t|)
    ensures SpaceRange(s, low + at + 1, low + h.p) && SpaceRange(s, low + h.f, stop)
  {
    RangeMoves(t, at + 1, h.p, s, low);
    RangeMoves(t, h.f, |t|, s, low);
    RangesJoin(s, low + h.f, low + |t|, stop);
  }

  lemma BytesInWhole(s: Bytes, low: nat, t: Bytes, h: Extent)
    requires low + |t| <= |s| && t == s[low..low + |t|] && h.p < h.e <= h.f <= |t|
    ensures t[h.p..h.e] == s[low + h.p..low + h.e] && s[low + h.e - 1] == t[h.e - 1]
    ensures (forall i :: h.p <= i < h.e ==> IsHostByte(t[i])) ==>
              forall i :: low + h.p <= i < low + h.e ==> IsHostByte(s[i])
    ensures (forall i :: h.e <= i < h.f ==> t[i] == '.') ==> forall i :: low + h.e <= i < low + h.f ==> s[i] == '.'
  {
    SliceOfSlice(s, low, low + |t|, h.p, h.e);
    assert forall i :: low <= i < low + |t| ==> s[i] == t[i - low];
  }

  lemma BareSound(s: Bytes, d: Bytes)
    requires MailboxDomain(s) == Some(d)
    requires AnglesFrom(s, 0, CLOSED, NO_ANGLES).value == NO_ANGLES
    ensures SoleMailbox(s, d)
  {
    AnglesMeaning(s, 0, CLOSED, NO_ANGLES);
    var at, h := AddressSound(s, d);
    assert Outline(s, at, h, |s|, d);
  }

  lemma OpenInside(s: Bytes, start: nat, low: nat)
    requires start < low <= |s| && Open(s, start) && s[start] == '<' && SpaceRange(s, start + 1, low)
    ensures Open(s, low)
  {
    QuoteRunSnoc(CLOSED, s, start);
    var blanks := s[start + 1..low];
    assert s[..low] == s[..start + 1] + blanks;
    QuoteRunConcat(CLOSED, s[..start + 1], blanks);
    RangeIsBlank(s, start + 1, low);
    assert forall i :: 0 <= i < |blanks| ==> blanks[i] == s[start + 1 + i];
    BlanksKeepQuotes(CLOSED, blanks);
  }

  lemma DisplayHasNoAt(s: Bytes, start: nat, k: nat)
    requires k < start <= |s| && Open(s, k) && DisplayFrom(s[..start], CLOSED)
    ensures s[k] != '@'
  {
    var head := s[..start];
    assert head[0..] == head && head[..0] == [];
    DisplayMeaning(head, 0, CLOSED);
    assert head[..k] == s[..k] && head[k] == s[k];
  }

  /** `inner` lies in the brackets at `low`, with nothing but a display phrase
      before them and whitespace elsewhere. */
  ghost predicate Bracketed(s: Bytes, start: nat, end: nat, low: nat, inner: Bytes) {
    && start < low <= low + |inner| <= end < |s| && inner == s[low..low + |inner|]
    && Open(s, start) && s[start] == '<'
    && SpaceRange(s, start + 1, low) && SpaceRange(s, low + |inner|, end)
    && forall k :: 0 <= k < |s| && !(low <= k < low + |inner|) && Open(s, k) ==> s[k] != '@'
  }

  lemma BlankTail(s: Bytes, from: nat)
    requires from <= |s| && |Trim(s[from..])| == 0
    ensures SpaceRange(s, from, |s|)
  {
    assert s[from..|s|] == s[from..];
    var low, high := TrimmedPart(s, from, |s|);
    RangesJoin(s, from, low, |s|);
  }

  lemma BracketParts(s: Bytes, start: nat, end: nat) returns (low: nat)
    requires start < end < |s| && Open(s, start) && s[start] == '<' && s[end] == '>'
    requires DisplayFrom(s[..start], CLOSED) && |Trim(s[end + 1..])| == 0
    ensures Bracketed(s, start, end, low, Trim(s[start + 1..end]))
  {
    var high, inner;
    low, high, inner := TrimmedBounds(s, start + 1, end);
    BlankTail(s, end + 1);
    BracketsAround(s, start, end, low, high, inner);
  }

  lemma TrimmedBounds(s: Bytes, from: nat, to: nat) returns (low: nat, high: nat, inner: Bytes)
    requires from <= to <= |s|
    ensures from <= low <= high <= to && inner == s[low..high] == Trim(s[from..to])
    ensures SpaceRange(s, from, low) && SpaceRange(s, high, to)
  {
    low, high := TrimmedPart(s, from, to);
    inner := s[low..high];
  }

  lemma BracketsAround(s: Bytes, start: nat, end: nat, low: nat, high: nat, inner: Bytes)
    requires start < low <= high <= end < |s| && inner == s[low..high]
    requires Open(s, start) && s[start] == '<' && s[end] == '>' && DisplayFrom(s[..start], CLOSED)
    requires SpaceRange(s, start + 1, low) && SpaceRange(s, high, end) && SpaceRange(s, end + 1, |s|)
    ensures Bracketed(s, start, end, low, inner)
  {
    RangeIsBlank(s, start + 1, low);
    RangeIsBlank(s, high, end);
    RangeIsBlank(s, end + 1, |s|);
    OutsideAddress(s, start, end, low, high);
  }

  lemma AddressInBrackets(s: Bytes, start: nat, end: nat, low: nat, inner: Bytes,
                          at: nat, h: Extent, d: Bytes)
    requires Bracketed(s, start, end, low, inner)
    requires SoleAt(inner, at) && HostAt(inner, at, h, |inner|, d)
    requires AddressStop(s, end) && NoList(s)
    ensures SoleMailbox(s, d)
  {
    OpenInside(s, start, low);
    SoleInWhole(s, low, inner, at);
    HostInWhole(s, low, inner, end, at, h, d);
    assert Outline(s, low + at, Shift(h, low), end, d);
  }

  lemma BracketSound(s: Bytes, start: nat, end: nat, d: Bytes)
    requires MailboxDomain(s) == Some(d)
    requires AnglesFrom(s, 0, CLOSED, NO_ANGLES).value == Angles(Some(start), Some(end))
    ensures SoleMailbox(s, d)
  {
    AnglesMeaning(s, 0, CLOSED, NO_ANGLES);
    var inner := Trim(s[start + 1..end]);
    assert AddressDomain(inner) == Some(d);
    var low := BracketParts(s, start, end);
    var at, h := AddressSound(inner, d);
    AddressInBrackets(s, start, end, low, inner, at, h, d);
  }

  lemma OutsideAddress(s: Bytes, start: nat, end: nat, low: nat, high: nat)
    requires start < low <= high <= end < |s| && s[start] == '<' && s[end] == '>'
    requires DisplayFrom(s[..start], CLOSED)
    requires BlankRange(s, start + 1, low) && BlankRange(s, high, end) && BlankRange(s, end + 1, |s|)
    ensures forall k :: 0 <= k < |s| && !(low <= k < high) && Open(s, k) ==> s[k] != '@'
  {
    forall k | 0 <= k < start && Open(s, k)
      ensures s[k] != '@'
    {
      DisplayHasNoAt(s, start, k);
    }
  }

  /** When a domain is extracted, the comment-free field holds one unquoted
      at-sign in all and no unquoted comma, colon or semicolon, and the domain is
      the lower-case text after that sign, trimmed of whitespace and final dots. */
  lemma DomainIsSole(value: Bytes, d: Bytes)
    requires DomainOf(value) == Some(d)
    ensures SoleMailbox(WithoutComments(Unfolded(value).value).value, d)
  {
    var m := WithoutComments(Unfolded(value).value).value;
    StrippedIsBalanced(Unfolded(value).value);
    TrimmedIsBalanced(m);
    var text := Trim(m);
    var angles := AnglesFrom(text, 0, CLOSED, NO_ANGLES).value;
    if angles.end.Some? {
      BracketSound(text, angles.start.value, angles.end.value, d);
    } else {
      BareSound(text, d);
    }
    TextToField(m, d);
  }

  lemma TextToField(m: Bytes, d: Bytes)
    requires QuoteRun(CLOSED, m) == CLOSED && SoleMailbox(Trim(m), d)
    ensures SoleMailbox(m, d)
  {
    TrimmedIsBalanced(m);
    assert m[0..|m|] == m;
    var low, high := TrimmedPart(m, 0, |m|);
    PartSound(m, low, high, Trim(m), d);
  }

  predicate SpaceAround(m: Bytes, low: nat, high: nat) {
    low <= high <= |m| && SpaceRange(m, 0, low) && SpaceRange(m, high, |m|)
  }

  predicate BlankAround(m: Bytes, low: nat, high: nat) {
    low <= high <= |m| && BlankRange(m, 0, low) && BlankRange(m, high, |m|)
  }

  lemma PartSound(m: Bytes, low: nat, high: nat, text: Bytes, d: Bytes)
    requires SpaceAround(m, low, high) && Open(m, low) && text == m[low..high] && SoleMailbox(text, d)
    ensures SoleMailbox(m, d)
  {
    var at: nat, h: Extent, stop: nat :| Outline(text, at, h, stop, d);
    RangeIsBlank(m, 0, low);
    RangeIsBlank(m, high, |m|);
    NoListBytes(m, low, high, text);
    HostOfPart(m, low, high, text, at, h, stop, d);
    SignsOfPart(m, low, high, text, at, stop);
    assert Outline(m, low + at, Shift(h, low), if stop < |text| then low + stop else |m|, d);
  }

  lemma SignsOfPart(m: Bytes, low: nat, high: nat, text: Bytes, at: nat, stop: nat)
    requires BlankAround(m, low, high) && Open(m, low) && text == m[low..high]
    requires SoleAt(text, at) && AddressStop(text, stop)
    ensures SoleAt(m, low + at) && AddressStop(m, if stop < |text| then low + stop else |m|)
  {
    SoleInWhole(m, low, text, at);
    StopInWhole(m, low, high, text, stop);
  }

  lemma HostOfPart(m: Bytes, low: nat, high: nat, text: Bytes, at: nat, h: Extent, stop: nat, d: Bytes)
    requires SpaceAround(m, low, high) && text == m[low..high] && HostAt(text, at, h, stop, d)
    ensures HostAt(m, low + at, Shift(h, low), if stop < |text| then low + stop else |m|, d)
  {
    HostPrefix(text, at, h, stop, d);
    HostInWhole(m, low, text[..stop], if stop < |text| then low + stop else |m|, at, h, d);
  }

  lemma NoListBytes(m: Bytes, low: nat, high: nat, text: Bytes)
    requires BlankAround(m, low, high) && Open(m, low) && text == m[low..high] && NoList(text)
    ensures NoList(m)
  {
    forall k | 0 <= k < |m| && Open(m, k)
      ensures !IsListByte(m[k])
    {
      if low <= k < high {
        OpenWithin(m, low, high, k - low);
        assert m[k] == text[k - low];
      }
    }
  }

  lemma StopInWhole(m: Bytes, low: nat, high: nat, text: Bytes, stop: nat)
    requires BlankAround(m, low, high) && Open(m, low) && text == m[low..high] && AddressStop(text, stop)
    ensures AddressStop(m, if stop < |text| then low + stop else |m|)
  {
    forall k | 0 <= k < |m| && Open(m, k) && m[k] == '>'
      ensures stop < |text| && k == low + stop
    {
      if low <= k < high {
        OpenWithin(m, low, high, k - low);
        assert m[k] == text[k - low];
      }
    }
    if stop < |text| {
      OpenWithin(m, low, high, stop);
      assert m[low + stop] == text[stop];
    }
  }

  lemma HostPrefix(s: Bytes, at: nat, h: Extent, stop: nat, d: Bytes)
    requires HostAt(s, at, h, stop, d)
    ensures HostAt(s[..stop], at, h, stop, d)
  {
    PrefixKeeps(s, s[..stop], at, h, stop);
    assert s[..stop][h.p..h.e] == s[h.p..h.e];
  }

  lemma PrefixKeeps(s: Bytes, t: Bytes, at: nat, h: Extent, stop: nat)
    requires at < h.p < h.e <= h.f <= stop <= |s| && t == s[..stop]
    requires SpaceRange(s, at + 1, h.p) && SpaceRange(s, h.f, stop)
    ensures SpaceRange(t, at + 1, h.p) && SpaceRange(t, h.f, stop)
  {
    RangeMoves(s, at + 1, h.p, t, 0);
    RangeMoves(s, h.f, stop, t, 0);
  }

  // ----- all three scans of one field -----

  datatype Span = Span(from: nat, to: nat)

  /** Where the separator scan runs: what is trimmed out of the brackets, or the
      whole text. */
  function AddressSpan(text: Bytes): (r: Span)
    requires AnglesFrom(text, 0, CLOSED, NO_ANGLES).Some?
    ensures r.from <= r.to <= |text|
  {
    var a := AnglesFrom(text, 0, CLOSED, NO_ANGLES).value;
    if a.end.None? then Span(0, |text|)
    else
      var inner := text[a.start.value + 1..a.end.value];
      Span(a.start.value + 1 + TrimLow(inner), a.start.value + 1 + TrimEndIndex(inner))
  }

  /** It is the address that is then taken apart, and it starts outside quotes. */
  lemma SpanIsAddress(text: Bytes) returns (span: Span)
    requires AnglesFrom(text, 0, CLOSED, NO_ANGLES).Some?
    ensures span == AddressSpan(text) && Open(text, span.from)
    ensures var a := AnglesFrom(text, 0, CLOSED, NO_ANGLES).value;
            text[span.from..span.to]
            == if a.end.Some? then Trim(text[a.start.value + 1..a.end.value]) else text
  {
    span := AddressSpan(text);
    var a := AnglesFrom(text, 0, CLOSED, NO_ANGLES).value;
    if a.end.Some? {
      var inner := text[a.start.value + 1..a.end.value];
      StartIsOpen(text, a);
      InnerSpan(text, a.start.value, a.end.value, inner);
    }
  }

  lemma StartIsOpen(text: Bytes, a: Angles)
    requires AnglesFrom(text, 0, CLOSED, NO_ANGLES) == Some(a) && a.end.Some?
    ensures Open(text, a.start.value) && text[a.start.value] == '<'
  {
    AnglesMeaning(text, 0, CLOSED, NO_ANGLES);
  }

  lemma InnerSpan(text: Bytes, start: nat, end: nat, inner: Bytes)
    requires start < end < |text| && Open(text, start) && text[start] == '<' && inner == text[start + 1..end]
    ensures Open(text, start + 1 + TrimLow(inner))
    ensures text[start + 1 + TrimLow(inner)..start + 1 + TrimEndIndex(inner)] == Trim(inner)
  {
    var low, high := TrimmedPart(text, start + 1, end);
    OpenInside(text, start, low);
    SliceOfSlice(text, start + 1, end, TrimLow(inner), TrimEndIndex(inner));
  }

  /** The bracket scan is in state `q` before byte `k` of the text, and so is the
      separator scan if that byte is in the address or ends it. */
  ghost predicate LaterScansAt(text: Bytes, k: nat, q: Quote)
    requires k <= |text|
  {
    && QuoteRun(CLOSED, text[..k]) == q
    && (AnglesFrom(text, 0, CLOSED, NO_ANGLES).Some? ==>
          var span := AddressSpan(text);
          span.from <= k <= span.to ==> QuoteRun(CLOSED, text[span.from..span.to][..k - span.from]) == q)
  }

  lemma LaterScansAgree(text: Bytes, k: nat)
    requires k <= |text|
    ensures LaterScansAt(text, k, QuoteRun(CLOSED, text[..k]))
  {
    if AnglesFrom(text, 0, CLOSED, NO_ANGLES).Some? {
      var span := SpanIsAddress(text);
      if span.from <= k <= span.to {
        OpenWithin(text, span.from, span.to, k - span.from);
      }
    }
  }

  /** The state at a place of the whole text is that at its place in the part. */
  lemma StateInPart(m: Bytes, low: nat, high: nat, n: nat, part: Bytes, k: nat)
    requires low <= n <= high <= |m| && Open(m, low) && part == m[low..high] && k == n - low
    ensures QuoteRun(CLOSED, part[..k]) == QuoteRun(CLOSED, m[..n])
  {
    OpenWithin(m, low, high, k);
  }

  /** The three scans of a field agree: at every byte the comment scan reads, the
      bracket scan has the same quoting state at the place that byte got in the
      trimmed text, and the separator scan at its place in the trimmed address. */
  lemma AllScansAgree(unfolded: Bytes, i: nat) returns (st: Scan, m: Bytes, low: nat)
    requires i <= |unfolded| && WithoutComments(unfolded).Some?
    ensures st == ScanRun(SCAN_START, unfolded[..i]) && st.Scan? && Some(m) == WithoutComments(unfolded)
    ensures st.out <= m && low == TrimLow(m)
    ensures low <= |st.out| <= TrimEndIndex(m) ==> LaterScansAt(Trim(m), |st.out| - low, Seen(st))
  {
    st, m := ScanRun(SCAN_START, unfolded[..i]), WithoutComments(unfolded).value;
    low := TrimLow(m);
    ScansAgree(unfolded, i);
    StrippedIsBalanced(unfolded);
    TrimmedIsBalanced(m);
    var n := |st.out|;
    assert st.out == m[..n];
    if low <= n <= TrimEndIndex(m) {
      StateInPart(m, low, TrimEndIndex(m), n, Trim(m), n - low);
      LaterScansAgree(Trim(m), n - low);
    }
  }

  // ----- the host, read off the text directly -----

  /** An ASCII byte that is not whitespace stops any trimming. */
  predicate Firm(b: Byte) { IsAscii(b) && !IsSpace1(b) }

  lemma {:induction false} TrimStopsLow(t: Bytes, i: nat, p: nat)
    requires SpaceRange(t, i, p) && SpaceAt(t, p, |t|) == 0
    ensures TrimLowFrom(t, i) == p
    decreases p - i
  {
    if i < p {
      assert SpaceAt(t, i, |t|) == SpaceAt(t, i, p);
      TrimStopsLow(t, i + SpaceAt(t, i, p), p);
    }
  }

  /** Whitespace ends in a whitespace character, whatever comes before it. */
  lemma {:induction false} LastSpace(t: Bytes, low: nat, f: nat, j: nat)
    requires low <= f < j <= |t| && SpaceRange(t, f, j)
    ensures var w := SpaceBefore(t, low, j); w > 0 && f + w <= j && SpaceRange(t, f, j - w)
    decreases j - f
  {
    var first := SpaceAt(t, f, j);
    if f + first < j {
      LastSpace(t, low, f + first, j);
      assert SpaceAt(t, f, j - SpaceBefore(t, low, j)) == first;
    }
  }

  lemma {:induction false} TrimStopsHigh(t: Bytes, low: nat, f: nat, j: nat)
    requires low < f <= j <= |t| && SpaceRange(t, f, j) && Firm(t[f - 1])
    ensures TrimHighFrom(t, low, j) == f
    decreases j
  {
    if f < j {
      LastSpace(t, low, f, j);
      TrimStopsHigh(t, low, f, j - SpaceBefore(t, low, j));
    }
  }

  lemma {:induction false} TrimDotsStops(s: Bytes, n: nat)
    requires 0 < n <= |s| && s[n - 1] != '.' && forall i :: n <= i < |s| ==> s[i] == '.'
    ensures TrimDots(s) == s[..n]
    decreases |s|
  {
    if n == |s| {
      assert s[..n] == s;
    } else {
      var front := s[..|s| - 1];
      TrimDotsStops(front, n);
      assert front[..n] == s[..n];
    }
  }

  lemma HostIsTrimmedText(s: Bytes, at: nat, h: Extent, stop: nat, d: Bytes)
    requires HostAt(s, at, h, stop, d)
    ensures d == LowerAll(TrimDots(Trim(s[at + 1..stop])))
  {
    var text := TrimmedHost(s, at, h, stop, s[at + 1..stop]);
    TextOfHost(s, h, text);
  }

  lemma TrimmedHost(s: Bytes, at: nat, h: Extent, stop: nat, t: Bytes) returns (text: Bytes)
    requires at < h.p < h.f <= stop <= |s| && t == s[at + 1..stop]
    requires SpaceRange(s, at + 1, h.p) && SpaceRange(s, h.f, stop)
    requires Firm(s[h.p]) && Firm(s[h.f - 1])
    ensures text == Trim(t) && text == s[h.p..h.f]
  {
    var from := at + 1;
    text := TrimShifted(s, from, stop, t, h.p, h.f);
    SameSlice(s, from, stop, h.p, h.f);
  }

  lemma SameSlice(s: Bytes, low: nat, high: nat, i: nat, j: nat)
    requires low <= i <= j <= high <= |s|
    ensures s[low..high][i - low..j - low] == s[i..j]
  {
    SliceOfSlice(s, low, high, i - low, j - low);
  }

  lemma TrimShifted(s: Bytes, from: nat, stop: nat, t: Bytes, p: nat, f: nat) returns (text: Bytes)
    requires from <= p < f <= stop <= |s| && t == s[from..stop]
    requires SpaceRange(s, from, p) && SpaceRange(s, f, stop)
    requires Firm(s[p]) && Firm(s[f - 1])
    ensures text == Trim(t) && text == t[p - from..f - from]
  {
    RangesShift(s, from, stop, t, p, f);
    SliceAt(s, from, stop, p);
    SliceAt(s, from, stop, f - 1);
    text := TrimStops(t, p - from, f - from);
  }

  lemma RangesShift(s: Bytes, from: nat, stop: nat, t: Bytes, p: nat, f: nat)
    requires from <= p <= f <= stop <= |s| && t == s[from..stop]
    requires SpaceRange(s, from, p) && SpaceRange(s, f, stop)
    ensures SpaceRange(t, 0, p - from) && SpaceRange(t, f - from, |t|)
  {
    RangeShifts(s, from, p, t, from);
    RangeShifts(s, f, stop, t, from);
  }

  lemma TrimStops(t: Bytes, p: nat, f: nat) returns (text: Bytes)
    requires SpaceRange(t, 0, p) && SpaceRange(t, f, |t|) && p < f <= |t|
    requires Firm(t[p]) && Firm(t[f - 1])
    ensures text == Trim(t) && text == t[p..f]
  {
    TrimStopsLow(t, 0, p);
    TrimStopsHigh(t, p, f, |t|);
    text := t[p..f];
  }

  /** So the domain is the lower-case text between the sole at-sign and the end of
      the address, trimmed of whitespace and then of dots at its end. */
  lemma DomainIsTrimmedText(value: Bytes, d: Bytes) returns (at: nat, stop: nat)
    requires DomainOf(value) == Some(d)
    ensures var m := WithoutComments(Unfolded(value).value).value;
            && SoleAt(m, at) && NoList(m) && at < stop && AddressStop(m, stop)
            && d == LowerAll(TrimDots(Trim(m[at + 1..stop])))
  {
    DomainIsSole(value, d);
    var m, h := WithoutComments(Unfolded(value).value).value, Extent(0, 0, 0);
    at, h, stop :| Outline(m, at, h, stop, d);
    HostIsTrimmedText(m, at, h, stop, d);
  }

  lemma {:induction false} RangeShifts(s: Bytes, i: nat, j: nat, t: Bytes, n: nat)
    requires SpaceRange(s, i, j) && n <= i && j - n <= |t|
    requires forall k :: i <= k < j ==> t[k - n] == s[k]
    ensures SpaceRange(t, i - n, j - n)
    decreases j - i
  {
    if i < j {
      RangeShifts(s, i + SpaceAt(s, i, j), j, t, n);
    }
  }

  lemma TextOfHost(s: Bytes, h: Extent, text: Bytes)
    requires h.p < h.e <= h.f <= |s| && text == s[h.p..h.f] && s[h.e - 1] != '.'
    requires forall i :: h.e <= i < h.f ==> s[i] == '.'
    ensures TrimDots(text) == s[h.p..h.e]
  {
    TrimDotsStops(text, h.e - h.p);
    SliceOfSlice(s, h.p, h.f, 0, h.e - h.p);
    FullSlices(text, h.e - h.p);
  }

  // ----- comments and folds do not matter -----

  /** The inside of a comment by the grammar of section 3.2.2 of RFC 5322: text,
      quoted pairs and comments in parentheses. */
  datatype Body =
    | End
    | Text(b: Byte, rest: Body)
    | Pair(b: Byte, rest: Body)
    | Nested(inner: Body, rest: Body)

  function Inside(body: Body): Bytes {
    match body
    case End => []
    case Text(b, rest) => [b] + Inside(rest)
    case Pair(b, rest) => ['\\', b] + Inside(rest)
    case Nested(inner, rest) => ['('] + Inside(inner) + [')'] + Inside(rest)
  }

  function Render(body: Body): Bytes { ['('] + Inside(body) + [')'] }

  predicate WellFormed(body: Body) {
    match body
    case End => true
    case Text(b, rest) => b != '(' && b != ')' && b != '\\' && WellFormed(rest)
    case Pair(_, rest) => WellFormed(rest)
    case Nested(inner, rest) => WellFormed(inner) && WellFormed(rest)
  }

  /** Inside a comment, what belongs to it leaves no trace. */
  lemma {:induction false} InsideLeavesNoTrace(st: Scan, body: Body)
    requires st.Scan? && st.quote == CLOSED && st.depth > 0 && WellFormed(body)
    ensures ScanRun(st, Inside(body)) == st
    decreases body
  {
    match body
    case End =>
    case Text(b, rest) =>
      ScanRunConcat(st, [b], Inside(rest));
      InsideLeavesNoTrace(st, rest);
    case Pair(b, rest) =>
      PairLeavesNoTrace(st, b);
      ScanRunConcat(st, ['\\', b], Inside(rest));
      InsideLeavesNoTrace(st, rest);
    case Nested(inner, rest) =>
      var deeper := st.(depth := st.depth + 1);
      InsideLeavesNoTrace(deeper, inner);
      ParenthesesAround(st, deeper, Inside(inner));
      ScanRunConcat(st, Render(inner), Inside(rest));
      InsideLeavesNoTrace(st, rest);
  }

  lemma PairLeavesNoTrace(st: Scan, b: Byte)
    requires st.Scan? && st.quote == CLOSED && st.depth > 0
    ensures ScanRun(st, ['\\', b]) == st
  {
    var pair, escaped := ['\\', b], st.(quote := Quote(false, true));
    assert pair[1..] == [b] && ScanStep(escaped, b) == st;
    assert ScanRun(escaped, [b]) == st;
  }

  lemma ParenthesesAround(st: Scan, inside: Scan, text: Bytes)
    requires ScanStep(st, '(') == inside && ScanRun(inside, text) == inside
    ensures ScanRun(st, ['('] + text + [')']) == ScanStep(inside, ')')
  {
    ScanRunConcat(inside, text, [')']);
    var s := ['('] + text + [')'];
    assert s[1..] == text + [')'];
  }

  lemma CommentScansAsSpace(st: Scan, body: Body)
    requires st.Scan? && st.quote == CLOSED && st.depth == 0 && WellFormed(body)
    ensures ScanRun(st, Render(body)) == ScanRun(st, SP)
  {
    var inside := st.(out := st.out + SP, depth := 1);
    InsideLeavesNoTrace(inside, body);
    ParenthesesAround(st, inside, Inside(body));
  }

  /** A comment outside quotes and other comments reads as one space. */
  lemma CommentIsSpace(before: Bytes, c: Body, after: Bytes)
    requires var st := ScanRun(SCAN_START, before); st.Scan? && st.quote == CLOSED && st.depth == 0
    requires WellFormed(c)
    ensures UnfoldedDomain(before + Render(c) + after) == UnfoldedDomain(before + SP + after)
  {
    CommentScansAsSpace(ScanRun(SCAN_START, before), c);
    ScanRunConcat(SCAN_START, before, Render(c));
    ScanRunConcat(SCAN_START, before, SP);
    ScanRunConcat(SCAN_START, before + Render(c), after);
    ScanRunConcat(SCAN_START, before + SP, after);
    assert WithoutComments(before + Render(c) + after) == WithoutComments(before + SP + after);
  }

  predicate EndsWithCrlf(s: Bytes) { |s| >= 2 && s[|s| - 2] == '\r' && s[|s| - 1] == '\n' }

  lemma FoldTails(before: Bytes, w: Byte, after: Bytes, n: nat)
    requires n <= |before|
    ensures (before + CRLF + [w] + after)[n..] == before[n..] + CRLF + [w] + after
    ensures (before + [w] + after)[n..] == before[n..] + [w] + after
  {
  }

  lemma {:induction false} FoldUnfolds(before: Bytes, w: Byte, after: Bytes)
    requires IsWsp(w)
    ensures Unfolded(before + CRLF + [w] + after)
         == if EndsWithCrlf(before) then None else Unfolded(before + [w] + after)
    decreases |before|
  {
    var folded, plain := before + CRLF + [w] + after, before + [w] + after;
    if before == [] {
      assert folded[2..] == plain;
    } else if before[0] == '\r' {
      if |before| >= 3 && before[1] == '\n' && IsWsp(before[2]) {
        FoldUnfolds(before[2..], w, after);
        FoldTails(before, w, after, 2);
      } else if |before| == 1 {
        assert folded[1] == '\r' && plain[1] == w;
      } else if |before| == 2 {
        assert folded[2] == '\r';
      }
    } else if !IsAsciiControl(before[0]) || before[0] == '\t' {
      FoldUnfolds(before[1..], w, after);
      FoldTails(before, w, after, 1);
    }
  }

  /** Folding a field before any whitespace changes nothing, unless the break
      would follow another line break: then the field is rejected. */
  lemma FoldIsInvisible(before: Bytes, w: Byte, after: Bytes)
    requires IsWsp(w)
    ensures DomainOf(before + CRLF + [w] + after)
         == if EndsWithCrlf(before) then None else DomainOf(before + [w] + after)
  {
    FoldUnfolds(before, w, after);
  }
}
