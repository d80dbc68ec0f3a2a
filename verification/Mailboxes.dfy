/** Extraction of the domain of a From field (src/dkim.rs, from_domain). */
module Mailboxes {
  import opened ByteStrings

  // ----- text as Rust's str sees it -----

  predicate Within(b: Byte, low: int, high: int) { low <= b as int <= high }

  predicate Continuation(b: Byte) { Within(b, 0x80, 0xBF) }

  /** Well-formed UTF-8. */
  predicate Utf8(s: Bytes) {
    if s == [] then true
    else if Within(s[0], 0, 0x7F) then Utf8(s[1..])
    else if |s| >= 2 && Within(s[0], 0xC2, 0xDF) then Continuation(s[1]) && Utf8(s[2..])
    else if |s| >= 3 && Within(s[0], 0xE0, 0xEF) then
      && Continuation(s[1]) && Continuation(s[2])
      && (Within(s[0], 0xE0, 0xE0) ==> Within(s[1], 0xA0, 0xBF))
      && (Within(s[0], 0xED, 0xED) ==> Within(s[1], 0x80, 0x9F))
      && Utf8(s[3..])
    else if |s| >= 4 && Within(s[0], 0xF0, 0xF4) then
      && Continuation(s[1]) && Continuation(s[2]) && Continuation(s[3])
      && (Within(s[0], 0xF0, 0xF0) ==> Within(s[1], 0x90, 0xBF))
      && (Within(s[0], 0xF4, 0xF4) ==> Within(s[1], 0x80, 0x8F))
      && Utf8(s[4..])
    else false
  }

  predicate IsSpace1(a: Byte) { a == ' ' || '\t' <= a <= '\r' }

  predicate IsSpace2(a: Byte, b: Byte) {
    Within(a, 0xC2, 0xC2) && (Within(b, 0x85, 0x85) || Within(b, 0xA0, 0xA0))
  }

  predicate IsSpace3(a: Byte, b: Byte, c: Byte) {
    || (Within(a, 0xE1, 0xE1) && Within(b, 0x9A, 0x9A) && Within(c, 0x80, 0x80))
    || (Within(a, 0xE2, 0xE2) && Within(b, 0x80, 0x80)
        && (Within(c, 0x80, 0x8A) || Within(c, 0xA8, 0xA9) || Within(c, 0xAF, 0xAF)))
    || (Within(a, 0xE2, 0xE2) && Within(b, 0x81, 0x81) && Within(c, 0x9F, 0x9F))
    || (Within(a, 0xE3, 0xE3) && Within(b, 0x80, 0x80) && Within(c, 0x80, 0x80))
  }

  /** The length of the whitespace character that starts at `i`, or 0 when none
      does within `s[i..j]`. */
  function SpaceAt(s: Bytes, i: nat, j: nat): nat
    requires i <= j <= |s|
  {
    if j - i >= 1 && IsSpace1(s[i]) then 1
    else if j - i >= 2 && IsSpace2(s[i], s[i + 1]) then 2
    else if j - i >= 3 && IsSpace3(s[i], s[i + 1], s[i + 2]) then 3
    else 0
  }

  /** The length of the whitespace character that ends at `j`, likewise. */
  function SpaceBefore(s: Bytes, i: nat, j: nat): nat
    requires i <= j <= |s|
  {
    if j - i >= 1 && IsSpace1(s[j - 1]) then 1
    else if j - i >= 2 && IsSpace2(s[j - 2], s[j - 1]) then 2
    else if j - i >= 3 && IsSpace3(s[j - 3], s[j - 2], s[j - 1]) then 3
    else 0
  }

  function TrimLowFrom(s: Bytes, i: nat): (low: nat)
    requires i <= |s|
    ensures i <= low <= |s|
    decreases |s| - i
  {
    var w := SpaceAt(s, i, |s|);
    if w == 0 then i else TrimLowFrom(s, i + w)
  }

  function TrimHighFrom(s: Bytes, low: nat, j: nat): (high: nat)
    requires low <= j <= |s|
    ensures low <= high <= j
    decreases j
  {
    var w := SpaceBefore(s, low, j);
    if w == 0 then j else TrimHighFrom(s, low, j - w)
  }

  /** Where the trimmed part of `s` starts and ends. */
  function TrimLow(s: Bytes): (low: nat)
    ensures low <= |s|
  {
    TrimLowFrom(s, 0)
  }

  function TrimEndIndex(s: Bytes): (high: nat)
    ensures TrimLow(s) <= high <= |s|
  {
    TrimHighFrom(s, TrimLow(s), |s|)
  }

  function Trim(s: Bytes): Bytes { s[TrimLow(s)..TrimEndIndex(s)] }

  /** From `i` to `j` there are whole whitespace characters and nothing else. */
  predicate SpaceRange(s: Bytes, i: nat, j: nat)
    decreases j - i
  {
    i <= j <= |s| && (i == j || (SpaceAt(s, i, j) > 0 && SpaceRange(s, i + SpaceAt(s, i, j), j)))
  }

  lemma {:induction false} RangesJoin(s: Bytes, i: nat, j: nat, k: nat)
    requires SpaceRange(s, i, j) && SpaceRange(s, j, k)
    ensures SpaceRange(s, i, k)
    decreases j - i
  {
    if i < j {
      RangesJoin(s, i + SpaceAt(s, i, j), j, k);
    }
  }

  /** What is whitespace in a text is whitespace wherever that text stands. */
  lemma {:induction false} RangeMoves(t: Bytes, i: nat, j: nat, s: Bytes, low: nat)
    requires SpaceRange(t, i, j) && low + j <= |s|
    requires forall k :: i <= k < j ==> t[k] == s[low + k]
    ensures SpaceRange(s, low + i, low + j)
    decreases j - i
  {
    if i < j {
      RangeMoves(t, i + SpaceAt(t, i, j), j, s, low);
    }
  }

  lemma {:induction false} LowIsSpace(s: Bytes, i: nat)
    requires i <= |s|
    ensures SpaceRange(s, i, TrimLowFrom(s, i))
    decreases |s| - i
  {
    var w := SpaceAt(s, i, |s|);
    if w > 0 {
      LowIsSpace(s, i + w);
    }
  }

  lemma {:induction false} HighIsSpace(s: Bytes, low: nat, j: nat)
    requires low <= j <= |s|
    ensures SpaceRange(s, TrimHighFrom(s, low, j), j)
    decreases j
  {
    var w := SpaceBefore(s, low, j);
    if w > 0 {
      HighIsSpace(s, low, j - w);
      assert SpaceAt(s, j - w, j) == w;
      RangesJoin(s, TrimHighFrom(s, low, j), j - w, j);
    }
  }

  /** Trimming takes whole whitespace characters off both ends. */
  lemma TrimmedEnds(s: Bytes)
    ensures SpaceRange(s, 0, TrimLow(s)) && SpaceRange(s, TrimEndIndex(s), |s|)
  {
    LowIsSpace(s, 0);
    HighIsSpace(s, TrimLow(s), |s|);
  }

  /** A byte of whitespace, or of any other character that is not ASCII. */
  predicate IsBlankByte(b: Byte) { IsSpace1(b) || !IsAscii(b) }

  predicate BlankRange(s: Bytes, from: nat, to: nat)
    requires to <= |s|
  {
    forall i :: from <= i < to ==> IsBlankByte(s[i])
  }

  lemma {:induction false} RangeIsBlank(s: Bytes, i: nat, j: nat)
    requires SpaceRange(s, i, j)
    ensures BlankRange(s, i, j)
    decreases j - i
  {
    if i < j {
      RangeIsBlank(s, i + SpaceAt(s, i, j), j);
    }
  }

  // ----- quoting -----

  datatype Quote = Quote(quoted: bool, escaped: bool)

  const CLOSED := Quote(false, false)

  function QuoteStep(q: Quote, b: Byte): Quote {
    if q.escaped then Quote(q.quoted, false)
    else if q.quoted && b == '\\' then Quote(true, true)
    else if b == '"' then Quote(!q.quoted, false)
    else q
  }

  function QuoteRun(q: Quote, s: Bytes): Quote
    decreases |s|
  {
    if s == [] then q else QuoteRun(QuoteStep(q, s[0]), s[1..])
  }

  lemma {:induction false} QuoteRunConcat(q: Quote, a: Bytes, b: Bytes)
    ensures QuoteRun(q, a + b) == QuoteRun(QuoteRun(q, a), b)
    decreases |a|
  {
    if a == [] {
      assert a + b == b;
    } else {
      assert (a + b)[1..] == a[1..] + b;
      QuoteRunConcat(QuoteStep(q, a[0]), a[1..], b);
    }
  }

  lemma QuoteRunSnoc(q: Quote, s: Bytes, i: nat)
    requires i < |s|
    ensures QuoteRun(q, s[..i + 1]) == QuoteStep(QuoteRun(q, s[..i]), s[i])
  {
    QuoteRunConcat(q, s[..i], [s[i]]);
    assert s[..i + 1] == s[..i] + [s[i]];
  }

  // ----- first pass: unfolding -----

  function Unfolded(value: Bytes): Option<Bytes>
    decreases |value|
  {
    if value == [] then Some([])
    else if value[0] == '\r' then
      if |value| >= 3 && value[1] == '\n' && IsWsp(value[2]) then Unfolded(value[2..]) else None
    else if IsAsciiControl(value[0]) && value[0] != '\t' then None
    else
      var rest := Unfolded(value[1..]);
      if rest.Some? then Some([value[0]] + rest.value) else None
  }

  method Unfold(value: Bytes) returns (unfolded: Option<Bytes>)
    ensures unfolded == Unfolded(value)
  {
    var out: Bytes := [];
    var index: nat := 0;
    ghost var whole := Unfolded(value);
    assert value[0..] == value && (whole.Some? ==> out + whole.value == whole.value);
    while index < |value|
      invariant 0 <= index <= |value|
      invariant var rest := Unfolded(value[index..]);
                Unfolded(value) == if rest.Some? then Some(out + rest.value) else None
      decreases |value| - index
    {
      var byte := value[index];
      assert value[index..][1..] == value[index + 1..];
      if byte == '\r' {
        if !(index + 1 < |value| && value[index + 1] == '\n')
           || !(index + 2 < |value| && IsWsp(value[index + 2])) {
          return None;
        }
        assert value[index..][2..] == value[index + 2..];
        index := index + 2;
        continue;
      }
      if IsAsciiControl(byte) && byte != '\t' {
        return None;
      }
      ghost var rest := Unfolded(value[index + 1..]);
      assert rest.Some? ==> out + ([byte] + rest.value) == out + [byte] + rest.value;
      out := out + [byte];
      index := index + 1;
    }
    assert out + [] == out;
    return Some(out);
  }

  // ----- second pass: comments -----

  datatype Scan = Scan(out: Bytes, quote: Quote, depth: nat) | Malformed

  function ScanStep(st: Scan, b: Byte): Scan {
    if st.Malformed? then st
    else if st.quote.escaped then
      st.(out := if st.depth == 0 then st.out + [b] else st.out, quote := st.quote.(escaped := false))
    else if st.depth > 0 then
      if b == '\\' then st.(quote := st.quote.(escaped := true))
      else if b == '(' then st.(depth := st.depth + 1)
      else if b == ')' then st.(depth := st.depth - 1)
      else st
    else if st.quote.quoted then
      st.(out := st.out + [b],
          quote := if b == '\\' then Quote(true, true) else if b == '"' then CLOSED else st.quote)
    else if b == '(' then st.(out := st.out + SP, depth := 1)
    else if b == ')' then Malformed
    else st.(out := st.out + [b], quote := if b == '"' then Quote(true, false) else st.quote)
  }

  function ScanRun(st: Scan, s: Bytes): Scan
    decreases |s|
  {
    if s == [] then st else ScanRun(ScanStep(st, s[0]), s[1..])
  }

  const SCAN_START := Scan([], CLOSED, 0)

  function Accepted(st: Scan): Option<Bytes> {
    if st.Scan? && st.quote == CLOSED && st.depth == 0 then Some(st.out) else None
  }

  function WithoutComments(unfolded: Bytes): Option<Bytes> { Accepted(ScanRun(SCAN_START, unfolded)) }

  /** Also gives the quoting flags the next pass starts with. */
  method StripComments(unfolded: Bytes) returns (mailbox: Option<Bytes>, quoted: bool, escaped: bool)
    ensures mailbox == WithoutComments(unfolded)
    ensures mailbox.Some? ==> Quote(quoted, escaped) == CLOSED
  {
    var out: Bytes := [];
    quoted, escaped := false, false;
    var commentDepth: nat := 0;
    for i := 0 to |unfolded|
      invariant ScanRun(Scan(out, Quote(quoted, escaped), commentDepth), unfolded[i..])
             == ScanRun(SCAN_START, unfolded)
      invariant commentDepth <= i
    {
      var byte := unfolded[i];
      assert unfolded[i..][1..] == unfolded[i + 1..];
      if escaped {
        if commentDepth == 0 {
          out := out + [byte];
        }
        escaped := false;
        continue;
      }
      if commentDepth > 0 {
        match byte
        case '\\' => escaped := true;
        case '(' => commentDepth := commentDepth + 1;
        case ')' => commentDepth := commentDepth - 1;
        case _ =>
      } else if quoted {
        out := out + [byte];
        match byte
        case '\\' => escaped := true;
        case '"' => quoted := false;
        case _ =>
      } else {
        match byte
        case '(' =>
          commentDepth := 1;
          out := out + SP;
        case ')' =>
          MalformedStays(unfolded[i + 1..]);
          return None, quoted, escaped;
        case '"' =>
          quoted := true;
          out := out + [byte];
        case _ =>
          out := out + [byte];
      }
    }
    if quoted || escaped || commentDepth != 0 {
      return None, quoted, escaped;
    }
    return Some(out), quoted, escaped;
  }

  lemma MalformedStays(s: Bytes)
    ensures ScanRun(Malformed, s) == Malformed
  {
  }

  // ----- third pass: angle brackets -----

  datatype Angles = Angles(start: Option<nat>, end: Option<nat>) {
    /** The brackets found lie in order within the first `n` bytes. */
    predicate InOrder(n: nat) {
      && (start.Some? ==> start.value < n)
      && (end.Some? ==> start.Some? && start.value < end.value < n)
    }
  }

  const NO_ANGLES := Angles(None, None)

  /** Structure that only a list or a group of mailboxes has. */
  predicate IsListByte(b: Byte) { b == ',' || b == ':' || b == ';' }

  /** Byte `i` of the text, met outside quotes; None rejects the field. */
  function AngleStep(a: Angles, b: Byte, i: nat): Option<Angles> {
    if b == '<' && a.start.None? then Some(a.(start := Some(i)))
    else if b == '>' && a.start.Some? && a.end.None? then Some(a.(end := Some(i)))
    else if b == '<' || b == '>' || IsListByte(b) then None
    else Some(a)
  }

  function AnglesFrom(text: Bytes, i: nat, q: Quote, a: Angles): (r: Option<Angles>)
    requires i <= |text| && a.InOrder(i)
    ensures r.Some? ==> r.value.InOrder(|text|)
    decreases |text| - i
  {
    if i == |text| then Some(a)
    else
      var next := QuoteStep(q, text[i]);
      if q == CLOSED && text[i] != '"' then
        var step := AngleStep(a, text[i], i);
        if step.None? then None else AnglesFrom(text, i + 1, next, step.value)
      else AnglesFrom(text, i + 1, next, a)
  }

  predicate WellQuoted(q: Quote) { q.escaped ==> q.quoted }

  method FindAngles(text: Bytes, quoted0: bool, escaped0: bool)
    returns (angles: Option<Angles>, quoted: bool, escaped: bool)
    requires Quote(quoted0, escaped0) == CLOSED
    ensures angles == AnglesFrom(text, 0, CLOSED, NO_ANGLES)
    ensures angles.Some? ==> Quote(quoted, escaped) == QuoteRun(CLOSED, text)
  {
    quoted, escaped := quoted0, escaped0;
    var start: Option<nat>, end: Option<nat> := None, None;
    for index := 0 to |text|
      invariant WellQuoted(Quote(quoted, escaped))
      invariant Quote(quoted, escaped) == QuoteRun(CLOSED, text[..index])
      invariant Angles(start, end).InOrder(index)
      invariant AnglesFrom(text, index, Quote(quoted, escaped), Angles(start, end))
             == AnglesFrom(text, 0, CLOSED, NO_ANGLES)
    {
      var byte := text[index];
      QuoteRunSnoc(CLOSED, text, index);
      if escaped {
        escaped := false;
      } else if quoted && byte == '\\' {
        escaped := true;
      } else if byte == '"' {
        quoted := !quoted;
      } else if !quoted {
        if byte == '<' && start.None? {
          start := Some(index);
        } else if byte == '>' && start.Some? && end.None? {
          end := Some(index);
        } else if byte == '<' || byte == '>' || IsListByte(byte) {
          return None, quoted, escaped;
        }
      }
    }
    assert text[..|text|] == text;
    return Some(Angles(start, end)), quoted, escaped;
  }

  // ----- fourth pass: the separator -----

  datatype Separator = Unseen | At(index: nat)

  function SeparatorFrom(address: Bytes, i: nat, q: Quote, found: Separator): (r: Option<Separator>)
    requires i <= |address| && (found.At? ==> found.index < i)
    ensures r.Some? && r.value.At? ==> r.value.index < |address|
    decreases |address| - i
  {
    if i == |address| then Some(found)
    else
      var next := QuoteStep(q, address[i]);
      if q == CLOSED && address[i] == '@' then
        if found.At? then None else SeparatorFrom(address, i + 1, next, At(i))
      else SeparatorFrom(address, i + 1, next, found)
  }

  method FindSeparator(address: Bytes, quoted0: bool, escaped0: bool) returns (r: Option<Separator>)
    requires Quote(quoted0, escaped0) == CLOSED
    ensures r == SeparatorFrom(address, 0, CLOSED, Unseen)
  {
    var quoted, escaped := quoted0, escaped0;
    var separator := Unseen;
    for index := 0 to |address|
      invariant WellQuoted(Quote(quoted, escaped))
      invariant separator.At? ==> separator.index < index
      invariant SeparatorFrom(address, index, Quote(quoted, escaped), separator)
             == SeparatorFrom(address, 0, CLOSED, Unseen)
    {
      var byte := address[index];
      if escaped {
        escaped := false;
      } else if quoted && byte == '\\' {
        escaped := true;
      } else if byte == '"' {
        quoted := !quoted;
      } else if !quoted && byte == '@' {
        if separator.At? {
          return None;
        }
        separator := At(index);
      }
    }
    return Some(separator);
  }

  // ----- the parts of a mailbox -----

  /** Letters, digits and the 19 signs that section 3.2.3 of RFC 5322 allows. */
  predicate IsAtomByte(b: Byte) {
    || IsAlnum(b) || b == '!' || '#' <= b <= '\'' || b == '*' || b == '+' || b == '-' || b == '/'
    || b == '=' || b == '?' || '^' <= b <= '`' || '{' <= b <= '~'
  }

  predicate IsAsciiSpace(b: Byte) { b == ' ' || b == '\t' || b == '\n' || b == '\r' || b as int == 0x0C }

  predicate DisplayByte(b: Byte) { IsAtomByte(b) || b == '.' || IsAsciiSpace(b) || !IsAscii(b) }

  predicate DisplayFrom(s: Bytes, q: Quote)
    decreases |s|
  {
    if s == [] then q == CLOSED
    else
      && (if q.escaped then !IsAsciiControl(s[0])
          else if q.quoted then s[0] == '"' || s[0] == '\\' || !IsAsciiControl(s[0]) || s[0] == '\t'
          else s[0] == '"' || DisplayByte(s[0]))
      && DisplayFrom(s[1..], QuoteStep(q, s[0]))
  }

  method DisplayName(value: Bytes) returns (ok: bool)
    ensures ok <==> DisplayFrom(value, CLOSED)
  {
    var quoted, escaped := false, false;
    for i := 0 to |value|
      invariant WellQuoted(Quote(quoted, escaped))
      invariant DisplayFrom(value[i..], Quote(quoted, escaped)) <==> DisplayFrom(value, CLOSED)
    {
      var byte := value[i];
      assert value[i..][1..] == value[i + 1..];
      if escaped {
        if IsAsciiControl(byte) {
          return false;
        }
        escaped := false;
      } else if quoted {
        if byte == '\\' {
          escaped := true;
        } else if byte == '"' {
          quoted := false;
        } else if IsAsciiControl(byte) && byte != '\t' {
          return false;
        }
      } else if byte == '"' {
        quoted := true;
      } else if !IsAtomByte(byte) && byte != '.' && !IsAsciiSpace(byte) && IsAscii(byte) {
        return false;
      }
    }
    return !quoted && !escaped;
  }

  /** The rest of a quoted local part, up to its closing quote at the very end. */
  predicate QuotedLocalFrom(s: Bytes, escaped: bool) {
    s != [] && (!IsAsciiControl(s[0]) || s[0] == '\t')
    && (if escaped then QuotedLocalFrom(s[1..], false)
        else if s[0] == '\\' then QuotedLocalFrom(s[1..], true)
        else if s[0] == '"' then |s| == 1
        else QuotedLocalFrom(s[1..], false))
  }

  predicate IsAtom(part: Bytes) { part != [] && forall b :: b in part ==> IsAtomByte(b) }

  predicate IsLocalPart(value: Bytes) {
    if value != [] && value[0] == '"' then QuotedLocalFrom(value[1..], false)
    else value != [] && forall part :: part in Split(value, '.') ==> IsAtom(part)
  }

  method LocalPart(value: Bytes) returns (ok: bool)
    ensures ok <==> IsLocalPart(value)
  {
    if value != [] && value[0] == '"' {
      var escaped := false;
      for index := 1 to |value|
        invariant QuotedLocalFrom(value[index..], escaped) <==> IsLocalPart(value)
      {
        var byte := value[index];
        assert value[index..][1..] == value[index + 1..];
        if IsAsciiControl(byte) && byte != '\t' {
          return false;
        }
        if escaped {
          escaped := false;
        } else if byte == '\\' {
          escaped := true;
        } else if byte == '"' {
          return index == |value| - 1;
        }
      }
      return false;
    }
    if value == [] {
      return false;
    }
    var parts := Split(value, '.');
    for i := 0 to |parts|
      invariant forall k :: 0 <= k < i ==> IsAtom(parts[k])
    {
      if parts[i] == [] {
        assert parts[i] in parts;
        return false;
      }
      for k := 0 to |parts[i]|
        invariant forall b :: b in parts[i][..k] ==> IsAtomByte(b)
      {
        if !IsAtomByte(parts[i][k]) {
          assert parts[i][k] in parts[i] && parts[i] in parts;
          return false;
        }
      }
      assert parts[i][..|parts[i]|] == parts[i];
    }
    assert forall part :: part in parts ==> IsAtom(part);
    return true;
  }

  predicate IsHostByte(b: Byte) { IsAlnum(b) || b == '-' || b == '.' }

  // ----- the passes agree on what is quoted -----

  /** The state a later pass has after the bytes a scan has put out. */
  ghost predicate Agrees(st: Scan) {
    st.Scan? ==>
      && QuoteRun(CLOSED, st.out) == (if st.depth == 0 then st.quote else CLOSED)
      && (if st.depth == 0 then WellQuoted(st.quote) else !st.quote.quoted)
  }

  lemma ScanStepAgrees(st: Scan, b: Byte)
    requires Agrees(st)
    ensures Agrees(ScanStep(st, b))
  {
    if st.Scan? {
      QuoteRunConcat(CLOSED, st.out, [b]);
      QuoteRunConcat(CLOSED, st.out, SP);
    }
  }

  lemma {:induction false} ScanRunAgrees(st: Scan, s: Bytes)
    requires Agrees(st)
    ensures Agrees(ScanRun(st, s))
    decreases |s|
  {
    if s != [] {
      ScanStepAgrees(st, s[0]);
      ScanRunAgrees(ScanStep(st, s[0]), s[1..]);
    }
  }

  lemma StrippedIsBalanced(unfolded: Bytes)
    requires WithoutComments(unfolded).Some?
    ensures QuoteRun(CLOSED, WithoutComments(unfolded).value) == CLOSED
  {
    ScanRunAgrees(SCAN_START, unfolded);
  }

  /** Bytes that are neither quotes nor backslashes leave closed quotes closed,
      and can only end an escape. */
  lemma {:induction false} BlanksKeepQuotes(q: Quote, s: Bytes)
    requires WellQuoted(q) && BlankRange(s, 0, |s|)
    ensures WellQuoted(QuoteRun(q, s)) && QuoteRun(q, s).quoted == q.quoted
    decreases |s|
  {
    if s != [] {
      BlanksKeepQuotes(QuoteStep(q, s[0]), s[1..]);
    }
  }

  lemma {:induction false} RunIsWellQuoted(q: Quote, s: Bytes)
    requires WellQuoted(q)
    ensures WellQuoted(QuoteRun(q, s))
    decreases |s|
  {
    if s != [] {
      RunIsWellQuoted(QuoteStep(q, s[0]), s[1..]);
    }
  }

  /** Trimming a balanced text cuts at places that are outside quotes. */
  lemma TrimmedIsBalanced(s: Bytes)
    requires QuoteRun(CLOSED, s) == CLOSED
    ensures QuoteRun(CLOSED, s[..TrimLow(s)]) == CLOSED
    ensures QuoteRun(CLOSED, s[..TrimEndIndex(s)]) == CLOSED
    ensures QuoteRun(CLOSED, Trim(s)) == CLOSED
  {
    var low, high := TrimLow(s), TrimEndIndex(s);
    TrimmedEnds(s);
    RangeIsBlank(s, 0, low);
    RangeIsBlank(s, high, |s|);
    BalancedParts(s, low, high);
  }

  lemma BalancedParts(s: Bytes, low: nat, high: nat)
    requires low <= high <= |s| && QuoteRun(CLOSED, s) == CLOSED
    requires BlankRange(s, 0, low) && BlankRange(s, high, |s|)
    ensures QuoteRun(CLOSED, s[..low]) == QuoteRun(CLOSED, s[..high]) == QuoteRun(CLOSED, s[low..high]) == CLOSED
  {
    BlanksKeepQuotes(CLOSED, s[..low]);
    assert s[..low] + s[low..high] == s[..high] && s[..high] + s[high..] == s;
    QuoteRunConcat(CLOSED, s[..low], s[low..high]);
    QuoteRunConcat(CLOSED, s[..high], s[high..]);
    RunIsWellQuoted(CLOSED, s[..high]);
    BlanksKeepQuotes(QuoteRun(CLOSED, s[..high]), s[high..]);
  }

  /** The domain of an address outside of which the field holds nothing else. */
  function AddressDomain(address: Bytes): Option<Bytes> {
    var found := SeparatorFrom(address, 0, CLOSED, Unseen);
    if found.None? || found.value.Unseen? then None
    else
      var at := found.value.index;
      var domain := TrimDots(Trim(address[at + 1..]));
      if IsLocalPart(Trim(address[..at])) && domain != [] && forall b :: b in domain ==> IsHostByte(b)
      then Some(LowerAll(domain)) else None
  }

  /** Before the brackets only a display phrase, after them only whitespace. */
  function BracketDomain(text: Bytes, start: nat, end: nat): Option<Bytes>
    requires start < end < |text|
  {
    if DisplayFrom(text[..start], CLOSED) && |Trim(text[end + 1..])| == 0
    then AddressDomain(Trim(text[start + 1..end])) else None
  }

  function MailboxDomain(text: Bytes): Option<Bytes> {
    var angles := AnglesFrom(text, 0, CLOSED, NO_ANGLES);
    if angles.None? then None
    else if angles.value.end.Some? then BracketDomain(text, angles.value.start.value, angles.value.end.value)
    else if angles.value.start.None? then AddressDomain(text)
    else None
  }

  function UnfoldedDomain(unfolded: Bytes): Option<Bytes> {
    var mailbox := WithoutComments(unfolded);
    if mailbox.Some? && Utf8(mailbox.value) then MailboxDomain(Trim(mailbox.value)) else None
  }

  function DomainOf(value: Bytes): Option<Bytes> {
    var unfolded := Unfolded(value);
    if unfolded.Some? then UnfoldedDomain(unfolded.value) else None
  }

  method FromAddress(address: Bytes, quoted: bool, escaped: bool) returns (domain: Option<Bytes>)
    requires Quote(quoted, escaped) == CLOSED
    ensures domain == AddressDomain(address)
  {
    var separator := FindSeparator(address, quoted, escaped);
    if separator.None? || separator.value.Unseen? {
      return None;
    }
    var at := separator.value.index;
    var local := LocalPart(Trim(address[..at]));
    var host := TrimDots(Trim(address[at + 1..]));
    if !local || host == [] || exists b :: b in host && !IsHostByte(b) {
      return None;
    }
    return Some(LowerAll(host));
  }

  method FromBrackets(text: Bytes, start: nat, end: nat, quoted: bool, escaped: bool)
    returns (domain: Option<Bytes>)
    requires start < end < |text| && Quote(quoted, escaped) == CLOSED
    ensures domain == BracketDomain(text, start, end)
  {
    var display := DisplayName(text[..start]);
    if !display || |Trim(text[end + 1..])| != 0 {
      return None;
    }
    domain := FromAddress(Trim(text[start + 1..end]), quoted, escaped);
  }

  method FromText(text: Bytes, quoted0: bool, escaped0: bool) returns (domain: Option<Bytes>)
    requires Quote(quoted0, escaped0) == QuoteRun(CLOSED, text) == CLOSED
    ensures domain == MailboxDomain(text)
  {
    var angles, quoted, escaped := FindAngles(text, quoted0, escaped0);
    if angles.None? {
      return None;
    }
    match (angles.value.start, angles.value.end) {
      case (Some(start), Some(end)) =>
        domain := FromBrackets(text, start, end, quoted, escaped);
      case (None, None) =>
        domain := FromAddress(text, quoted, escaped);
      case _ =>
        domain := None;
    }
  }

  method FromDomain(value: Bytes) returns (domain: Option<Bytes>)
    ensures domain == DomainOf(value)
  {
    var unfolded := Unfold(value);
    if unfolded.None? {
      return None;
    }
    var mailbox, quoted, escaped := StripComments(unfolded.value);
    if mailbox.None? || !Utf8(mailbox.value) {
      return None;
    }
    StrippedIsBalanced(unfolded.value);
    TrimmedIsBalanced(mailbox.value);
    domain := FromText(Trim(mailbox.value), quoted, escaped);
  }
}
