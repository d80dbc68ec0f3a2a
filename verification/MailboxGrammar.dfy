/** A grammar of From fields, written without the program's scans, and the proof
    that the program accepts exactly what it describes. */
module MailboxGrammar {
  import opened ByteStrings
  import opened HeaderCanonicalizers
  import opened Mailboxes
  import opened MailboxProperties

  // ----- folding -----

  /** No control characters but tabs and line ends. */
  predicate NoControls(s: Bytes) {
    forall i :: 0 <= i < |s| ==>
      s[i] == '\t' || s[i] == '\r' || s[i] == '\n' || (s[i] as int >= 0x20 && s[i] as int != 0x7F)
  }

  lemma NoControlsFrom(s: Bytes, n: nat)
    requires n <= |s|
    ensures NoControls(s) <==> NoControls(s[..n]) && NoControls(s[n..])
  {
    assert forall i :: n <= i < |s| ==> s[n..][i - n] == s[i];
    assert forall i :: 0 <= i < n ==> s[..n][i] == s[i];
  }

  /** Unfolding accepts exactly the legally folded values without control
      characters, and deletes exactly the line ends before whitespace. */
  lemma {:induction false} UnfoldsExactly(value: Bytes)
    ensures Unfolded(value) == if LegallyFolded(value) && NoControls(value) then Some(DeleteFolds(value)) else None
    decreases |value|
  {
    if value != [] {
      var n := if value[0] == '\r' then 2 else 1;
      if n <= |value| {
        NoControlsFrom(value, n);
        UnfoldsExactly(value[n..]);
      }
    }
  }

  // ----- quoted strings and comments -----

  /** The inside of a quoted string: characters and quoted pairs. */
  datatype Chars =
    | NoChars
    | Char(b: Byte, rest: Chars)
    | Escaped(b: Byte, rest: Chars)

  function CharsBytes(cs: Chars): Bytes {
    match cs
    case NoChars => []
    case Char(b, rest) => [b] + CharsBytes(rest)
    case Escaped(b, rest) => ['\\', b] + CharsBytes(rest)
  }

  predicate ValidChars(cs: Chars) {
    match cs
    case NoChars => true
    case Char(b, rest) => b != '"' && b != '\\' && ValidChars(rest)
    case Escaped(_, rest) => ValidChars(rest)
  }

  function InQuotes(cs: Chars): Bytes { ['"'] + CharsBytes(cs) + ['"'] }

  /** A field: bytes, quoted strings and comments. */
  datatype Items =
    | NoItems
    | Bare(b: Byte, rest: Items)
    | Quoted(cs: Chars, rest: Items)
    | Commented(body: Body, rest: Items)

  predicate ValidItems(items: Items) {
    match items
    case NoItems => true
    case Bare(b, rest) => b != '"' && b != '(' && b != ')' && ValidItems(rest)
    case Quoted(cs, rest) => ValidChars(cs) && ValidItems(rest)
    case Commented(body, rest) => WellFormed(body) && ValidItems(rest)
  }

  function Source(items: Items): Bytes {
    match items
    case NoItems => []
    case Bare(b, rest) => [b] + Source(rest)
    case Quoted(cs, rest) => InQuotes(cs) + Source(rest)
    case Commented(body, rest) => Render(body) + Source(rest)
  }

  /** With a space for each comment. */
  function Stripped(items: Items): Bytes {
    match items
    case NoItems => []
    case Bare(b, rest) => [b] + Stripped(rest)
    case Quoted(cs, rest) => InQuotes(cs) + Stripped(rest)
    case Commented(body, rest) => SP + Stripped(rest)
  }

  const INNER := Quote(true, false)

  lemma {:induction false} CharsScan(out: Bytes, cs: Chars)
    requires ValidChars(cs)
    ensures ScanRun(Scan(out, INNER, 0), CharsBytes(cs)) == Scan(out + CharsBytes(cs), INNER, 0)
    decreases cs
  {
    var st := Scan(out, INNER, 0);
    match cs
    case NoChars =>
      assert out + [] == out;
    case Char(b, rest) =>
      CharsScan(out + [b], rest);
      ScanOne(st, b);
      ScanRunConcat(st, [b], CharsBytes(rest));
      ConcatAssoc(out, [b], CharsBytes(rest));
    case Escaped(b, rest) =>
      CharsScan(out + ['\\', b], rest);
      ScanPair(out, b);
      ScanRunConcat(st, ['\\', b], CharsBytes(rest));
      ConcatAssoc(out, ['\\', b], CharsBytes(rest));
  }

  lemma ScanOne(st: Scan, b: Byte)
    ensures ScanRun(st, [b]) == ScanStep(st, b)
  {
    assert [b][1..] == [];
  }

  lemma ScanPair(out: Bytes, b: Byte)
    ensures ScanRun(Scan(out, INNER, 0), ['\\', b]) == Scan(out + ['\\', b], INNER, 0)
  {
    var st, pair := Scan(out, INNER, 0), ['\\', b];
    assert pair[1..] == [b];
    ScanOne(ScanStep(st, '\\'), b);
    assert out + ['\\'] + [b] == out + pair;
  }

  lemma QuotesScan(out: Bytes, cs: Chars)
    requires ValidChars(cs)
    ensures ScanRun(Scan(out, CLOSED, 0), InQuotes(cs)) == Scan(out + InQuotes(cs), CLOSED, 0)
  {
    var st, quote, inside := Scan(out, CLOSED, 0), ['"'], CharsBytes(cs);
    ScanRunConcat(st, quote + inside, quote);
    ScanRunConcat(st, quote, inside);
    ScanOne(st, '"');
    CharsScan(out + quote, cs);
    ScanOne(Scan(out + quote + inside, INNER, 0), '"');
    ConcatAssoc(out, quote, inside);
    ConcatAssoc(out, quote + inside, quote);
  }

  lemma {:induction false} ItemsScan(out: Bytes, items: Items)
    requires ValidItems(items)
    ensures ScanRun(Scan(out, CLOSED, 0), Source(items)) == Scan(out + Stripped(items), CLOSED, 0)
    decreases items
  {
    var st := Scan(out, CLOSED, 0);
    match items
    case NoItems =>
      assert out + [] == out;
    case Bare(b, rest) =>
      ScanOne(st, b);
      ItemsScan(out + [b], rest);
      ScanRunConcat(st, [b], Source(rest));
      ConcatAssoc(out, [b], Stripped(rest));
    case Quoted(cs, rest) =>
      QuotesScan(out, cs);
      ItemsScan(out + InQuotes(cs), rest);
      ScanRunConcat(st, InQuotes(cs), Source(rest));
      ConcatAssoc(out, InQuotes(cs), Stripped(rest));
    case Commented(body, rest) =>
      CommentScansAsSpace(st, body);
      ScanOne(st, ' ');
      ItemsScan(out + SP, rest);
      ScanRunConcat(st, Render(body), Source(rest));
      ConcatAssoc(out, SP, Stripped(rest));
  }

  /** Reading a scan that ends well: from within quotes, the rest of the quoted
      string and what follows it. */
  lemma {:induction false} CharsOf(st: Scan, s: Bytes) returns (cs: Chars, rest: Bytes)
    requires st.Scan? && st.quote == INNER && st.depth == 0 && Accepted(ScanRun(st, s)).Some?
    ensures ValidChars(cs) && s == CharsBytes(cs) + ['"'] + rest && |rest| < |s|
    decreases |s|
  {
    if s[0] == '"' {
      cs, rest := NoChars, s[1..];
      assert s == [] + ['"'] + rest;
    } else {
      var n := if s[0] == '\\' then 2 else 1;
      assert n == 2 ==> s[1..] != [];
      ScanSplit(st, s, n);
      var more;
      more, rest := CharsOf(ScanRun(st, s[..n]), s[n..]);
      cs := if n == 2 then Escaped(s[1], more) else Char(s[0], more);
      CharsFront(s, n, CharsBytes(more) + ['"'] + rest);
      Regroup(s[..n], CharsBytes(more), rest);
    }
  }

  lemma Regroup(a: Bytes, b: Bytes, rest: Bytes)
    ensures a + (b + ['"'] + rest) == (a + b) + ['"'] + rest
    ensures a + (b + [')'] + rest) == (a + b) + [')'] + rest
  {
  }

  lemma CharsFront(s: Bytes, n: nat, tail: Bytes)
    requires n <= |s| && s[n..] == tail
    ensures s == s[..n] + tail
    ensures n == 1 ==> s[..n] == [s[0]]
    ensures n == 2 ==> s[..n] == [s[0], s[1]]
  {
  }

  lemma ScanSplit(st: Scan, s: Bytes, n: nat)
    requires n <= |s|
    ensures ScanRun(st, s) == ScanRun(ScanRun(st, s[..n]), s[n..])
    ensures n == 1 ==> ScanRun(st, s[..n]) == ScanStep(st, s[0])
    ensures n == 2 ==> ScanRun(st, s[..n]) == ScanStep(ScanStep(st, s[0]), s[1])
  {
    assert s == s[..n] + s[n..];
    ScanRunConcat(st, s[..n], s[n..]);
    if n == 1 {
      assert s[..1] == [s[0]];
      ScanOne(st, s[0]);
    } else if n == 2 {
      assert s[..2] == [s[0]] + [s[1]];
      ScanRunConcat(st, [s[0]], [s[1]]);
      ScanOne(st, s[0]);
      ScanOne(ScanStep(st, s[0]), s[1]);
    }
  }

  /** From within comments: the rest of the innermost one and what follows it. */
  lemma {:induction false} BodyOf(st: Scan, s: Bytes) returns (body: Body, rest: Bytes)
    requires st.Scan? && st.quote == CLOSED && st.depth > 0 && Accepted(ScanRun(st, s)).Some?
    ensures WellFormed(body) && s == Inside(body) + [')'] + rest && |rest| < |s|
    ensures Accepted(ScanRun(st.(depth := st.depth - 1), rest)) == Accepted(ScanRun(st, s))
    decreases |s|
  {
    if s[0] == ')' {
      body, rest := End, s[1..];
      assert s == [] + [')'] + rest;
    } else if s[0] == '(' {
      var inner, middle := BodyOf(st.(depth := st.depth + 1), s[1..]);
      var more;
      more, rest := BodyOf(st, middle);
      body := Nested(inner, more);
      NestedFront(s, Inside(inner), middle, Inside(more), rest);
    } else {
      var n := if s[0] == '\\' then 2 else 1;
      assert n == 2 ==> s[1..] != [];
      ScanSplit(st, s, n);
      var more;
      more, rest := BodyOf(st, s[n..]);
      body := if n == 2 then Pair(s[1], more) else Text(s[0], more);
      CharsFront(s, n, Inside(more) + [')'] + rest);
      Regroup(s[..n], Inside(more), rest);
    }
  }

  lemma NestedFront(s: Bytes, inner: Bytes, middle: Bytes, more: Bytes, rest: Bytes)
    requires s != [] && s[0] == '(' && s[1..] == inner + [')'] + middle && middle == more + [')'] + rest
    ensures s == (['('] + inner + [')'] + more) + [')'] + rest
  {
    assert s == ['('] + s[1..];
  }

  lemma {:induction false} ItemsOf(st: Scan, s: Bytes) returns (items: Items)
    requires st.Scan? && st.quote == CLOSED && st.depth == 0 && Accepted(ScanRun(st, s)).Some?
    ensures ValidItems(items) && Source(items) == s
    decreases |s|
  {
    if s == [] {
      items := NoItems;
    } else if s[0] == '"' {
      var cs, rest := CharsOf(ScanStep(st, '"'), s[1..]);
      assert s == InQuotes(cs) + rest;
      QuotesScan(st.out, cs);
      ScanRunConcat(st, InQuotes(cs), rest);
      var more := ItemsOf(Scan(st.out + InQuotes(cs), CLOSED, 0), rest);
      items := Quoted(cs, more);
    } else if s[0] == '(' {
      var body, rest := BodyOf(ScanStep(st, '('), s[1..]);
      assert s == Render(body) + rest;
      var more := ItemsOf(st.(out := st.out + SP), rest);
      items := Commented(body, more);
    } else {
      if s[0] == ')' {
        MalformedStays(s[1..]);
      }
      var more := ItemsOf(ScanStep(st, s[0]), s[1..]);
      items := Bare(s[0], more);
      assert s == [s[0]] + s[1..];
    }
  }

  /** The comment scan accepts exactly the fields made of bytes, quoted strings and
      comments, and puts a space for each comment. */
  lemma StripsExactly(s: Bytes, t: Bytes)
    ensures WithoutComments(s) == Some(t)
       <==> exists items :: ValidItems(items) && Source(items) == s && Stripped(items) == t
  {
    if WithoutComments(s).Some? {
      var items := ItemsOf(SCAN_START, s);
      ItemsScan([], items);
      assert [] + Stripped(items) == Stripped(items);
    }
    forall items | ValidItems(items) && Source(items) == s
      ensures WithoutComments(s) == Some(Stripped(items))
    {
      ItemsScan([], items);
      assert [] + Stripped(items) == Stripped(items);
    }
  }
}
