/** The "relaxed" body form of section 3.4.4 of RFC 6376, defined on whole
    lines, and its agreement with the streaming canonicalizer. */
module RelaxedBodies {
  import opened ByteStrings
  import opened BodyCanonicalizers

  // ----- the definition by lines -----

  function AfterEol(data: Bytes): (rest: Bytes)
    requires data != [] && IsEol(data[0])
    ensures |rest| < |data|
  {
    if data[0] == '\r' && |data| > 1 && data[1] == '\n' then data[2..] else data[1..]
  }

  /** Lines end at CRLF, at a bare CR or at a bare LF; the last piece is the
      unterminated rest, empty when the body ends with a line end. */
  function SplitLines(data: Bytes): (lines: seq<Bytes>)
    ensures |lines| >= 1
    decreases |data|
  {
    if data == [] then [[]]
    else if IsEol(data[0]) then [[]] + SplitLines(AfterEol(data))
    else
      var lines := SplitLines(data[1..]);
      [[data[0]] + lines[0]] + lines[1..]
  }

  /** Whitespace at the end of the line dropped, other runs reduced to one space. */
  function Reduce(line: Bytes): Bytes { Collapse(TrimEnd(line)) }

  function ReduceAll(lines: seq<Bytes>): (r: seq<Bytes>)
    ensures |r| == |lines|
  {
    if lines == [] then [] else [Reduce(lines[0])] + ReduceAll(lines[1..])
  }

  function DropTrailingEmpty(lines: seq<Bytes>): (r: seq<Bytes>)
    ensures |r| <= |lines|
  {
    if lines == [] then []
    else
      var rest := DropTrailingEmpty(lines[1..]);
      if rest == [] && lines[0] == [] then [] else [lines[0]] + rest
  }

  function Terminated(lines: seq<Bytes>): Bytes {
    if lines == [] then [] else lines[0] + CRLF + Terminated(lines[1..])
  }

  function CanonicalLines(data: Bytes): seq<Bytes> {
    DropTrailingEmpty(ReduceAll(SplitLines(data)))
  }

  function RelaxedBody(data: Bytes): Bytes { Terminated(CanonicalLines(data)) }

  // ----- what the automaton still owes, in terms of lines -----

  /** The text for `lines` when `e` empty lines are held back before them, with
      the counter of held-back lines saturating as the program's does. */
  function Owed(e: nat, lines: seq<Bytes>): Bytes
    decreases |lines|
  {
    if lines == [] then []
    else if lines[0] == [] then Owed(SaturatingAdd(e, 1), lines[1..])
    else Repeat(CRLF, e) + lines[0] + CRLF + Owed(0, lines[1..])
  }

  function Pending(s: BodyState, lines: seq<Bytes>): Bytes
    requires |lines| >= 1
  {
    var first := Reduce((if s.pendingWsp then SP else []) + lines[0]);
    var rest := ReduceAll(lines[1..]);
    if s.lineHasContent then first + CRLF + Owed(0, rest)
    else Owed(s.pendingEmptyLines, [first] + rest)
  }

  predicate Consistent(s: BodyState) {
    !s.sawCr && (s.lineHasContent ==> s.pendingEmptyLines == 0)
  }

  lemma ReduceContent(c: Byte, line: Bytes)
    requires !IsWsp(c)
    ensures Reduce([c] + line) == [c] + Reduce(line)
  {
    TrimEndCons(c, line);
    CollapseCons(c, TrimEnd(line));
  }

  lemma ReduceSpaced(c: Byte, line: Bytes)
    requires !IsWsp(c)
    ensures Reduce([' '] + ([c] + line)) == SP + ([c] + Reduce(line))
  {
    var kept := TrimEnd(line);
    TrimEndCons(c, line);
    TrimEndCons(' ', [c] + line);
    CollapseCons(' ', [c] + kept);
    CollapseCons(c, kept);
    assert DropWsp([c] + kept) == [c] + kept;
  }

  lemma ReduceWsp(w: Byte, line: Bytes)
    requires IsWsp(w)
    ensures Reduce([w] + line) == if TrimEnd(line) == [] then [] else SP + Collapse(DropWsp(TrimEnd(line)))
  {
    TrimEndCons(w, line);
    CollapseCons(w, TrimEnd(line));
  }

  lemma ReduceTwo(w: Byte, line: Bytes)
    requires IsWsp(w)
    ensures Reduce([' '] + ([w] + line)) == Reduce([' '] + line)
  {
    var kept := TrimEnd(line);
    ReduceWsp(' ', [w] + line);
    ReduceWsp(' ', line);
    TrimEndCons(w, line);
    assert ([w] + kept)[1..] == kept;
    assert DropWsp([w] + kept) == DropWsp(kept);
  }

  lemma ReduceCons(w: Byte, c: Byte, line: Bytes)
    requires IsWsp(w) && !IsWsp(c)
    ensures Reduce([c] + line) == [c] + Reduce(line)
    ensures Reduce(SP + ([c] + line)) == SP + ([c] + Reduce(line)) == SP + [c] + Reduce(line)
    ensures Reduce([w] + line) == Reduce(SP + line)
    ensures Reduce(SP + ([w] + line)) == Reduce(SP + line)
    ensures Reduce(SP) == Reduce([]) == []
  {
    ReduceContent(c, line);
    ReduceSpaced(c, line);
    ConcatAssoc(SP, [c], Reduce(line));
    ReduceWsp(w, line);
    ReduceWsp(' ', line);
    ReduceTwo(w, line);
    ReduceWsp(' ', []);
    assert [' '] + [] == SP;
  }

  lemma PendingAtEol(s: BodyState, lines: seq<Bytes>)
    requires Consistent(s) && |lines| >= 1
    ensures s.hashed + Pending(s, [[]] + lines)
         == EndLine(s).hashed + Pending(EndLine(s), lines)
  {
    var all := [[]] + lines;
    assert all[1..] == lines;
    ReduceCons(' ', 'x', []);
    var t := EndLine(s);
    var rest := ReduceAll(lines);
    assert rest == [Reduce(lines[0])] + ReduceAll(lines[1..]);
    assert Pending(t, lines) == Owed(t.pendingEmptyLines, rest) by {
      assert [] + lines[0] == lines[0];
    }
    if !s.lineHasContent {
      assert ([[]] + rest)[1..] == rest;
      assert SP + [] == SP;
    }
  }

  lemma PendingAtWsp(s: BodyState, w: Byte, lines: seq<Bytes>)
    requires Consistent(s) && |lines| >= 1 && IsWsp(w)
    ensures Pending(s, [[w] + lines[0]] + lines[1..]) == Pending(s.(pendingWsp := true), lines)
  {
    ReduceCons(w, 'x', lines[0]);
    assert [] + ([w] + lines[0]) == [w] + lines[0];
  }

  lemma PendingAtContent(s: BodyState, c: Byte, lines: seq<Bytes>)
    requires Consistent(s) && |lines| >= 1 && !IsWsp(c)
    ensures s.hashed + Pending(s, [[c] + lines[0]] + lines[1..])
         == EmitContent(s, [c]).hashed + Pending(EmitContent(s, [c]), lines)
  {
    ReduceCons(' ', c, lines[0]);
    var all := [[c] + lines[0]] + lines[1..];
    var t := EmitContent(s, [c]);
    var lead := if s.pendingWsp then SP else [];
    var blank := if s.lineHasContent then [] else Repeat(CRLF, s.pendingEmptyLines);
    var tail, rest := Reduce(lines[0]), ReduceAll(lines[1..]);
    assert all[1..] == lines[1..];
    assert [] + all[0] == all[0] && [] + lines[0] == lines[0];
    assert Reduce(lead + all[0]) == lead + [c] + tail;
    assert ([lead + [c] + tail] + rest)[1..] == rest;
    assert Pending(t, lines) == tail + CRLF + Owed(0, rest);
    assert Pending(s, all) == blank + (lead + [c] + tail) + CRLF + Owed(0, rest) by {
      assert [] + (lead + [c] + tail) == lead + [c] + tail;
    }
    Regroup(s.hashed, blank, lead, [c], tail, CRLF, Owed(0, rest));
  }

  lemma Regroup(a: Bytes, b: Bytes, c: Bytes, d: Bytes, e: Bytes, f: Bytes, g: Bytes)
    ensures a + (b + (c + d + e) + f + g) == (a + b + c + d) + (e + f + g)
  {
    var right := e + f + g;
    assert b + (c + d + e) + f + g == b + c + d + right;
    assert a + (b + c + d + right) == a + b + c + d + right;
  }

  lemma RunAtEol(s: BodyState, data: Bytes)
    requires Consistent(s) && data != [] && IsEol(data[0])
    ensures Finish(Run(s, data)) == Finish(Run(EndLine(s), AfterEol(data)))
  {
    if data[0] == '\r' {
      var t := s.(sawCr := true);
      assert Run(s, data) == Run(t, data[1..]);
      if |data| > 1 {
        if data[1] == '\n' {
          assert data[1..][1..] == data[2..];
        } else {
          assert Step(t, data[1]) == Step(EndLine(s), data[1]);
        }
      }
    }
  }

  /** Run from any point between bytes, the automaton outputs what it owes. */
  lemma {:induction false} RunOwes(s: BodyState, data: Bytes)
    requires Consistent(s)
    ensures Finish(Run(s, data)) == s.hashed + Pending(s, SplitLines(data))
    decreases |data|
  {
    if data == [] {
      ReduceCons(' ', 'x', []);
      var lead := if s.pendingWsp then SP else [];
      assert lead + [] == lead && SplitLines(data)[1..] == [];
      assert Reduce(lead) == [] && ([[]] + ReduceAll([]))[1..] == [];
      assert Owed(s.pendingEmptyLines, [[]] + []) == [];
    } else if IsEol(data[0]) {
      RunAtEol(s, data);
      PendingAtEol(s, SplitLines(AfterEol(data)));
      RunOwes(EndLine(s), AfterEol(data));
    } else if IsWsp(data[0]) {
      PendingAtWsp(s, data[0], SplitLines(data[1..]));
      RunOwes(s.(pendingWsp := true), data[1..]);
    } else {
      PendingAtContent(s, data[0], SplitLines(data[1..]));
      RunOwes(EmitContent(s, [data[0]]), data[1..]);
    }
  }

  // ----- agreement with the definition, and exactly where it ends -----

  /** No non-empty line is preceded by more empty lines than the counter can
      hold, `e` of them already counted. */
  predicate CounterFits(e: nat, lines: seq<Bytes>)
    decreases |lines|
  {
    lines == [] ||
    if lines[0] == [] then CounterFits(e + 1, lines[1..])
    else e <= USIZE_MAX && CounterFits(0, lines[1..])
  }

  function Exact(e: nat, lines: seq<Bytes>): Bytes {
    var kept := DropTrailingEmpty(lines);
    if kept == [] then [] else Repeat(CRLF, e) + Terminated(kept)
  }

  lemma RepeatLength(unit: Bytes, n: nat)
    ensures |Repeat(unit, n)| == |unit| * n
  {
  }

  function Capped(e: nat): nat { if e > USIZE_MAX then USIZE_MAX else e }

  lemma ExactBlank(e: nat, rest: seq<Bytes>)
    ensures Exact(e, [[]] + rest) == Exact(e + 1, rest)
  {
    var kept := DropTrailingEmpty(rest);
    assert ([[]] + rest)[1..] == rest;
    if kept != [] {
      RepeatSnoc(CRLF, e);
      assert ([[]] + kept)[1..] == kept;
      assert Repeat(CRLF, e) + ([] + CRLF + Terminated(kept))
          == Repeat(CRLF, e) + CRLF + Terminated(kept);
    }
  }

  lemma ExactContent(e: nat, line: Bytes, rest: seq<Bytes>)
    requires line != []
    ensures Exact(e, [line] + rest) == Repeat(CRLF, e) + line + CRLF + Exact(0, rest)
  {
    var kept := DropTrailingEmpty(rest);
    assert ([line] + rest)[1..] == rest;
    assert ([line] + kept)[1..] == kept;
    assert Exact(0, rest) == Terminated(kept);
    assert Repeat(CRLF, e) + (line + CRLF + Terminated(kept))
        == Repeat(CRLF, e) + line + CRLF + Terminated(kept);
  }

  lemma {:induction false} OwedIsExact(e: nat, lines: seq<Bytes>)
    ensures CounterFits(e, lines) ==> Owed(Capped(e), lines) == Exact(e, lines)
    ensures !CounterFits(e, lines) ==> |Owed(Capped(e), lines)| < |Exact(e, lines)|
    decreases |lines|
  {
    if lines != [] {
      var rest := lines[1..];
      assert lines == [lines[0]] + rest;
      if lines[0] == [] {
        OwedIsExact(e + 1, rest);
        ExactBlank(e, rest);
      } else {
        OwedIsExact(0, rest);
        ExactContent(e, lines[0], rest);
        RepeatLength(CRLF, e);
        RepeatLength(CRLF, Capped(e));
      }
    }
  }

  /** The bytes hashed are the section 3.4.4 form exactly when the counter of
      empty lines does not saturate before a line with content. */
  lemma StreamingIsRelaxed(data: Bytes)
    ensures BodyOutput(data) == RelaxedBody(data)
       <==> CounterFits(0, ReduceAll(SplitLines(data)))
  {
    RunOwes(INITIAL, data);
    var lines := SplitLines(data);
    assert [] + lines[0] == lines[0];
    assert [Reduce(lines[0])] + ReduceAll(lines[1..]) == ReduceAll(lines);
    OwedIsExact(0, ReduceAll(lines));
    assert BodyOutput(data) == Owed(0, ReduceAll(lines));
    assert Exact(0, ReduceAll(lines)) == RelaxedBody(data);
  }

  lemma {:induction false} FewLinesFit(e: nat, lines: seq<Bytes>)
    requires e + |lines| <= USIZE_MAX + 1
    ensures CounterFits(e, lines)
    decreases |lines|
  {
    if lines != [] {
      FewLinesFit(if lines[0] == [] then e + 1 else 0, lines[1..]);
    }
  }

  lemma LineCount(data: Bytes)
    ensures |SplitLines(data)| <= |data| + 1
    decreases |data|
  {
    if data != [] {
      LineCount(if IsEol(data[0]) then AfterEol(data) else data[1..]);
    }
  }

  /** A body no longer than the machine can count is always canonicalized as the
      standard says. */
  lemma CountableBodyIsRelaxed(data: Bytes)
    requires |data| <= USIZE_MAX
    ensures BodyOutput(data) == RelaxedBody(data)
  {
    LineCount(data);
    FewLinesFit(0, ReduceAll(SplitLines(data)));
    StreamingIsRelaxed(data);
  }

  lemma {:induction false} BlankLinesThenContent(n: nat, e: nat)
    ensures CounterFits(e, ReduceAll(SplitLines(Repeat(['\n'], n) + ['x']))) <==> e + n <= USIZE_MAX
    decreases n
  {
    var data := Repeat(['\n'], n) + ['x'];
    if n == 0 {
      assert data == ['x'];
      assert SplitLines(data)[1..] == [] && SplitLines(data)[0] == ['x'];
      ReduceCons(' ', 'x', []);
      assert ['x'] + [] == ['x'];
    } else {
      assert data == ['\n'] + (Repeat(['\n'], n - 1) + ['x']);
      BlankLinesThenContent(n - 1, e + 1);
      assert SplitLines(data)[1..] == SplitLines(data[1..]);
      ReduceCons(' ', 'x', []);
    }
  }

  /** A body that is hashed differently: 2^64 line feeds, then a letter. */
  lemma SaturationIsVisible()
    ensures var data := Repeat(['\n'], USIZE_MAX + 1) + ['x'];
            BodyOutput(data) != RelaxedBody(data)
  {
    BlankLinesThenContent(USIZE_MAX + 1, 0);
    StreamingIsRelaxed(Repeat(['\n'], USIZE_MAX + 1) + ['x']);
  }

  // ----- what the canonical form looks like -----

  /** A line with no tab, no line end, no two spaces together and no space last. */
  predicate Tidy(line: Bytes) {
    && EolFree(line)
    && (forall i :: 0 <= i < |line| ==> line[i] != '\t')
    && (forall i :: 0 <= i < |line| && line[i] == ' ' ==> i + 1 < |line| && line[i + 1] != ' ')
  }

  lemma TidyCons(c: Byte, line: Bytes)
    requires !IsFws(c) && Tidy(line)
    ensures Tidy([c] + line) && Tidy(SP + [c] + line)
  {
    var one, two := [c] + line, SP + [c] + line;
    assert forall i :: 1 <= i < |one| ==> one[i] == line[i - 1];
    assert two[0] == ' ' && two[1] == c;
    assert forall i :: 2 <= i < |two| ==> two[i] == line[i - 2];
  }

  lemma {:induction false} ReduceIsTidy(line: Bytes)
    requires EolFree(line)
    ensures Tidy(Reduce(line))
    decreases |line|
  {
    if line != [] {
      var tail := line[1..];
      assert line == [line[0]] + tail;
      if !IsWsp(line[0]) {
        ReduceIsTidy(tail);
        ReduceCons(' ', line[0], tail);
        TidyCons(line[0], Reduce(tail));
      } else if tail == [] {
        ReduceCons(line[0], 'x', []);
        assert SP + [] == SP;
      } else {
        var rest := tail[1..];
        assert tail == [tail[0]] + rest;
        ReduceCons(line[0], 'x', tail);
        if IsWsp(tail[0]) {
          ReduceCons(tail[0], 'x', rest);
          ReduceIsTidy(SP + rest);
        } else {
          ReduceIsTidy(rest);
          ReduceCons(line[0], tail[0], rest);
          TidyCons(tail[0], Reduce(rest));
        }
      }
    }
  }

  lemma {:induction false} TidyIsReduced(line: Bytes)
    requires Tidy(line)
    ensures Reduce(line) == line
    decreases |line|
  {
    if line != [] {
      if line[0] == ' ' {
        var rest := line[2..];
        assert line == SP + ([line[1]] + rest);
        assert forall i :: 0 <= i < |rest| ==> rest[i] == line[i + 2];
        assert Tidy(rest);
        TidyIsReduced(rest);
        ReduceCons(' ', line[1], rest);
      } else {
        var rest := line[1..];
        assert line == [line[0]] + rest;
        assert forall i :: 0 <= i < |rest| ==> rest[i] == line[i + 1];
        assert Tidy(rest);
        TidyIsReduced(rest);
        ReduceCons(' ', line[0], rest);
      }
    }
  }

  predicate AllEolFree(lines: seq<Bytes>) { forall k :: 0 <= k < |lines| ==> EolFree(lines[k]) }

  lemma {:induction false} SplitLinesEolFree(data: Bytes)
    ensures AllEolFree(SplitLines(data))
    decreases |data|
  {
    if data != [] {
      var rest := if IsEol(data[0]) then AfterEol(data) else data[1..];
      SplitLinesEolFree(rest);
      var lines, tail := SplitLines(data), SplitLines(rest);
      forall k, i | 0 <= k < |lines| && 0 <= i < |lines[k]|
        ensures !IsEol(lines[k][i])
      {
        if IsEol(data[0]) {
          assert lines[k] == tail[k - 1];
        } else if k > 0 {
          assert lines[k] == tail[k];
        } else if i > 0 {
          assert lines[0][i] == tail[0][i - 1];
        }
      }
    }
  }

  predicate AllTidy(lines: seq<Bytes>) { forall k :: 0 <= k < |lines| ==> Tidy(lines[k]) }

  lemma {:induction false} ReduceAllTidy(lines: seq<Bytes>)
    requires AllEolFree(lines)
    ensures AllTidy(ReduceAll(lines))
  {
    if lines != [] {
      ReduceIsTidy(lines[0]);
      assert forall k :: 0 <= k < |lines| - 1 ==> lines[1..][k] == lines[k + 1];
      ReduceAllTidy(lines[1..]);
    }
  }

  lemma {:induction false} DropKeepsTidy(lines: seq<Bytes>)
    ensures var kept := DropTrailingEmpty(lines);
            (AllTidy(lines) ==> AllTidy(kept)) && (kept != [] ==> kept[|kept| - 1] != [])
  {
    if lines != [] {
      DropKeepsTidy(lines[1..]);
      assert forall k :: 0 <= k < |lines| - 1 ==> lines[1..][k] == lines[k + 1];
    }
  }

  /** The canonical body is nothing at all, or lines each ended by CRLF, every
      one free of tabs, doubled spaces and trailing space, the last not empty. */
  lemma CanonicalLinesAreTidy(data: Bytes)
    ensures var lines := CanonicalLines(data);
            AllTidy(lines) && (lines != [] ==> lines[|lines| - 1] != [])
  {
    SplitLinesEolFree(data);
    ReduceAllTidy(SplitLines(data));
    DropKeepsTidy(ReduceAll(SplitLines(data)));
  }

  lemma {:induction false} SplitLineCrlf(line: Bytes, rest: Bytes)
    requires EolFree(line)
    ensures SplitLines(line + CRLF + rest) == [line] + SplitLines(rest)
    decreases |line|
  {
    var data := line + CRLF + rest;
    if line == [] {
      assert data[2..] == rest;
    } else {
      assert forall i :: 0 <= i < |line| - 1 ==> line[1..][i] == line[i + 1];
      assert data[1..] == line[1..] + CRLF + rest;
      SplitLineCrlf(line[1..], rest);
      assert [line[0]] + line[1..] == line;
    }
  }

  lemma {:induction false} TidyLinesReread(lines: seq<Bytes>)
    requires AllTidy(lines)
    ensures ReduceAll(SplitLines(Terminated(lines))) == lines + [[]]
  {
    if lines == [] {
      TidyIsReduced([]);
      var blank: seq<Bytes> := [[]];
      assert blank[1..] == [];
    } else {
      SplitLineCrlf(lines[0], Terminated(lines[1..]));
      TidyIsReduced(lines[0]);
      TidyLinesReread(lines[1..]);
      var all := [lines[0]] + SplitLines(Terminated(lines[1..]));
      assert all[1..] == SplitLines(Terminated(lines[1..]));
      assert [lines[0]] + (lines[1..] + [[]]) == lines + [[]];
    }
  }

  lemma {:induction false} DropAppended(lines: seq<Bytes>)
    requires lines != [] ==> lines[|lines| - 1] != []
    ensures DropTrailingEmpty(lines + [[]]) == lines
  {
    if lines != [] {
      assert (lines + [[]])[1..] == lines[1..] + [[]];
      DropAppended(lines[1..]);
      assert [lines[0]] + lines[1..] == lines;
    }
  }

  /** Canonicalizing a canonical body changes nothing. */
  lemma RelaxedBodyIdempotent(data: Bytes)
    ensures RelaxedBody(RelaxedBody(data)) == RelaxedBody(data)
  {
    CanonicalLinesAreTidy(data);
    TidyLinesReread(CanonicalLines(data));
    DropAppended(CanonicalLines(data));
  }

  // ----- nothing but whitespace is lost, and little is added -----

  /** The bytes of `s` that are not whitespace or line ends. */
  function Ink(s: Bytes): Bytes {
    if s == [] then [] else (if IsFws(s[0]) then [] else [s[0]]) + Ink(s[1..])
  }

  lemma {:induction false} InkConcat(a: Bytes, b: Bytes)
    ensures Ink(a + b) == Ink(a) + Ink(b)
  {
    if a == [] {
      assert a + b == b;
    } else {
      assert (a + b)[1..] == a[1..] + b;
      InkConcat(a[1..], b);
    }
  }

  lemma {:induction false} InkOfReduce(line: Bytes)
    ensures Ink(Reduce(line)) == Ink(line)
    ensures |Reduce(line)| <= |line|
  {
    InkOfTrimEnd(line);
    InkOfCollapse(TrimEnd(line));
  }

  lemma {:induction false} InkOfTrimEnd(s: Bytes)
    ensures Ink(TrimEnd(s)) == Ink(s)
  {
    if s != [] {
      InkOfTrimEnd(s[1..]);
      var t := TrimEnd(s[1..]);
      assert ([s[0]] + t)[1..] == t;
    }
  }

  lemma {:induction false} InkOfDropWsp(s: Bytes)
    ensures Ink(DropWsp(s)) == Ink(s)
  {
    if s != [] && IsWsp(s[0]) {
      InkOfDropWsp(s[1..]);
    }
  }

  lemma {:induction false} InkOfCollapse(s: Bytes)
    ensures Ink(Collapse(s)) == Ink(s)
    decreases |s|
  {
    if s != [] {
      var rest := if IsWsp(s[0]) then DropWsp(s[1..]) else s[1..];
      InkOfDropWsp(s[1..]);
      InkOfCollapse(rest);
      InkConcat(if IsWsp(s[0]) then SP else [s[0]], Collapse(rest));
    }
  }

  function InkOfLines(lines: seq<Bytes>): Bytes {
    if lines == [] then [] else Ink(lines[0]) + InkOfLines(lines[1..])
  }

  /** The size of the lines when each is given a two-byte end. */
  function LinesSize(lines: seq<Bytes>): nat {
    if lines == [] then 0 else |lines[0]| + 2 + LinesSize(lines[1..])
  }

  lemma InkCons(b: Byte, s: Bytes)
    ensures Ink([b] + s) == (if IsFws(b) then [] else [b]) + Ink(s)
  {
    assert ([b] + s)[1..] == s;
  }

  lemma LinesCons(line: Bytes, lines: seq<Bytes>)
    ensures InkOfLines([line] + lines) == Ink(line) + InkOfLines(lines)
    ensures LinesSize([line] + lines) == |line| + 2 + LinesSize(lines)
  {
    assert ([line] + lines)[1..] == lines;
  }

  lemma InkAfterEol(data: Bytes)
    requires data != [] && IsEol(data[0])
    ensures Ink(data) == Ink(AfterEol(data))
  {
    InkCons(data[0], data[1..]);
    assert [data[0]] + data[1..] == data;
    if AfterEol(data) != data[1..] {
      InkCons(data[1], data[2..]);
      assert [data[1]] + data[2..] == data[1..];
    }
  }

  lemma {:induction false} SplitLinesInk(data: Bytes)
    ensures InkOfLines(SplitLines(data)) == Ink(data)
    ensures LinesSize(SplitLines(data)) <= 2 * |data| + 2
    decreases |data|
  {
    if data == [] {
      LinesCons([], []);
    } else if IsEol(data[0]) {
      SplitLinesInk(AfterEol(data));
      InkAfterEol(data);
      LinesCons([], SplitLines(AfterEol(data)));
    } else {
      SplitLinesInk(data[1..]);
      var lines := SplitLines(data[1..]);
      LinesCons([data[0]] + lines[0], lines[1..]);
      LinesCons(lines[0], lines[1..]);
      assert [lines[0]] + lines[1..] == lines;
      InkCons(data[0], lines[0]);
      InkCons(data[0], data[1..]);
      assert [data[0]] + data[1..] == data;
      ConcatAssoc(if IsFws(data[0]) then [] else [data[0]], Ink(lines[0]), InkOfLines(lines[1..]));
    }
  }

  lemma TerminatedCons(line: Bytes, lines: seq<Bytes>)
    ensures Terminated([line] + lines) == line + CRLF + Terminated(lines)
    ensures Ink(Terminated([line] + lines)) == Ink(line) + Ink(Terminated(lines))
  {
    assert ([line] + lines)[1..] == lines;
    InkConcat(line + CRLF, Terminated(lines));
    InkConcat(line, CRLF);
    InkCons('\r', ['\n']);
    InkCons('\n', []);
    assert CRLF == ['\r'] + ['\n'] && ['\n'] == ['\n'] + [];
  }

  lemma {:induction false} KeptLinesInk(lines: seq<Bytes>)
    ensures var out := Terminated(DropTrailingEmpty(ReduceAll(lines)));
            Ink(out) == InkOfLines(lines) && |out| <= LinesSize(lines)
  {
    if lines != [] {
      var reduced, first := ReduceAll(lines[1..]), Reduce(lines[0]);
      KeptLinesInk(lines[1..]);
      InkOfReduce(lines[0]);
      assert ReduceAll(lines)[1..] == reduced;
      TerminatedCons(first, DropTrailingEmpty(reduced));
    }
  }

  /** The non-whitespace bytes survive in order, and the result is at most two
      bytes longer than twice the body. */
  lemma RelaxedBodyKeepsInk(data: Bytes)
    ensures Ink(RelaxedBody(data)) == Ink(data)
    ensures |RelaxedBody(data)| <= 2 * |data| + 2
  {
    SplitLinesInk(data);
    KeptLinesInk(SplitLines(data));
  }
}
