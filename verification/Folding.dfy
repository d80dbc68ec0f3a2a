/** Wrapping of the emitted signature field (src/dkim.rs, fold_signature). */
module Foldings {
  import opened ByteStrings
  import opened HeaderCanonicalizers
  import opened RelaxedBodies

  const LIMIT: nat := 72

  predicate Breaks(column: nat, token: Bytes) { column > 0 && column + |token| + 1 > LIMIT }

  function FoldSeparator(column: nat, token: Bytes): Bytes {
    if column == 0 then [] else if Breaks(column, token) then CRLFTAB else SP
  }

  function NextColumn(column: nat, token: Bytes): nat {
    (if column == 0 then 0 else if Breaks(column, token) then 1 else column + 1) + |token|
  }

  /** The text of `tokens` when the current line is `column` wide already. */
  function FoldTokens(tokens: seq<Bytes>, column: nat): Bytes {
    if tokens == [] then []
    else
      FoldSeparator(column, tokens[0])
      + (tokens[0] + FoldTokens(tokens[1..], NextColumn(column, tokens[0])))
  }

  function Fold(value: Bytes): Bytes { FoldTokens(Split(value, ' '), 0) }

  lemma FoldStep(before: Bytes, tokens: seq<Bytes>, column: nat)
    requires tokens != []
    ensures before + FoldTokens(tokens, column)
         == before + FoldSeparator(column, tokens[0]) + tokens[0]
            + FoldTokens(tokens[1..], NextColumn(column, tokens[0]))
  {
    var separator, rest := FoldSeparator(column, tokens[0]), FoldTokens(tokens[1..], NextColumn(column, tokens[0]));
    ConcatAssoc(before, separator, tokens[0] + rest);
    ConcatAssoc(before + separator, tokens[0], rest);
  }

  method FoldSignature(value: Bytes) returns (out: Bytes)
    ensures out == Fold(value)
  {
    var tokens := Split(value, ' ');
    var column: nat := 0;
    out := [];
    for i := 0 to |tokens|
      invariant out + FoldTokens(tokens[i..], column) == Fold(value)
    {
      var token := tokens[i];
      ghost var lead := out + FoldSeparator(column, token);
      assert out + [] == out;
      FoldStep(out, tokens[i..], column);
      assert tokens[i..][1..] == tokens[i + 1..];
      var needed := if column == 0 then |token| else |token| + 1;
      if column > 0 && column + needed > LIMIT {
        out := out + CRLFTAB;
        column := 1;
      } else if column > 0 {
        out := out + SP;
        column := column + 1;
      }
      assert out == lead;
      out := out + token;
      column := column + |token|;
    }
    assert out + [] == out;
  }

  // ----- what folding preserves -----

  /** The tokens joined by spaces again; nothing is put before the first text. */
  function Plain(tokens: seq<Bytes>, started: bool): Bytes {
    if tokens == [] then []
    else (if started then SP else []) + (tokens[0] + Plain(tokens[1..], started || tokens[0] != []))
  }

  function DropSpaces(s: Bytes): (r: Bytes)
    ensures |r| <= |s|
    ensures |r| == |s| <==> s == [] || s[0] != ' '
  {
    if s != [] && s[0] == ' ' then DropSpaces(s[1..]) else s
  }

  lemma PlainCons(t: Bytes, rest: seq<Bytes>, started: bool)
    ensures Plain([t] + rest, started)
         == (if started then SP else []) + (t + Plain(rest, started || t != []))
  {
    assert ([t] + rest)[1..] == rest;
  }

  lemma {:induction false} PlainOfSplit(s: Bytes)
    ensures Plain(Split(s, ' '), true) == SP + s
    ensures Plain(Split(s, ' '), false) == DropSpaces(s)
  {
    if s == [] {
      PlainCons([], [], true);
      PlainCons([], [], false);
    } else {
      var c, tail := s[0], Split(s[1..], ' ');
      assert s == [c] + s[1..];
      PlainOfSplit(s[1..]);
      if c == ' ' {
        PlainAtSpace(s[1..], tail);
      } else {
        assert tail == [tail[0]] + tail[1..];
        PlainAtText(c, s[1..], tail[0], tail[1..]);
      }
    }
  }

  lemma PlainAtSpace(s: Bytes, tail: seq<Bytes>)
    requires Plain(tail, true) == SP + s
    ensures Plain([[]] + tail, true) == SP + (SP + s)
    ensures Plain([[]] + tail, false) == Plain(tail, false)
  {
    PlainCons([], tail, true);
    PlainCons([], tail, false);
    assert [] + (SP + s) == SP + s && [] + ([] + Plain(tail, false)) == Plain(tail, false);
  }

  lemma PlainAtText(c: Byte, s: Bytes, first: Bytes, rest: seq<Bytes>)
    requires Plain([first] + rest, true) == SP + s
    ensures Plain([[c] + first] + rest, true) == SP + ([c] + s)
    ensures Plain([[c] + first] + rest, false) == [c] + s
  {
    PlainCons(first, rest, true);
    SameRest(SP, first + Plain(rest, true), s);
    PlainCons([c] + first, rest, true);
    PlainCons([c] + first, rest, false);
    ConcatAssoc([c], first, Plain(rest, true));
    assert [] + ([c] + s) == [c] + s;
  }

  predicate StartsFold(s: Bytes) { |s| >= 3 && s[0] == '\r' && s[1] == '\n' && s[2] == '\t' }

  function Width(s: Bytes): nat { if StartsFold(s) then 3 else 1 }

  function Unit(s: Bytes): Bytes
    requires s != []
  {
    if StartsFold(s) then SP else [s[0]]
  }

  /** CRLF and tab together read as one space. */
  function Restore(s: Bytes): (r: Bytes)
    ensures |r| <= |s|
  {
    if s == [] then [] else Unit(s) + Restore(s[Width(s)..])
  }

  lemma RestoreSeparator(sep: Bytes, s: Bytes)
    requires sep == SP || sep == CRLFTAB
    ensures Restore(sep + s) == SP + Restore(s)
  {
    assert (sep + s)[|sep|..] == s;
  }

  lemma FirstUnit(x: Bytes, tail: Bytes)
    requires x != [] && tail != [] && (tail[0] == ' ' || tail[0] == '\r')
    ensures Unit(x + tail) == Unit(x)
    ensures (x + tail)[Width(x)..] == x[Width(x)..] + tail && Width(x + tail) == Width(x)
  {
    assert |x| < 3 ==> (x + tail)[|x|] == tail[0];
  }

  lemma {:induction false} RestoreConcat(x: Bytes, tail: Bytes)
    requires tail != [] && (tail[0] == ' ' || tail[0] == '\r')
    ensures Restore(x + tail) == Restore(x) + Restore(tail)
    decreases |x|
  {
    if x == [] {
      assert x + tail == tail;
    } else {
      FirstUnit(x, tail);
      RestoreConcat(x[Width(x)..], tail);
      ConcatAssoc(Unit(x), Restore(x[Width(x)..]), Restore(tail));
    }
  }

  lemma {:induction false} RestoreFolded(x: Bytes, tokens: seq<Bytes>, column: nat)
    requires column > 0 || x == []
    ensures Restore(x + FoldTokens(tokens, column)) == Restore(x + Plain(tokens, column > 0))
    decreases |tokens|
  {
    if tokens != [] {
      var t, rest := tokens[0], tokens[1..];
      var folded := t + FoldTokens(rest, NextColumn(column, t));
      var plain := t + Plain(rest, column > 0 || t != []);
      RestoreFolded(t, rest, NextColumn(column, t));
      if column > 0 {
        var sep := FoldSeparator(column, t);
        RestoreSeparator(sep, folded);
        RestoreSeparator(SP, plain);
        RestoreConcat(x, sep + folded);
        RestoreConcat(x, SP + plain);
      } else {
        assert x + ([] + folded) == folded;
        assert x + ([] + plain) == plain;
      }
    }
  }

  predicate FoldAt(s: Bytes, i: nat) { i + 3 <= |s| && s[i] == '\r' && s[i + 1] == '\n' && s[i + 2] == '\t' }

  lemma {:induction false} RestoreIsIdentity(s: Bytes)
    ensures Restore(s) == s <==> forall i: nat :: !FoldAt(s, i)
    ensures Restore(s) != s ==> |Restore(s)| < |s|
  {
    if s != [] {
      if StartsFold(s) {
        assert FoldAt(s, 0);
      } else {
        RestoreIsIdentity(s[1..]);
        assert s == [s[0]] + s[1..];
        assert forall i: nat :: FoldAt(s[1..], i) ==> FoldAt(s, i + 1);
        assert forall i: nat :: FoldAt(s, i) && i > 0 ==> FoldAt(s[1..], i - 1);
        assert Restore(s)[1..] == Restore(s[1..]);
      }
    }
  }

  /** Undoing the folds restores the value, exactly when it neither starts with
      a space nor contains a fold of its own. */
  lemma UnfoldingRestores(value: Bytes)
    ensures Restore(Fold(value)) == Restore(DropSpaces(value))
    ensures Restore(Fold(value)) == value
       <==> (value == [] || value[0] != ' ') && forall i: nat :: !FoldAt(value, i)
  {
    RestoreFolded([], Split(value, ' '), 0);
    PlainOfSplit(value);
    assert [] + Fold(value) == Fold(value);
    assert [] + DropSpaces(value) == DropSpaces(value);
    RestoreIsIdentity(value);
  }

  ghost predicate SameRelaxed(a: Bytes, b: Bytes) {
    forall started, pending :: RelaxFrom(a, started, pending) == RelaxFrom(b, started, pending)
  }

  lemma {:induction false} SameRelaxedAfter(x: Bytes, a: Bytes, b: Bytes)
    requires SameRelaxed(a, b)
    ensures SameRelaxed(x + a, x + b)
  {
    if x == [] {
      assert x + a == a && x + b == b;
    } else {
      SameRelaxedAfter(x[1..], a, b);
      assert (x + a)[1..] == x[1..] + a && (x + b)[1..] == x[1..] + b;
    }
  }

  /** Either separator leaves whitespace pending and nothing else. */
  lemma SeparatorsAlike(sep: Bytes, a: Bytes, b: Bytes)
    requires sep == SP || sep == CRLFTAB
    requires SameRelaxed(a, b)
    ensures SameRelaxed(sep + a, SP + b)
  {
    assert (SP + b)[1..] == b;
    var s := sep + a;
    if sep == SP {
      assert s[1..] == a;
    } else {
      assert s[1..][1..][1..] == a;
      forall started, pending
        ensures RelaxFrom(s, started, pending) == RelaxFrom(a, started, true)
      {
        assert RelaxFrom(s, started, pending) == RelaxFrom(s[1..], started, true);
        assert RelaxFrom(s[1..], started, true) == RelaxFrom(s[1..][1..], started, true);
      }
    }
  }

  lemma {:induction false} FoldRelaxesSame(tokens: seq<Bytes>, column: nat)
    ensures SameRelaxed(FoldTokens(tokens, column), Plain(tokens, column > 0))
    decreases |tokens|
  {
    if tokens != [] {
      var t, rest := tokens[0], tokens[1..];
      var folded, plain := FoldTokens(rest, NextColumn(column, t)), Plain(rest, column > 0 || t != []);
      FoldRelaxesSame(rest, NextColumn(column, t));
      SameRelaxedAfter(t, folded, plain);
      if column > 0 {
        SeparatorsAlike(FoldSeparator(column, t), t + folded, t + plain);
      } else {
        assert [] + (t + folded) == t + folded && [] + (t + plain) == t + plain;
      }
    }
  }

  lemma {:induction false} LeadingSpacesRelax(s: Bytes)
    ensures Relaxed(DropSpaces(s)) == Relaxed(s)
  {
    if s != [] && s[0] == ' ' {
      LeadingSpacesRelax(s[1..]);
      PendingBeforeText(s[1..]);
    }
  }

  lemma PendingBeforeText(s: Bytes)
    ensures RelaxFrom(s, false, true) == RelaxFrom(s, false, false)
  {
  }

  /** A folded field has the canonical form of the unfolded one. */
  lemma FoldKeepsCanonicalForm(value: Bytes)
    ensures Relaxed(Fold(value)) == Relaxed(value)
  {
    FoldRelaxesSame(Split(value, ' '), 0);
    PlainOfSplit(value);
    LeadingSpacesRelax(value);
  }

  /** A line short enough, or one token alone (after its tab). */
  predicate FitsOrSingle(line: Bytes, tokens: seq<Bytes>) {
    |line| <= 72 || exists t :: t in tokens && (line == t || line == ['\t'] + t)
  }

  predicate AllFit(lines: seq<Bytes>, tokens: seq<Bytes>) {
    forall l :: l in lines ==> FitsOrSingle(l, tokens)
  }

  /** The current output line once `t` has been added to it. */
  function NextLine(line: Bytes, t: Bytes): Bytes {
    if Breaks(|line|, t) then ['\t'] + t else line + FoldSeparator(|line|, t) + t
  }

  lemma NextLineFits(line: Bytes, t: Bytes, all: seq<Bytes>)
    requires t in all && EolFree(t) && EolFree(line)
    ensures FitsOrSingle(NextLine(line, t), all) && EolFree(NextLine(line, t))
    ensures |NextLine(line, t)| == NextColumn(|line|, t)
  {
    assert line == [] ==> NextLine(line, t) == t;
  }

  lemma LinesAfter(line: Bytes, t: Bytes, more: Bytes)
    requires EolFree(line)
    ensures SplitLines(line + FoldSeparator(|line|, t) + t + more)
         == (if Breaks(|line|, t) then [line] else []) + SplitLines(NextLine(line, t) + more)
  {
    if Breaks(|line|, t) {
      BreakRegroups(line, t, more);
      SplitLineCrlf(line, ['\t'] + t + more);
    } else {
      var lines := SplitLines(NextLine(line, t) + more);
      assert [] + lines == lines;
    }
  }

  lemma BreakRegroups(line: Bytes, t: Bytes, more: Bytes)
    ensures line + CRLFTAB + t + more == line + CRLF + (['\t'] + t + more)
  {
    assert CRLFTAB == CRLF + ['\t'];
  }

  lemma {:induction false} FoldedLines(line: Bytes, tokens: seq<Bytes>, all: seq<Bytes>)
    requires forall t :: t in tokens ==> t in all && EolFree(t)
    requires FitsOrSingle(line, all) && EolFree(line)
    ensures AllFit(SplitLines(line + FoldTokens(tokens, |line|)), all)
    decreases |tokens|
  {
    if tokens == [] {
      SingleLine(line);
      assert line + [] == line;
    } else {
      var t, rest := tokens[0], tokens[1..];
      assert t in tokens && forall u :: u in rest ==> u in tokens;
      NextLineFits(line, t, all);
      FoldedLines(NextLine(line, t), rest, all);
      FoldStep(line, tokens, |line|);
      LinesAfter(line, t, FoldTokens(rest, NextColumn(|line|, t)));
    }
  }

  // ----- no break too many -----

  predicate StartsWith(line: Bytes, start: Bytes) {
    start <= line && (|line| > |start| ==> line[|start|] == ' ')
  }

  /** A line starts with a tab and a token that had no room on the line before. */
  predicate Needed(before: Bytes, line: Bytes) {
    line != [] && line[0] == '\t' && |before| + 1 + |Split(line[1..], ' ')[0]| > 72
  }

  predicate AllNeeded(lines: seq<Bytes>) { forall i :: 0 <= i < |lines| - 1 ==> Needed(lines[i], lines[i + 1]) }

  lemma FirstToken(line: Bytes, t: Bytes)
    requires ' ' !in t && StartsWith(line, ['\t'] + t)
    ensures line[0] == '\t' && Split(line[1..], ' ')[0] == t
  {
    var rest := line[1 + |t|..];
    assert line[1..] == t + rest;
    if rest == [] {
      SplitFirst(t, [], ' ');
      assert t + [] == t;
    } else {
      assert rest == [' '] + rest[1..] && t + rest == t + [' '] + rest[1..];
      SplitFirst(t, rest[1..], ' ');
    }
  }

  lemma NeededCons(line: Bytes, lines: seq<Bytes>)
    requires lines != [] && AllNeeded(lines) && Needed(line, lines[0])
    ensures AllNeeded([line] + lines)
  {
    var all := [line] + lines;
    forall i | 0 <= i < |all| - 1
      ensures Needed(all[i], all[i + 1])
    {
      assert i > 0 ==> all[i] == lines[i - 1] && all[i + 1] == lines[i];
    }
  }

  lemma {:induction false} LinesAreNeeded(line: Bytes, tokens: seq<Bytes>)
    requires forall t :: t in tokens ==> EolFree(t) && ' ' !in t
    requires EolFree(line)
    ensures var lines := SplitLines(line + FoldTokens(tokens, |line|));
            AllNeeded(lines) && (line != [] ==> StartsWith(lines[0], line))
    decreases |tokens|
  {
    if tokens == [] {
      SingleLine(line);
      assert line + [] == line;
    } else {
      var t, rest := tokens[0], tokens[1..];
      assert t in tokens && forall u :: u in rest ==> u in tokens;
      NextLineFits(line, t, tokens);
      LinesAreNeeded(NextLine(line, t), rest);
      FoldStep(line, tokens, |line|);
      LinesAfter(line, t, FoldTokens(rest, NextColumn(|line|, t)));
      var lines := SplitLines(NextLine(line, t) + FoldTokens(rest, NextColumn(|line|, t)));
      if Breaks(|line|, t) {
        FirstToken(lines[0], t);
        NeededCons(line, lines);
      } else if line != [] {
        StartsShorter(lines[0], line, t);
        assert [] + lines == lines;
      } else {
        assert [] + lines == lines;
      }
    }
  }

  lemma StartsShorter(first: Bytes, line: Bytes, t: Bytes)
    requires line != [] && line + SP + t <= first
    ensures StartsWith(first, line)
  {
    assert (line + SP + t)[|line|] == ' ';
  }

  /** Every break is needed: each further line starts with a tab and a token that
      would have made the line before longer than 72 columns. */
  lemma FoldsOnlyWhenNeeded(value: Bytes)
    requires EolFree(value)
    ensures AllNeeded(SplitLines(Fold(value)))
  {
    var tokens := Split(value, ' ');
    PiecesWithin(value, ' ');
    NoSpacesInPieces(value);
    LinesAreNeeded([], tokens);
    assert [] + Fold(value) == Fold(value);
  }

  lemma {:induction false} NoSpacesInPieces(s: Bytes)
    ensures forall t :: t in Split(s, ' ') ==> ' ' !in t
  {
    if s != [] {
      NoSpacesInPieces(s[1..]);
      var tail, all := Split(s[1..], ' '), Split(s, ' ');
      forall t | t in all
        ensures ' ' !in t
      {
        if t !in tail && t != [] {
          assert t == [s[0]] + tail[0];
        }
      }
    }
  }

  lemma {:induction false} SingleLine(line: Bytes)
    requires EolFree(line)
    ensures SplitLines(line) == [line]
  {
    if line != [] {
      assert forall i :: 0 <= i < |line| - 1 ==> line[1..][i] == line[i + 1];
      SingleLine(line[1..]);
      assert [line[0]] + line[1..] == line;
    }
  }

  /** Every line of a folded value is at most 72 columns, or one token alone. */
  lemma FoldedLinesFit(value: Bytes)
    requires EolFree(value)
    ensures AllFit(SplitLines(Fold(value)), Split(value, ' '))
  {
    PiecesWithin(value, ' ');
    FoldedLines([], Split(value, ' '), Split(value, ' '));
    assert [] + Fold(value) == Fold(value);
  }

  lemma {:induction false} PiecesWithin(s: Bytes, sep: Byte)
    ensures forall t, i :: t in Split(s, sep) && 0 <= i < |t| ==> t[i] in s
  {
    if s != [] {
      PiecesWithin(s[1..], sep);
      assert forall b :: b in s[1..] ==> b in s;
      var tail, all := Split(s[1..], sep), Split(s, sep);
      forall t, i | t in all && 0 <= i < |t|
        ensures t[i] in s
      {
        if t !in tail {
          assert t == [s[0]] + tail[0];
          assert i > 0 ==> t[i] == tail[0][i - 1];
        }
      }
    }
  }
}
