/** Relaxed header canonicalization: the loop of src/dkim.rs against the steps of
    section 3.4.2 of RFC 6376. */
module HeaderCanonicalizers {
  import opened ByteStrings

  /** What the loop appends for `value`, given whether a byte of the value has
      been written already and whether whitespace is pending. */
  function RelaxFrom(value: Bytes, started: bool, pending: bool): Bytes {
    if value == [] then []
    else if IsFws(value[0]) then RelaxFrom(value[1..], started, true)
    else (if pending && started then SP else []) + [value[0]] + RelaxFrom(value[1..], true, false)
  }

  function Relaxed(value: Bytes): Bytes { RelaxFrom(value, false, false) }

  function RelaxedHeader(name: Bytes, value: Bytes): Bytes {
    LowerAll(name) + [':'] + Relaxed(value) + CRLF
  }

  method CanonicalizeHeader(name: Bytes, value: Bytes) returns (out: Bytes)
    ensures out == RelaxedHeader(name, value)
  {
    out := LowerAll(name);
    out := out + [':'];
    ghost var head := out;
    var valueStart := |out|;
    var pendingWsp := false;
    var index := 0;
    while index < |value|
      invariant valueStart == |head| <= |out| && 0 <= index <= |value|
      invariant out + RelaxFrom(value[index..], |out| > valueStart, pendingWsp) == head + Relaxed(value)
    {
      var byte := value[index];
      assert value[index..][1..] == value[index + 1..];
      if IsWsp(byte) {
        pendingWsp := true;
      } else if byte == '\r' && index + 1 < |value| && value[index + 1] == '\n' {
        index := index + 1;
        assert value[index..][1..] == value[index + 1..];
        pendingWsp := true;
      } else if IsEol(byte) {
        pendingWsp := true;
      } else {
        ghost var before := out;
        ghost var lead := if pendingWsp && |out| > valueStart then SP else [];
        ghost var rest := RelaxFrom(value[index + 1..], true, false);
        assert before + (lead + [byte] + rest) == before + lead + [byte] + rest;
        if pendingWsp && |out| > valueStart {
          out := out + SP;
        }
        pendingWsp := false;
        out := out + [byte];
        assert out == before + lead + [byte];
      }
      index := index + 1;
    }
    out := out + CRLF;
  }

  // ----- section 3.4.2 -----

  /** Each CRLF that is followed by whitespace deleted. */
  function DeleteFolds(value: Bytes): Bytes {
    if value == [] then []
    else if |value| >= 3 && value[..2] == CRLF && IsWsp(value[2]) then DeleteFolds(value[2..])
    else [value[0]] + DeleteFolds(value[1..])
  }

  /** Line ends occur only as CRLF followed by whitespace. */
  predicate LegallyFolded(value: Bytes) {
    value == [] ||
    if value[0] == '\r' then |value| >= 3 && value[1] == '\n' && IsWsp(value[2]) && LegallyFolded(value[2..])
    else value[0] != '\n' && LegallyFolded(value[1..])
  }

  /** Unfold, reduce whitespace runs to one space, delete whitespace at both ends. */
  function StandardRelaxed(value: Bytes): Bytes {
    TrimEnd(DropWsp(Collapse(DeleteFolds(value))))
  }

  lemma {:induction false} DeletionLeavesEol(value: Bytes)
    ensures EolFree(DeleteFolds(value)) <==> LegallyFolded(value)
    decreases |value|
  {
    if value != [] {
      if |value| >= 3 && value[..2] == CRLF && IsWsp(value[2]) {
        DeletionLeavesEol(value[2..]);
      } else {
        DeletionLeavesEol(value[1..]);
        EolFreeCons(value[0], DeleteFolds(value[1..]));
      }
    }
  }

  lemma {:induction false} TrimmingKeepsEol(s: Bytes)
    ensures EolFree(TrimEnd(s)) <==> EolFree(s)
    ensures EolFree(DropWsp(s)) <==> EolFree(s)
    ensures EolFree(Collapse(s)) <==> EolFree(s)
    decreases |s|
  {
    if s != [] {
      var tail := s[1..];
      assert s == [s[0]] + tail;
      EolFreeCons(s[0], tail);
      TrimmingKeepsEol(tail);
      TrimEndCons(s[0], tail);
      EolFreeCons(s[0], TrimEnd(tail));
      CollapseCons(s[0], tail);
      EolFreeCons(s[0], Collapse(tail));
      TrimmingKeepsEol(DropWsp(tail));
      EolFreeCons(' ', Collapse(DropWsp(tail)));
    }
  }

  lemma {:induction false} RelaxedHasNoEol(value: Bytes, started: bool, pending: bool)
    ensures EolFree(RelaxFrom(value, started, pending))
  {
    if value != [] {
      if IsFws(value[0]) {
        RelaxedHasNoEol(value[1..], started, true);
      } else {
        RelaxedHasNoEol(value[1..], true, false);
        var rest := [value[0]] + RelaxFrom(value[1..], true, false);
        EolFreeCons(value[0], RelaxFrom(value[1..], true, false));
        EolFreeCons(' ', rest);
        assert SP + rest == [' '] + rest;
        assert SP + [value[0]] + RelaxFrom(value[1..], true, false) == SP + rest;
        assert [] + [value[0]] + RelaxFrom(value[1..], true, false) == rest;
      }
    }
  }

  /** Folding is invisible to the loop. */
  lemma {:induction false} RelaxWithoutFolds(value: Bytes, started: bool, pending: bool)
    requires LegallyFolded(value)
    ensures RelaxFrom(value, started, pending) == RelaxFrom(DeleteFolds(value), started, pending)
    decreases |value|
  {
    if value != [] {
      if value[0] == '\r' {
        assert value[1..][1..] == value[2..];
        var rest := value[2..];
        RelaxWithoutFolds(rest, started, pending);
        assert IsWsp(rest[0]);
        assert RelaxFrom(rest, started, true) == RelaxFrom(rest, started, pending);
      } else {
        var rest := DeleteFolds(value[1..]);
        assert ([value[0]] + rest)[1..] == rest;
        if IsFws(value[0]) {
          RelaxWithoutFolds(value[1..], started, true);
        } else {
          RelaxWithoutFolds(value[1..], true, false);
        }
      }
    }
  }

  /** What three states of the loop make of text without line ends. */
  predicate Trims(s: Bytes) {
    && RelaxFrom(s, true, false) == TrimEnd(Collapse(s))
    && RelaxFrom(s, true, true) == TrimEnd(SP + Collapse(DropWsp(s)))
    && RelaxFrom(s, false, true) == RelaxFrom(s, false, false) == TrimEnd(DropWsp(Collapse(s)))
  }

  lemma TrimsAtWsp(w: Byte, tail: Bytes)
    requires IsWsp(w) && Trims(tail)
    ensures Trims([w] + tail)
  {
    var s := [w] + tail;
    assert s[1..] == tail;
    CollapseCons(w, tail);
    DropWspCollapse(tail);
    assert (SP + Collapse(DropWsp(tail)))[1..] == Collapse(DropWsp(tail));
  }

  lemma TrimsAtText(c: Byte, tail: Bytes)
    requires !IsFws(c) && Trims(tail)
    ensures Trims([c] + tail)
  {
    var s, rest := [c] + tail, Collapse(tail);
    CollapseCons(c, tail);
    RelaxFromCons(c, tail, true, false);
    RelaxFromCons(c, tail, true, true);
    RelaxFromCons(c, tail, false, true);
    RelaxFromCons(c, tail, false, false);
    TrimEndCons(c, rest);
    TrimEndCons(' ', [c] + rest);
    ConcatAssoc(SP, [c], TrimEnd(rest));
    assert SP + ([c] + rest) == [' '] + ([c] + rest);
    assert DropWsp(s) == s && DropWsp([c] + rest) == [c] + rest;
  }

  /** On text without line ends the loop reduces and trims. */
  lemma {:induction false} RelaxIsTrimmedCollapse(s: Bytes)
    requires EolFree(s)
    ensures Trims(s)
    decreases |s|
  {
    if s != [] {
      var tail := s[1..];
      assert s == [s[0]] + tail;
      EolFreeCons(s[0], tail);
      RelaxIsTrimmedCollapse(tail);
      if IsWsp(s[0]) {
        TrimsAtWsp(s[0], tail);
      } else {
        TrimsAtText(s[0], tail);
      }
    }
  }

  lemma {:induction false} DropWspCollapse(s: Bytes)
    ensures DropWsp(Collapse(s)) == Collapse(DropWsp(s))
    decreases |s|
  {
    if s != [] && IsWsp(s[0]) {
      var rest := DropWsp(s[1..]);
      assert (SP + Collapse(rest))[1..] == Collapse(rest);
      assert rest == [] || !IsWsp(rest[0]);
    }
  }

  lemma StandardKeepsEol(value: Bytes)
    ensures EolFree(StandardRelaxed(value)) <==> LegallyFolded(value)
  {
    DeletionLeavesEol(value);
    TrimmingKeepsEol(DeleteFolds(value));
    TrimmingKeepsEol(Collapse(DeleteFolds(value)));
    TrimmingKeepsEol(DropWsp(Collapse(DeleteFolds(value))));
  }

  /** The loop computes the standard's relaxed value exactly on legally folded
      values; on any other it hides a line end that the standard would keep. */
  lemma RelaxedIsStandard(value: Bytes)
    ensures Relaxed(value) == StandardRelaxed(value) <==> LegallyFolded(value)
  {
    DeletionLeavesEol(value);
    StandardKeepsEol(value);
    RelaxedHasNoEol(value, false, false);
    if LegallyFolded(value) {
      RelaxWithoutFolds(value, false, false);
      RelaxIsTrimmedCollapse(DeleteFolds(value));
    }
  }

  lemma RelaxFromCons(b: Byte, rest: Bytes, started: bool, pending: bool)
    ensures RelaxFrom([b] + rest, started, pending)
         == if IsFws(b) then RelaxFrom(rest, started, true)
            else (if pending && started then SP else []) + [b] + RelaxFrom(rest, true, false)
  {
    assert ([b] + rest)[1..] == rest;
  }

  lemma {:induction false} RelaxAgain(value: Bytes, started: bool, pending: bool)
    ensures RelaxFrom(RelaxFrom(value, started, pending), started, false) == RelaxFrom(value, started, pending)
  {
    if value != [] {
      if IsFws(value[0]) {
        RelaxAgain(value[1..], started, true);
      } else {
        RelaxAgain(value[1..], true, false);
        var rest := RelaxFrom(value[1..], true, false);
        RelaxFromCons(value[0], rest, started, pending);
        RelaxFromCons(value[0], rest, started, false);
        RelaxFromCons(value[0], rest, true, true);
        RelaxFromCons(' ', [value[0]] + rest, true, false);
        assert SP + [value[0]] + rest == [' '] + ([value[0]] + rest);
        assert [] + [value[0]] + rest == [value[0]] + rest;
      }
    }
  }

  /** Canonicalizing a canonical value changes nothing. */
  lemma RelaxedIdempotent(value: Bytes)
    ensures Relaxed(Relaxed(value)) == Relaxed(value)
  {
    RelaxAgain(value, false, false);
  }
}
