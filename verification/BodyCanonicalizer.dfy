/** The streaming body canonicalizer of src/dkim.rs. The hasher is represented
    by the bytes it has been given. */
module BodyCanonicalizers {
  import opened ByteStrings

  datatype BodyState = BodyState(
    hashed: Bytes,
    pendingWsp: bool,
    pendingEmptyLines: nat,
    lineHasContent: bool,
    sawCr: bool)

  const INITIAL := BodyState([], false, 0, false, false)

  // ----- one byte at a time: the meaning of the automaton -----

  function EmitContent(s: BodyState, content: Bytes): BodyState {
    var blank := if s.lineHasContent then [] else Repeat(CRLF, s.pendingEmptyLines);
    s.(hashed := s.hashed + blank + (if s.pendingWsp then SP else []) + content,
       pendingWsp := false,
       pendingEmptyLines := if s.lineHasContent then s.pendingEmptyLines else 0,
       lineHasContent := true)
  }

  function EndLine(s: BodyState): BodyState {
    if s.lineHasContent then
      s.(hashed := s.hashed + CRLF, pendingWsp := false, lineHasContent := false)
    else
      s.(pendingWsp := false, pendingEmptyLines := SaturatingAdd(s.pendingEmptyLines, 1))
  }

  /** The pending end of line after a CR, closed by the next byte. */
  function CloseCr(s: BodyState): BodyState {
    if s.sawCr then EndLine(s.(sawCr := false)) else s
  }

  function Step(s: BodyState, b: Byte): BodyState {
    var c := CloseCr(s);
    if s.sawCr && b == '\n' then c
    else if b == '\r' then c.(sawCr := true)
    else if b == '\n' then EndLine(c)
    else if IsWsp(b) then c.(pendingWsp := true)
    else EmitContent(c, [b])
  }

  function Run(s: BodyState, data: Bytes): BodyState
    decreases |data|
  {
    if data == [] then s else Run(Step(s, data[0]), data[1..])
  }

  function Finish(s: BodyState): Bytes {
    if s.sawCr then EndLine(s).hashed
    else if s.lineHasContent then s.hashed + CRLF
    else s.hashed
  }

  /** What is hashed for a body that arrives as `data`. */
  function BodyOutput(data: Bytes): Bytes { Finish(Run(INITIAL, data)) }

  /** Cutting the input anywhere, between CR and LF too, changes nothing. */
  lemma {:induction false} RunSplit(s: BodyState, a: Bytes, b: Bytes)
    ensures Run(s, a + b) == Run(Run(s, a), b)
    decreases |a|
  {
    if a == [] {
      assert a + b == b;
    } else {
      assert (a + b)[1..] == a[1..] + b;
      RunSplit(Step(s, a[0]), a[1..], b);
    }
  }

  // ----- whole spans at a time: what the program runs -----

  predicate IsOrdinary(b: Byte) { !IsFws(b) }

  function OrdinaryPrefix(data: Bytes): (n: nat)
    ensures n <= |data|
    ensures forall i :: 0 <= i < n ==> IsOrdinary(data[i])
    ensures n < |data| ==> !IsOrdinary(data[n])
  {
    if data != [] && IsOrdinary(data[0]) then 1 + OrdinaryPrefix(data[1..]) else 0
  }

  function WspPrefix(data: Bytes): (n: nat)
    ensures n <= |data|
    ensures forall i :: 0 <= i < n ==> IsWsp(data[i])
    ensures n < |data| ==> !IsWsp(data[n])
  {
    if data != [] && IsWsp(data[0]) then 1 + WspPrefix(data[1..]) else 0
  }

  lemma {:induction false} RunOrdinarySpan(s: BodyState, span: Bytes)
    requires !s.sawCr && span != []
    requires forall i :: 0 <= i < |span| ==> IsOrdinary(span[i])
    ensures Run(s, span) == EmitContent(s, span)
    decreases |span|
  {
    var first := EmitContent(s, [span[0]]);
    assert Step(s, span[0]) == first;
    if |span| == 1 {
      assert span == [span[0]];
    } else {
      RunOrdinarySpan(first, span[1..]);
      assert [span[0]] + span[1..] == span;
      assert EmitContent(first, span[1..]).hashed == EmitContent(s, span).hashed;
    }
  }

  lemma {:induction false} RunWspSpan(s: BodyState, span: Bytes)
    requires !s.sawCr && span != []
    requires forall i :: 0 <= i < |span| ==> IsWsp(span[i])
    ensures Run(s, span) == s.(pendingWsp := true)
    decreases |span|
  {
    if |span| > 1 {
      RunWspSpan(s.(pendingWsp := true), span[1..]);
    }
  }

  lemma RunThrough(s: BodyState, rest: Bytes, n: nat, t: BodyState)
    requires n <= |rest| && Run(s, rest[..n]) == t
    ensures Run(s, rest) == Run(t, rest[n..])
  {
    SplitAt(rest, n);
    RunSplit(s, rest[..n], rest[n..]);
  }

  lemma SpanOfOrdinary(s: BodyState, rest: Bytes, n: nat)
    requires !s.sawCr && n == OrdinaryPrefix(rest) > 0
    ensures Run(s, rest) == Run(EmitContent(s, rest[..n]), rest[n..])
  {
    RunOrdinarySpan(s, rest[..n]);
    RunThrough(s, rest, n, EmitContent(s, rest[..n]));
  }

  lemma SpanOfWsp(s: BodyState, rest: Bytes, n: nat)
    requires !s.sawCr && n == WspPrefix(rest) > 0
    ensures Run(s, rest) == Run(s.(pendingWsp := true), rest[n..])
  {
    RunWspSpan(s, rest[..n]);
    RunThrough(s, rest, n, s.(pendingWsp := true));
  }

  class BodyCanonicalizer {
    var hashed: Bytes
    var pendingWsp: bool
    var pendingEmptyLines: nat
    var lineHasContent: bool
    var sawCr: bool

    ghost function State(): BodyState
      reads this
    {
      BodyState(hashed, pendingWsp, pendingEmptyLines, lineHasContent, sawCr)
    }

    constructor ()
      ensures State() == INITIAL
    {
      hashed, pendingWsp, pendingEmptyLines, lineHasContent, sawCr := [], false, 0, false, false;
    }

    method Update(data: Bytes)
      modifies this
      ensures State() == Run(old(State()), data)
    {
      var rest := data;
      while rest != []
        invariant Run(State(), rest) == Run(old(State()), data)
        decreases |rest|
      {
        if sawCr {
          ghost var before := State();
          sawCr := false;
          EndCurrentLine();
          assert State() == CloseCr(before);
          if rest[0] == '\n' {
            rest := rest[1..];
            continue;
          }
          assert Step(State(), rest[0]) == Step(before, rest[0]);
        }

        var ordinary := OrdinaryPrefix(rest);
        if ordinary > 0 {
          SpanOfOrdinary(State(), rest, ordinary);
          Emit(rest[..ordinary]);
          rest := rest[ordinary..];
          continue;
        }

        match rest[0]
        case '\r' =>
          sawCr := true;
          rest := rest[1..];
        case '\n' =>
          EndCurrentLine();
          rest := rest[1..];
        case _ =>
          var whitespace := WspPrefix(rest);
          SpanOfWsp(State(), rest, whitespace);
          pendingWsp := true;
          rest := rest[whitespace..];
      }
    }

    method Emit(content: Bytes)
      modifies this
      ensures State() == EmitContent(old(State()), content)
    {
      if !lineHasContent && pendingEmptyLines > 0 {
        for i := 0 to pendingEmptyLines
          invariant hashed == old(hashed) + Repeat(CRLF, i)
          invariant State() == old(State()).(hashed := hashed)
        {
          RepeatSnoc(CRLF, i);
          hashed := hashed + CRLF;
        }
        pendingEmptyLines := 0;
      }
      if pendingWsp {
        hashed := hashed + SP;
        pendingWsp := false;
      }
      hashed := hashed + content;
      lineHasContent := true;
    }

    method EndCurrentLine()
      modifies this
      ensures State() == EndLine(old(State()))
    {
      pendingWsp := false;
      if lineHasContent {
        hashed := hashed + CRLF;
        lineHasContent := false;
      } else {
        pendingEmptyLines := SaturatingAdd(pendingEmptyLines, 1);
      }
    }

    /** Consumes the canonicalizer and gives the bytes whose digest is taken. */
    method Complete() returns (output: Bytes)
      modifies this
      ensures output == Finish(old(State()))
    {
      if sawCr {
        EndCurrentLine();
      } else if lineHasContent {
        pendingWsp := false;
        hashed := hashed + CRLF;
      }
      output := hashed;
    }
  }

  /** A body handed over in any pieces is hashed as if it came in one. */
  method CanonicalizeChunks(chunks: seq<Bytes>) returns (output: Bytes)
    ensures output == BodyOutput(Flatten(chunks))
  {
    var canonicalizer := new BodyCanonicalizer();
    for i := 0 to |chunks|
      invariant canonicalizer.State() == Run(INITIAL, Flatten(chunks[..i]))
    {
      FlattenSnoc(chunks[..i], chunks[i]);
      assert chunks[..i + 1] == chunks[..i] + [chunks[i]];
      RunSplit(INITIAL, Flatten(chunks[..i]), chunks[i]);
      canonicalizer.Update(chunks[i]);
    }
    assert chunks[..|chunks|] == chunks;
    output := canonicalizer.Complete();
  }
}
