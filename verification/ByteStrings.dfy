/** Bytes, the character classes the program tests for, and the whitespace
    operations that RFC 6376 names. A byte is written as the character with the
    same code, which keeps literals readable. The type does not stop at code
    255, so every statement below covers the 256 bytes and more. */
module ByteStrings {

  type Byte = char
  type Bytes = seq<Byte>

  predicate IsOctets(s: Bytes) { forall i :: 0 <= i < |s| ==> s[i] as int < 256 }

  type Octets = s: Bytes | IsOctets(s)

  datatype Option<+T> = None | Some(value: T)
  datatype Result<+T, +E> = Ok(value: T) | Err(error: E)

  const CRLF: Bytes := ['\r', '\n']
  const CRLFTAB: Bytes := ['\r', '\n', '\t']
  const SP: Bytes := [' ']

  // The largest value of a 64-bit usize.
  const USIZE_MAX: nat := 0xFFFF_FFFF_FFFF_FFFF

  predicate IsWsp(b: Byte) { b == ' ' || b == '\t' }

  predicate IsEol(b: Byte) { b == '\r' || b == '\n' }

  /** No line end anywhere. */
  predicate EolFree(s: Bytes) { forall i :: 0 <= i < |s| ==> !IsEol(s[i]) }

  lemma EolFreeCons(b: Byte, s: Bytes)
    ensures EolFree([b] + s) <==> !IsEol(b) && EolFree(s)
  {
    var t := [b] + s;
    assert t[0] == b && forall i :: 0 <= i < |s| ==> t[i + 1] == s[i];
  }

  predicate IsFws(b: Byte) { IsWsp(b) || IsEol(b) }

  predicate IsDigit(b: Byte) { '0' <= b <= '9' }

  predicate IsAlnum(b: Byte) { 'a' <= b <= 'z' || 'A' <= b <= 'Z' || IsDigit(b) }

  predicate IsAscii(b: Byte) { b as int < 0x80 }

  predicate IsAsciiControl(b: Byte) { b as int < 0x20 || b as int == 0x7F }

  function Lower(b: Byte): Byte {
    if 'A' <= b <= 'Z' then (b as int + 32) as char else b
  }

  function LowerAll(s: Bytes): (r: Bytes)
    ensures |r| == |s|
    ensures forall i :: 0 <= i < |s| ==> r[i] == Lower(s[i])
  {
    seq(|s|, i requires 0 <= i < |s| => Lower(s[i]))
  }

  function SaturatingAdd(a: nat, b: nat): nat {
    if a + b > USIZE_MAX then USIZE_MAX else a + b
  }

  function Repeat(unit: Bytes, n: nat): Bytes {
    if n == 0 then [] else unit + Repeat(unit, n - 1)
  }

  lemma RepeatSnoc(unit: Bytes, n: nat)
    ensures Repeat(unit, n) + unit == Repeat(unit, n + 1)
  {
    if n > 0 {
      RepeatSnoc(unit, n - 1);
      assert Repeat(unit, n) + unit == unit + (Repeat(unit, n - 1) + unit);
    }
  }

  lemma ConcatAssoc<T>(a: seq<T>, b: seq<T>, c: seq<T>)
    ensures a + (b + c) == a + b + c
  {
  }

  lemma SameRest<T>(a: seq<T>, b: seq<T>, c: seq<T>)
    requires a + b == a + c
    ensures b == c
  {
    assert (a + b)[|a|..] == b && (a + c)[|a|..] == c;
  }

  lemma SplitLast<T>(s: seq<T>)
    requires s != []
    ensures s == s[..|s| - 1] + [s[|s| - 1]]
  {
  }

  lemma SplitAt<T>(s: seq<T>, n: nat)
    requires n <= |s|
    ensures s == s[..n] + s[n..]
  {
  }

  lemma SliceAt<T>(s: seq<T>, low: nat, high: nat, i: nat)
    requires low <= i < high <= |s|
    ensures s[low..high][i - low] == s[i]
  {
  }

  lemma SliceOfSlice<T>(s: seq<T>, low: nat, high: nat, from: nat, to: nat)
    requires low <= high <= |s| && from <= to <= high - low
    ensures s[low..high][from..to] == s[low + from..low + to]
  {
    var a, b := s[low..high][from..to], s[low + from..low + to];
    assert |a| == |b| && forall i :: 0 <= i < |a| ==> a[i] == b[i];
  }

  lemma PrefixOfPrefix<T>(s: seq<T>, n: nat, k: nat)
    requires k <= n <= |s|
    ensures s[..n][..k] == s[..k]
  {
  }

  /** Slices that start or end with the sequence, written with both bounds. */
  lemma FullSlices<T>(s: seq<T>, n: nat)
    requires n <= |s|
    ensures s[0..n] == s[..n] && s[n..|s|] == s[n..]
  {
  }

  function Flatten(parts: seq<Bytes>): Bytes {
    if parts == [] then [] else parts[0] + Flatten(parts[1..])
  }

  lemma FlattenSnoc(parts: seq<Bytes>, last: Bytes)
    ensures Flatten(parts + [last]) == Flatten(parts) + last
  {
    if parts == [] {
      assert parts + [last] == [last] + [];
    } else {
      assert (parts + [last])[1..] == parts[1..] + [last];
      FlattenSnoc(parts[1..], last);
    }
  }

  /** Dots at the end removed. */
  function TrimDots(s: Bytes): (r: Bytes)
    ensures r <= s
    ensures r != [] ==> r[|r| - 1] != '.'
    ensures forall i :: |r| <= i < |s| ==> s[i] == '.'
  {
    if s != [] && s[|s| - 1] == '.' then TrimDots(s[..|s| - 1]) else s
  }

  // ----- whitespace, as sections 3.4.2 and 3.4.4 of RFC 6376 describe it -----

  function DropWsp(s: Bytes): (r: Bytes)
    ensures |r| <= |s|
    ensures r == [] || !IsWsp(r[0])
  {
    if s != [] && IsWsp(s[0]) then DropWsp(s[1..]) else s
  }

  /** Whitespace at the end removed. */
  function TrimEnd(s: Bytes): (r: Bytes)
    ensures |r| <= |s|
  {
    if s == [] then []
    else
      var t := TrimEnd(s[1..]);
      if t == [] && IsWsp(s[0]) then [] else [s[0]] + t
  }

  /** Each run of whitespace reduced to one space. */
  function Collapse(s: Bytes): (r: Bytes)
    ensures |r| <= |s|
    decreases |s|
  {
    if s == [] then []
    else if IsWsp(s[0]) then SP + Collapse(DropWsp(s[1..]))
    else [s[0]] + Collapse(s[1..])
  }

  lemma TrimEndCons(b: Byte, s: Bytes)
    ensures TrimEnd([b] + s) == if TrimEnd(s) == [] && IsWsp(b) then [] else [b] + TrimEnd(s)
  {
    assert ([b] + s)[1..] == s;
  }

  lemma CollapseCons(b: Byte, s: Bytes)
    ensures Collapse([b] + s) == if IsWsp(b) then SP + Collapse(DropWsp(s)) else [b] + Collapse(s)
  {
    assert ([b] + s)[1..] == s;
  }

  /** Splits at every occurrence of `sep`: n separators give n + 1 pieces. */
  function Split(s: Bytes, sep: Byte): (r: seq<Bytes>)
    ensures |r| >= 1
    ensures |s| > 0 && s[0] == sep ==> r == [[]] + Split(s[1..], sep)
  {
    if s == [] then [[]]
    else
      var r := Split(s[1..], sep);
      if s[0] == sep then [[]] + r else [[s[0]] + r[0]] + r[1..]
  }

  function Join(parts: seq<Bytes>, sep: Bytes): Bytes {
    if parts == [] then [] else if |parts| == 1 then parts[0]
    else parts[0] + sep + Join(parts[1..], sep)
  }

  lemma {:induction false} SplitFirst(piece: Bytes, rest: Bytes, sep: Byte)
    requires sep !in piece
    ensures Split(piece, sep) == [piece]
    ensures Split(piece + [sep] + rest, sep) == [piece] + Split(rest, sep)
  {
    var s := piece + [sep] + rest;
    if piece == [] {
      assert s[1..] == rest;
    } else {
      SplitFirst(piece[1..], rest, sep);
      assert s[1..] == piece[1..] + [sep] + rest;
      assert [piece[0]] + piece[1..] == piece;
    }
  }

  lemma {:induction false} SplitJoin(parts: seq<Bytes>, sep: Byte)
    requires parts != []
    requires forall p :: p in parts ==> sep !in p
    ensures Split(Join(parts, [sep]), sep) == parts
  {
    assert parts[0] in parts;
    if |parts| == 1 {
      SplitFirst(parts[0], [], sep);
      assert parts == [parts[0]];
    } else {
      var tail := parts[1..];
      assert forall p :: p in tail ==> p in parts;
      SplitJoin(tail, sep);
      SplitFirst(parts[0], Join(tail, [sep]), sep);
      assert parts == [parts[0]] + tail;
    }
  }

  /** The position of the first `b`, or the length when there is none. */
  function Find(s: Bytes, b: Byte): (i: nat)
    ensures i <= |s| && b !in s[..i]
    ensures i < |s| ==> s[i] == b
  {
    if s == [] || s[0] == b then 0
    else
      var i := Find(s[1..], b);
      assert s[..i + 1] == [s[0]] + s[1..][..i];
      i + 1
  }

  lemma FindIn(before: Bytes, b: Byte, after: Bytes)
    requires b !in before
    ensures Find(before + [b] + after, b) == |before|
  {
    var s := before + [b] + after;
    var i := Find(s, b);
    assert forall k :: 0 <= k < |before| ==> s[k] == before[k];
    assert forall k :: 0 <= k < i ==> s[k] == s[..i][k];
    assert s[|before|] == b;
  }

  /** Decimal digits of a number. */
  function Decimal(n: nat): (r: Bytes)
    ensures r != [] && forall b :: b in r ==> IsDigit(b)
  {
    var digit := (48 + n % 10) as char;
    if n < 10 then [digit] else Decimal(n / 10) + [digit]
  }

  function DecimalValue(s: Bytes): nat
    requires forall b :: b in s ==> IsDigit(b)
  {
    if s == [] then 0
    else
      assert IsDigit(s[|s| - 1]);
      DecimalValue(s[..|s| - 1]) * 10 + (s[|s| - 1] as int - 48)
  }

  lemma {:induction false} DecimalRoundTrip(n: nat)
    ensures DecimalValue(Decimal(n)) == n
  {
    if n >= 10 {
      DecimalRoundTrip(n / 10);
      assert Decimal(n)[..|Decimal(n)| - 1] == Decimal(n / 10);
    }
  }
}
