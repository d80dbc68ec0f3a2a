/** The base64 encoding of section 4 of RFC 4648, as the signer uses it, with the
    decoder a verifier uses. */
module Base64 {
  import opened ByteStrings

  predicate IsDigit64(b: Byte) { IsAlnum(b) || b == '+' || b == '/' }

  function Digit(n: nat): (b: Byte)
    requires n < 64
    ensures IsDigit64(b)
  {
    if n < 26 then (n + 65) as char
    else if n < 52 then (n + 71) as char
    else if n < 62 then (n - 4) as char
    else if n == 62 then '+' else '/'
  }

  function Value(b: Byte): (n: nat)
    requires IsDigit64(b)
    ensures n < 64
  {
    if 'A' <= b <= 'Z' then b as int - 65
    else if 'a' <= b <= 'z' then b as int - 71
    else if '0' <= b <= '9' then b as int + 4
    else if b == '+' then 62 else 63
  }

  lemma ValueOfDigit(n: nat)
    requires n < 64
    ensures Value(Digit(n)) == n && Digit(n) != '='
  {
  }

  // The 6-bit groups of three octets, and back.

  function Group0(a: nat): nat { a / 4 }
  function Group1(a: nat, b: nat): nat { a % 4 * 16 + b / 16 }
  function Group2(b: nat, c: nat): nat { b % 16 * 4 + c / 64 }
  function Group3(c: nat): nat { c % 64 }

  function Octet0(w: nat, x: nat): nat { w * 4 + x / 16 }
  function Octet1(x: nat, y: nat): nat { x % 16 * 16 + y / 4 }
  function Octet2(y: nat, z: nat): nat { y % 4 * 64 + z }

  lemma GroupsKeepOctets(a: nat, b: nat, c: nat)
    requires a < 256 && b < 256 && c < 256
    ensures Group0(a) < 64 && Group1(a, b) < 64 && Group2(b, c) < 64 && Group3(c) < 64
    ensures Octet0(Group0(a), Group1(a, b)) == a
    ensures Octet1(Group1(a, b), Group2(b, c)) == b
    ensures Octet2(Group2(b, c), Group3(c)) == c
    ensures Group1(a, 0) % 16 == 0 && Group2(b, 0) % 4 == 0
  {
  }

  function OctetAt(s: Bytes, i: nat): (n: nat)
    requires IsOctets(s)
    ensures n < 256
  {
    if i < |s| then s[i] as int else 0
  }

  /** The four digits for up to three octets, with padding for missing ones. */
  function Quantum(s: Bytes): (r: Bytes)
    requires s != [] && IsOctets(s)
    ensures |r| == 4 && forall i :: 0 <= i < 4 ==> IsDigit64(r[i]) || r[i] == '='
  {
    var a, b, c := OctetAt(s, 0), OctetAt(s, 1), OctetAt(s, 2);
    if |s| == 1 then [Digit(Group0(a)), Digit(Group1(a, b)), '=', '=']
    else if |s| == 2 then [Digit(Group0(a)), Digit(Group1(a, b)), Digit(Group2(b, c)), '=']
    else [Digit(Group0(a)), Digit(Group1(a, b)), Digit(Group2(b, c)), Digit(Group3(c))]
  }

  function Encode(s: Bytes): Bytes
    requires IsOctets(s)
    decreases |s|
  {
    if s == [] then [] else Quantum(s) + Encode(if |s| <= 3 then [] else s[3..])
  }

  function DecodeQuantum(s: Bytes): Option<Bytes>
    requires |s| == 4
  {
    if !IsDigit64(s[0]) || !IsDigit64(s[1]) then None
    else
      var w, x := Value(s[0]), Value(s[1]);
      var a := Octet0(w, x) as char;
      if s[2] == '=' then
        if s[3] == '=' && x % 16 == 0 then Some([a]) else None
      else if !IsDigit64(s[2]) then None
      else
        var y := Value(s[2]);
        var b := Octet1(x, y) as char;
        if s[3] == '=' then
          if y % 4 == 0 then Some([a, b]) else None
        else if !IsDigit64(s[3]) then None
        else Some([a, b, Octet2(y, Value(s[3])) as char])
  }

  /** Padding is accepted only in the last quantum. */
  function Decode(s: Bytes): Option<Bytes> {
    if s == [] then Some([])
    else if |s| < 4 then None
    else
      var first, rest := DecodeQuantum(s[..4]), Decode(s[4..]);
      if first.None? || rest.None? || (|first.value| < 3 && |s| > 4) then None
      else Some(first.value + rest.value)
  }

  lemma DigitsDecode(w: nat, x: nat, y: nat, z: nat)
    requires w < 64 && x < 64 && y < 64 && z < 64
    ensures x % 16 == 0 ==> (DecodeQuantum([Digit(w), Digit(x), '=', '=']) == Some([Octet0(w, x) as char]))
    ensures y % 4 == 0 ==> (DecodeQuantum([Digit(w), Digit(x), Digit(y), '='])
                            == Some([Octet0(w, x) as char, Octet1(x, y) as char]))
    ensures DecodeQuantum([Digit(w), Digit(x), Digit(y), Digit(z)])
         == Some([Octet0(w, x) as char, Octet1(x, y) as char, Octet2(y, z) as char])
  {
    ValueOfDigit(w);
    ValueOfDigit(x);
    ValueOfDigit(y);
    ValueOfDigit(z);
  }

  lemma QuantumRoundTrip(s: Bytes)
    requires s != [] && IsOctets(s)
    ensures DecodeQuantum(Quantum(s)) == Some(if |s| <= 3 then s else s[..3])
  {
    var a, b, c := OctetAt(s, 0), OctetAt(s, 1), OctetAt(s, 2);
    GroupsKeepOctets(a, b, c);
    DigitsDecode(Group0(a), Group1(a, b), Group2(b, c), Group3(c));
    OctetsOf(s, a, b, c);
  }

  lemma OctetsOf(s: Bytes, a: nat, b: nat, c: nat)
    requires s != [] && IsOctets(s)
    requires a == OctetAt(s, 0) && b == OctetAt(s, 1) && c == OctetAt(s, 2)
    ensures (if |s| <= 3 then s else s[..3])
         == if |s| == 1 then [a as char] else if |s| == 2 then [a as char, b as char]
            else [a as char, b as char, c as char]
  {
  }

  /** Decoding gives back what was encoded. */
  lemma {:induction false} RoundTrip(s: Bytes)
    requires IsOctets(s)
    ensures Decode(Encode(s)) == Some(s)
    decreases |s|
  {
    if s != [] {
      var rest := if |s| <= 3 then [] else s[3..];
      QuantumRoundTrip(s);
      RoundTrip(rest);
      assert Encode(s)[..4] == Quantum(s) && Encode(s)[4..] == Encode(rest);
      assert (if |s| <= 3 then s else s[..3]) + rest == s;
    }
  }

  lemma {:induction false} EncodeLength(s: Bytes)
    requires IsOctets(s)
    ensures |Encode(s)| == 4 * ((|s| + 2) / 3)
    decreases |s|
  {
    if |s| > 3 {
      EncodeLength(s[3..]);
      assert (|s| - 3 + 2) / 3 + 1 == (|s| + 2) / 3;
    } else if s != [] {
      EncodeLength([]);
    }
  }

  lemma {:induction false} EncodeAlphabet(s: Bytes)
    requires IsOctets(s)
    ensures forall i :: 0 <= i < |Encode(s)| ==> IsDigit64(Encode(s)[i]) || Encode(s)[i] == '='
    decreases |s|
  {
    if s != [] {
      EncodeAlphabet(if |s| <= 3 then [] else s[3..]);
    }
  }
}
