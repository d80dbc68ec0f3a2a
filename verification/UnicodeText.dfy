/** What Rust's str::from_utf8 and str::trim accept, by the Unicode standard. */
module UnicodeText {
  import opened ByteStrings
  import opened Mailboxes

  predicate IsScalar(cp: nat) { cp < 0xD800 || 0xE000 <= cp < 0x11_0000 }

  /** A Unicode scalar value. */
  type Scalar = cp: nat | IsScalar(cp)

  function Code(n: nat): Byte
    requires n < 256
  {
    n as char
  }

  /** UTF-8, section 3 of RFC 3629. */
  function Encode(cp: Scalar): (r: Bytes)
    ensures 1 <= |r| <= 4
  {
    if cp < 0x80 then [Code(cp)]
    else if cp < 0x800 then [Code(0xC0 + cp / 0x40), Code(0x80 + cp % 0x40)]
    else if cp < 0x1_0000 then
      [Code(0xE0 + cp / 0x1000), Code(0x80 + cp / 0x40 % 0x40), Code(0x80 + cp % 0x40)]
    else
      assert IsScalar(cp);
      [Code(0xF0 + cp / 0x4_0000), Code(0x80 + cp / 0x1000 % 0x40), Code(0x80 + cp / 0x40 % 0x40),
       Code(0x80 + cp % 0x40)]
  }

  function EncodeAll(text: seq<Scalar>): Bytes {
    if text == [] then [] else Encode(text[0]) + EncodeAll(text[1..])
  }

  lemma EncodedIsUtf8(cp: Scalar, rest: Bytes)
    ensures Utf8(Encode(cp) + rest) <==> Utf8(rest)
  {
    var s := Encode(cp) + rest;
    assert s[|Encode(cp)|..] == rest && IsScalar(cp);
    if 0x800 <= cp < 0x1_0000 {
      assert cp / 0x1000 == 0 ==> cp / 0x40 % 0x40 >= 0x20;
      assert cp / 0x1000 == 0xD ==> cp / 0x40 % 0x40 < 0x20;
    } else if cp >= 0x1_0000 {
      assert cp / 0x4_0000 <= 4;
      assert cp / 0x4_0000 == 0 ==> cp / 0x1000 % 0x40 >= 0x10;
      assert cp / 0x4_0000 == 4 ==> cp / 0x1000 % 0x40 < 0x10;
    }
  }

  function Bits(b: Byte, lead: nat): nat
    requires lead <= b as int
  {
    b as int - lead
  }

  /** The value of the character that starts well-formed text. */
  lemma FirstCharacter(s: Bytes) returns (cp: Scalar)
    requires s != [] && Utf8(s)
    ensures |Encode(cp)| <= |s| && s == Encode(cp) + s[|Encode(cp)|..] && Utf8(s[|Encode(cp)|..])
  {
    if Within(s[0], 0, 0x7F) {
      cp := s[0] as int;
    } else if Within(s[0], 0xC2, 0xDF) {
      cp := Bits(s[0], 0xC0) * 0x40 + Bits(s[1], 0x80);
    } else if Within(s[0], 0xE0, 0xEF) {
      cp := ThreeBytes(s[0], s[1], s[2]);
    } else {
      cp := FourBytes(s[0], s[1], s[2], s[3]);
    }
  }

  lemma ThreeBytes(a: Byte, b: Byte, c: Byte) returns (cp: Scalar)
    requires Within(a, 0xE0, 0xEF) && Continuation(b) && Continuation(c)
    requires Within(a, 0xE0, 0xE0) ==> Within(b, 0xA0, 0xBF)
    requires Within(a, 0xED, 0xED) ==> Within(b, 0x80, 0x9F)
    ensures Encode(cp) == [a, b, c]
  {
    var x, y, z := Bits(a, 0xE0), Bits(b, 0x80), Bits(c, 0x80);
    ThreeParts(x, y, z);
    cp := x * 0x1000 + y * 0x40 + z;
  }

  lemma FourBytes(a: Byte, b: Byte, c: Byte, d: Byte) returns (cp: Scalar)
    requires Within(a, 0xF0, 0xF4) && Continuation(b) && Continuation(c) && Continuation(d)
    requires Within(a, 0xF0, 0xF0) ==> Within(b, 0x90, 0xBF)
    requires Within(a, 0xF4, 0xF4) ==> Within(b, 0x80, 0x8F)
    ensures Encode(cp) == [a, b, c, d]
  {
    var x, y, z, u := Bits(a, 0xF0), Bits(b, 0x80), Bits(c, 0x80), Bits(d, 0x80);
    FourParts(x, y, z, u);
    cp := x * 0x4_0000 + y * 0x1000 + z * 0x40 + u;
  }

  lemma ThreeParts(x: nat, y: nat, z: nat)
    requires y < 0x40 && z < 0x40
    ensures var cp := x * 0x1000 + y * 0x40 + z; cp / 0x1000 == x && cp / 0x40 % 0x40 == y && cp % 0x40 == z
  {
    var cp := x * 0x1000 + y * 0x40 + z;
    assert cp / 0x40 == x * 0x40 + y;
  }

  lemma FourParts(x: nat, y: nat, z: nat, u: nat)
    requires y < 0x40 && z < 0x40 && u < 0x40
    ensures var cp := x * 0x4_0000 + y * 0x1000 + z * 0x40 + u;
      cp / 0x4_0000 == x && cp / 0x1000 % 0x40 == y && cp / 0x40 % 0x40 == z && cp % 0x40 == u
  {
    var cp := x * 0x4_0000 + y * 0x1000 + z * 0x40 + u;
    assert cp / 0x40 == x * 0x1000 + y * 0x40 + z;
    assert cp / 0x1000 == x * 0x40 + y;
  }

  lemma {:induction false} CharactersOf(s: Bytes) returns (text: seq<Scalar>)
    requires Utf8(s)
    ensures EncodeAll(text) == s
    decreases |s|
  {
    if s == [] {
      text := [];
    } else {
      var cp := FirstCharacter(s);
      var rest := CharactersOf(s[|Encode(cp)|..]);
      text := [cp] + rest;
      assert text[1..] == rest;
    }
  }

  lemma {:induction false} CharactersAreUtf8(text: seq<Scalar>)
    ensures Utf8(EncodeAll(text))
  {
    if text != [] {
      CharactersAreUtf8(text[1..]);
      EncodedIsUtf8(text[0], EncodeAll(text[1..]));
    }
  }

  /** The bytes accepted are exactly the encodings of sequences of scalar values. */
  lemma Utf8Exactly(s: Bytes)
    ensures Utf8(s) <==> exists text: seq<Scalar> :: EncodeAll(text) == s
  {
    if Utf8(s) {
      var text := CharactersOf(s);
    }
    if text: seq<Scalar> :| EncodeAll(text) == s {
      CharactersAreUtf8(text);
    }
  }

  /** The property White_Space of the Unicode Character Database. */
  predicate WhiteSpace(cp: Scalar) {
    || 0x09 <= cp <= 0x0D || cp == 0x20 || cp == 0x85 || cp == 0xA0 || cp == 0x1680
    || 0x2000 <= cp <= 0x200A || cp == 0x2028 || cp == 0x2029 || cp == 0x202F || cp == 0x205F || cp == 0x3000
  }

  /** Trimming from the left takes exactly the characters of white space. */
  lemma SpaceStarts(cp: Scalar, rest: Bytes)
    ensures var s := Encode(cp) + rest;
            SpaceAt(s, 0, |s|) == if WhiteSpace(cp) then |Encode(cp)| else 0
  {
    var s := Encode(cp) + rest;
    assert IsScalar(cp);
    assert cp < 0x80 ==> s[0] == Encode(cp)[0];
    assert cp >= 0x80 ==> s[0] == Encode(cp)[0] && s[1] == Encode(cp)[1];
    assert cp >= 0x800 ==> s[2] == Encode(cp)[2];
  }

  /** And so does trimming from the right. */
  lemma SpaceEnds(front: Bytes, cp: Scalar)
    ensures var s := front + Encode(cp);
            SpaceBefore(s, 0, |s|) == if WhiteSpace(cp) then |Encode(cp)| else 0
  {
  }
}
