/** The character classes of the program, spelled out. */
module Alphabets {
  import opened ByteStrings
  import opened Mailboxes
  import Base64

  const CAPITALS: Bytes := "ABCDEFGHIJKLMNOPQRSTUVWXYZ"
  const SMALL: Bytes := "abcdefghijklmnopqrstuvwxyz"
  const DIGITS: Bytes := "0123456789"

  lemma CapitalAt(i: nat)
    requires i < 26
    ensures |CAPITALS| == 26 && CAPITALS[i] as int == 65 + i
  {
  }

  lemma SmallAt(i: nat)
    requires i < 26
    ensures |SMALL| == 26 && SMALL[i] as int == 97 + i
  {
  }

  lemma DigitAt(i: nat)
    requires i < 10
    ensures |DIGITS| == 10 && DIGITS[i] as int == 48 + i
  {
  }

  /** Each capital letter has its small letter as lower case. */
  lemma LowerOfCapital(i: nat)
    requires i < 26
    ensures Lower(CAPITALS[i]) == SMALL[i]
  {
    CapitalAt(i);
    SmallAt(i);
  }

  lemma CapitalsAre(b: Byte)
    ensures b in CAPITALS <==> 65 <= b as int <= 90
  {
    forall i | 0 <= i < 26
      ensures CAPITALS[i] as int == 65 + i
    {
      CapitalAt(i);
    }
    if 65 <= b as int <= 90 {
      assert CAPITALS[b as int - 65] == b;
    }
  }

  lemma SmallAre(b: Byte)
    ensures b in SMALL <==> 97 <= b as int <= 122
  {
    forall i | 0 <= i < 26
      ensures SMALL[i] as int == 97 + i
    {
      SmallAt(i);
    }
    if 97 <= b as int <= 122 {
      assert SMALL[b as int - 97] == b;
    }
  }

  lemma DigitsAre(b: Byte)
    ensures b in DIGITS <==> 48 <= b as int <= 57
  {
    forall i | 0 <= i < 10
      ensures DIGITS[i] as int == 48 + i
    {
      DigitAt(i);
    }
    if 48 <= b as int <= 57 {
      assert DIGITS[b as int - 48] == b;
    }
  }

  /** Nothing else has a lower case of its own. */
  lemma LowerOfOthers(b: Byte)
    requires b !in CAPITALS
    ensures Lower(b) == b
  {
    CapitalsAre(b);
  }

  lemma AlnumsAre(b: Byte)
    ensures IsAlnum(b) <==> b in CAPITALS || b in SMALL || b in DIGITS
  {
    CapitalsAre(b);
    SmallAre(b);
    DigitsAre(b);
  }

  lemma SignsAre(b: Byte)
    ensures b in "!#$%&'*+-/=?^_`{|}~"
       <==> || b == '!' || b == '#' || b == '$' || b == '%' || b == '&' || b == '\'' || b == '*' || b == '+'
            || b == '-' || b == '/' || b == '=' || b == '?' || b == '^' || b == '_' || b == '`' || b == '{'
            || b == '|' || b == '}' || b == '~'
  {
  }

  /** The bytes of an atom: letters, digits and nineteen signs. */
  lemma AtomsAre(b: Byte)
    ensures IsAtomByte(b) <==> b in CAPITALS || b in SMALL || b in DIGITS || b in "!#$%&'*+-/=?^_`{|}~"
  {
    AlnumsAre(b);
    SignsAre(b);
  }

  /** The bytes of a host name: letters, digits, hyphens and dots. */
  lemma HostBytesAre(b: Byte)
    ensures IsHostByte(b) <==> b in CAPITALS || b in SMALL || b in DIGITS || b == '-' || b == '.'
  {
    AlnumsAre(b);
  }

  /** ASCII whitespace as a display name may hold it. */
  lemma AsciiSpacesAre(b: Byte)
    ensures IsAsciiSpace(b) <==> b as int in [9, 10, 12, 13, 32]
  {
  }

  /** The digits of base64, by value. */
  lemma Digits64Are(n: nat)
    requires n < 64
    ensures |CAPITALS + SMALL + DIGITS + "+/"| == 64 && Base64.Digit(n) == (CAPITALS + SMALL + DIGITS + "+/")[n]
  {
    CapitalAt(if n < 26 then n else 0);
    SmallAt(if 26 <= n < 52 then n - 26 else 0);
    DigitAt(if 52 <= n < 62 then n - 52 else 0);
  }
}
