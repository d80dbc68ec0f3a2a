/** The flag words of option negotiation, bit by bit. */
module FlagWords {
  import opened ByteStrings
  import opened Framing
  import opened Milter

  predicate Bit(n: nat, i: nat) {
    if i == 0 then n % 2 == 1 else Bit(n / 2, i - 1)
  }

  lemma {:induction false} AndIsBitwise(a: nat, b: nat, i: nat)
    ensures Bit(And(a, b), i) <==> Bit(a, i) && Bit(b, i)
    decreases i
  {
    if a == 0 || b == 0 {
      NoBits(i);
    } else if i > 0 {
      var low := if a % 2 == 1 && b % 2 == 1 then 1 else 0;
      assert And(a, b) / 2 == And(a / 2, b / 2) by {
        assert And(a, b) == 2 * And(a / 2, b / 2) + low;
      }
      AndIsBitwise(a / 2, b / 2, i - 1);
    }
  }

  lemma {:induction false} NoBits(i: nat)
    ensures !Bit(0, i)
  {
    if i > 0 {
      NoBits(i - 1);
    }
  }

  function Pow2(k: nat): (p: nat)
    ensures p > 0
  {
    if k == 0 then 1 else 2 * Pow2(k - 1)
  }

  lemma Powers()
    ensures Pow2(0) == 0x1 && Pow2(4) == 0x10 && Pow2(7) == 0x80
    ensures Pow2(12) == 0x1000 && Pow2(13) == 0x2000 && Pow2(14) == 0x4000 && Pow2(15) == 0x8000
    ensures Pow2(16) == 0x1_0000 && Pow2(17) == 0x2_0000 && Pow2(18) == 0x4_0000 && Pow2(19) == 0x8_0000
  {
    assert Pow2(2) == 4 && Pow2(4) == 16 && Pow2(6) == 64 && Pow2(8) == 256 && Pow2(10) == 1024;
    assert Pow2(12) == 4096 && Pow2(14) == 0x4000 && Pow2(16) == 0x1_0000 && Pow2(18) == 0x4_0000;
  }

  lemma {:induction false} AndPower(n: nat, k: nat)
    ensures And(n, Pow2(k)) != 0 <==> Bit(n, k)
    ensures And(n, Pow2(k)) != 0 ==> And(n, Pow2(k)) == Pow2(k)
    decreases k
  {
    if n == 0 {
      NoBits(k);
    } else if k > 0 {
      AndPower(n / 2, k - 1);
      assert Pow2(k) / 2 == Pow2(k - 1) && Pow2(k) % 2 == 0;
    } else {
      assert And(n / 2, 0) == 0;
    }
  }

  /** Setting a bit that is not set. */
  lemma {:induction false} BitsOfSum(n: nat, k: nat, i: nat)
    requires !Bit(n, k)
    ensures Bit(n + Pow2(k), i) <==> Bit(n, i) || i == k
    decreases k
  {
    if k == 0 {
      assert (n + 1) / 2 == n / 2;
    } else {
      var p := Pow2(k - 1);
      assert (n + 2 * p) / 2 == n / 2 + p && (n + 2 * p) % 2 == n % 2;
      if i > 0 {
        BitsOfSum(n / 2, k - 1, i - 1);
      }
    }
  }

  /** The actions that can be granted: adding and changing headers. */
  lemma SupportedActions(i: nat)
    ensures Bit(SUPPORTED_ACTIONS, i) <==> i == 0 || i == 4
  {
    Powers();
    BitsOfSum(0, 0, i);
    BitsOfSum(1, 4, i);
    NoBits(i);
  }

  /** The steps that can go without a reply. */
  predicate MaySkip(i: nat) { i == 7 || 12 <= i <= 19 }

  lemma SupportedSkips(i: nat)
    ensures Bit(SUPPORTED_NO_REPLY, i) <==> MaySkip(i)
  {
    Powers();
    NoBits(i);
    BitsOfSum(0, 7, i);
    BitsOfSum(0x80, 12, i);
    BitsOfSum(0x1080, 13, i);
    BitsOfSum(0x3080, 14, i);
    BitsOfSum(0x7080, 15, i);
    BitsOfSum(0xF080, 16, i);
    BitsOfSum(0x1_F080, 17, i);
    BitsOfSum(0x3_F080, 18, i);
    BitsOfSum(0x7_F080, 19, i);
  }

  /** The answer to an offer, read word by word: the lower of the offered version
      and 6; of the offered actions those of adding and changing headers; and from
      version 6 on, of the offered steps those that can go without a reply. Each
      granted and each kept as the connection's own. */
  lemma OfferAnswered(c: Conn, payload: Bytes, i: nat)
    requires |payload| == 12
    ensures Negotiated(c, payload).verdict == Open && |Negotiated(c, payload).effects| == 1
    ensures var step := Negotiated(c, payload);
            var answer := step.effects[0];
            && answer.Reply? && answer.command == 'O' && |answer.payload| == 12
            && (var offered, version := FromBigEndian(payload[..4]), FromBigEndian(answer.payload[..4]);
                && version <= offered && version <= 6 && (version == offered || version == 6)
                && (Bit(FromBigEndian(answer.payload[4..8]), i)
                    <==> Bit(FromBigEndian(payload[4..8]), i) && (i == 0 || i == 4))
                && (Bit(FromBigEndian(answer.payload[8..12]), i)
                    <==> Bit(FromBigEndian(payload[8..12]), i) && MaySkip(i) && offered >= 6))
            && step.conn.actions == FromBigEndian(answer.payload[4..8])
            && step.conn.protocol == FromBigEndian(answer.payload[8..12])
  {
    var step := Negotiated(c, payload);
    var offered := FromBigEndian(payload[..4]);
    var version := if offered < 6 then offered else 6;
    AndIsBitwise(FromBigEndian(payload[4..8]), SUPPORTED_ACTIONS, i);
    AndIsBitwise(FromBigEndian(payload[8..12]), SUPPORTED_NO_REPLY, i);
    SupportedActions(i);
    SupportedSkips(i);
    NoBits(i);
    ThreeWords(version, step.conn.actions, step.conn.protocol);
  }

  lemma ThreeWords(a: nat, b: nat, c: nat)
    requires a < U32_LIMIT && b < U32_LIMIT && c < U32_LIMIT
    ensures var words := BigEndian(a) + BigEndian(b) + BigEndian(c);
            && |words| == 12 && FromBigEndian(words[..4]) == a
            && FromBigEndian(words[4..8]) == b && FromBigEndian(words[8..12]) == c
  {
    var words := BigEndian(a) + BigEndian(b) + BigEndian(c);
    assert words[..4] == BigEndian(a) && words[4..8] == BigEndian(b) && words[8..12] == BigEndian(c);
    BigEndianRoundTrip(a);
    BigEndianRoundTrip(b);
    BigEndianRoundTrip(c);
  }

  lemma {:induction false} SomeBit(n: nat) returns (i: nat)
    requires n > 0
    ensures Bit(n, i)
  {
    if n % 2 == 1 {
      i := 0;
    } else {
      i := SomeBit(n / 2);
      i := i + 1;
    }
  }

  /** Signing is allowed exactly when adding or changing headers was granted. */
  lemma MayInsert(actions: nat)
    ensures And(actions, SUPPORTED_ACTIONS) != 0 <==> Bit(actions, 0) || Bit(actions, 4)
  {
    var both := And(actions, SUPPORTED_ACTIONS);
    AndIsBitwise(actions, SUPPORTED_ACTIONS, 0);
    AndIsBitwise(actions, SUPPORTED_ACTIONS, 4);
    SupportedActions(0);
    SupportedActions(4);
    NoBits(0);
    NoBits(4);
    if both != 0 {
      var i := SomeBit(both);
      AndIsBitwise(actions, SUPPORTED_ACTIONS, i);
      SupportedActions(i);
    }
  }
}
