/**
 64-bit words as bounded integers, with the one bitwise operator whose operands may overlap
 (`|` in page-table entries) defined bit by bit. Masks and shifts by constants are written
 as division and remainder.
 */
module Bits {
  type Word = x: int | 0 <= x < 0x1_0000_0000_0000_0000 witness 0

  /** Bitwise or of two naturals. */
  function BitOr(a: nat, b: nat): nat
    decreases a + b
  {
    if a == 0 && b == 0 then 0
    else 2 * BitOr(a / 2, b / 2) + (if a % 2 == 1 || b % 2 == 1 then 1 else 0)
  }

  /** The value shifted right by k bits. */
  ghost function Shift(a: nat, k: nat): nat
    decreases k
  {
    if k == 0 then a else Shift(a / 2, k - 1)
  }

  /** The value of the k lowest bits. */
  ghost function Low(a: nat, k: nat): nat
    decreases k
  {
    if k == 0 then 0 else a % 2 + 2 * Low(a / 2, k - 1)
  }

  lemma {:induction false} OrShift(a: nat, b: nat, k: nat)
    ensures Shift(BitOr(a, b), k) == BitOr(Shift(a, k), Shift(b, k))
    decreases k
  {
    if k > 0 {
      OrShift(a / 2, b / 2, k - 1);
    }
  }

  lemma {:induction false} OrLow(a: nat, b: nat, k: nat)
    ensures Low(BitOr(a, b), k) == BitOr(Low(a, k), Low(b, k))
    decreases k
  {
    if k > 0 {
      OrLow(a / 2, b / 2, k - 1);
      OrDouble(Low(a / 2, k - 1), a % 2, Low(b / 2, k - 1), b % 2);
    }
  }

  lemma {:induction false} OrDouble(x: nat, s: nat, y: nat, t: nat)
    requires s < 2 && t < 2
    ensures BitOr(2 * x + s, 2 * y + t) == 2 * BitOr(x, y) + (if s == 1 || t == 1 then 1 else 0)
  {
    assert (2 * x + s) / 2 == x && (2 * y + t) / 2 == y;
  }

  lemma {:induction false} OrZero(a: nat)
    ensures BitOr(a, 0) == a && BitOr(0, a) == a
  {
    if a > 0 {
      OrZero(a / 2);
    }
  }

  lemma {:induction false} ShiftByte(a: nat, k: nat)
    ensures Shift(a, k + 8) == Shift(a / 256, k)
    ensures Low(a, k + 8) == a % 256 + 256 * Low(a / 256, k)
  {
    ShiftNibble(a, k + 4);
    ShiftNibble(a / 16, k);
  }

  lemma {:induction false} ShiftNibble(a: nat, k: nat)
    ensures Shift(a, k + 4) == Shift(a / 16, k)
    ensures Low(a, k + 4) == a % 16 + 16 * Low(a / 16, k)
  {
    assert Shift(a, k + 4) == Shift(a / 2, k + 3) == Shift(a / 4, k + 2);
    assert Shift(a / 4, k + 2) == Shift(a / 8, k + 1) == Shift(a / 16, k);
    assert Low(a, k + 4) == a % 2 + 2 * Low(a / 2, k + 3);
    assert Low(a / 2, k + 3) == a / 2 % 2 + 2 * Low(a / 4, k + 2);
    assert Low(a / 4, k + 2) == a / 4 % 2 + 2 * Low(a / 8, k + 1);
    assert Low(a / 8, k + 1) == a / 8 % 2 + 2 * Low(a / 16, k);
  }

  /** The shifts by 7 and 12 and the 40-bit field are the usual quotients and remainder. */
  lemma FieldValues(a: nat)
    ensures Shift(a, 12) == a / 4096
    ensures Low(a, 40) == a % 0x100_0000_0000
    ensures Shift(a, 7) == a / 128
  {
    Shift12(a);
    Shift7(a);
    Low40(a);
  }

  lemma Shift12(a: nat)
    ensures Shift(a, 12) == a / 4096
  {
    ShiftByte(a, 4);
    ShiftNibble(a / 256, 0);
    assert a / 256 / 16 == a / 4096;
  }

  lemma Shift7(a: nat)
    ensures Shift(a, 7) == a / 128
  {
    ShiftNibble(a, 3);
    var b := a / 16;
    assert Shift(b, 3) == Shift(b / 2, 2) == Shift(b / 2 / 2, 1) == Shift(b / 2 / 2 / 2, 0);
    assert b / 2 / 2 / 2 == a / 128;
  }

  lemma Low24(a: nat)
    ensures Low(a, 24) == a % 0x100_0000
  {
    LowBytes(a);
    Bytes(a, 256, Low(a, 24));
  }

  lemma LowBytes(a: nat)
    ensures Low(a, 24) == a % 256 + 256 * (a / 256 % 256 + 256 * (a / 256 / 256 % 256))
  {
    ShiftByte(a, 16);
    ShiftByte(a / 256, 8);
    ShiftByte(a / 256 / 256, 0);
  }

  lemma Low40(a: nat)
    ensures Low(a, 40) == a % 0x100_0000_0000
  {
    ShiftByte(a, 32);
    ShiftByte(a / 256, 24);
    Low24(a / 256 / 256);
    Bytes(a, 0x100_0000, Low(a, 40));
  }

  /** Two bytes below a field of d values. */
  lemma Bytes(a: nat, d: nat, low: nat)
    requires d == 256 || d == 0x100_0000
    requires low == a % 256 + 256 * (a / 256 % 256 + 256 * (a / 256 / 256 % d))
    ensures low == a % (0x1_0000 * d)
  {
    var b := a / 256;
    var c := b / 256;
    assert a == 256 * b + a % 256 && b == 256 * c + b % 256;
    var q := c / d;
    assert c == d * q + c % d;
    if d == 256 {
      Remainder(a, 0x100_0000, q, low);
    } else {
      Remainder(a, 0x100_0000_0000, q, low);
    }
  }

  lemma Remainder(a: nat, m: nat, q: nat, r: nat)
    requires (m == 0x100_0000 || m == 0x100_0000_0000) && a == m * q + r && r < m
    ensures a % m == r
  {
  }

  /** Or of two words is a word. */
  lemma {:induction false} OrWord(a: Word, b: Word)
    ensures BitOr(a, b) < 0x1_0000_0000_0000_0000
  {
    WordShift(a);
    WordShift(b);
    OrShift(a, b, 64);
    WordShift(BitOr(a, b));
  }

  lemma WordShift(a: nat)
    ensures a < 0x1_0000_0000_0000_0000 <==> Shift(a, 64) == 0
  {
    Shift32(a, 32);
    Shift32(a / 0x1_0000_0000, 0);
  }

  lemma Shift32(a: nat, k: nat)
    ensures Shift(a, k + 32) == Shift(a / 0x1_0000_0000, k)
  {
    ShiftByte(a, k + 24);
    ShiftByte(a / 256, k + 16);
    ShiftByte(a / 256 / 256, k + 8);
    ShiftByte(a / 256 / 256 / 256, k);
    assert a / 256 / 256 / 256 / 256 == a / 0x1_0000_0000;
  }

  /** Bit k of a number. */
  ghost predicate BitSet(a: nat, k: nat) {
    if k == 0 then a % 2 == 1 else BitSet(a / 2, k - 1)
  }

  lemma {:induction false} OrBit(a: nat, b: nat, k: nat)
    ensures BitSet(BitOr(a, b), k) <==> BitSet(a, k) || BitSet(b, k)
  {
    var odd := a % 2 == 1 || b % 2 == 1;
    assert BitOr(a, b) == 2 * BitOr(a / 2, b / 2) + (if odd then 1 else 0);
    HalfAndBit(BitOr(a / 2, b / 2), odd);
    if k > 0 {
      OrBit(a / 2, b / 2, k - 1);
    }
  }

  lemma HalfAndBit(x: nat, odd: bool)
    ensures var n := 2 * x + (if odd then 1 else 0); n / 2 == x && (n % 2 == 1 <==> odd)
  {
  }

  lemma {:induction false} NoBits(k: nat)
    ensures !BitSet(0, k)
  {
    if k > 0 {
      NoBits(k - 1);
    }
  }

  /** The bits of the two flags every table entry is made of. */
  lemma FlagBit(k: nat)
    ensures BitSet(1, k) <==> k == 0
    ensures BitSet(2, k) <==> k == 1
  {
    if k > 0 {
      NoBits(k - 1);
      if k > 1 {
        NoBits(k - 2);
      }
    }
  }

  /** Bits from 4 and from 12 on are those of the quotient. */
  lemma NibbleBit(a: nat, k: nat)
    ensures BitSet(a, k + 4) == BitSet(a / 16, k)
  {
    assert BitSet(a, k + 4) == BitSet(a / 2, k + 3) == BitSet(a / 2 / 2, k + 2);
    assert BitSet(a / 2 / 2, k + 2) == BitSet(a / 2 / 2 / 2, k + 1) == BitSet(a / 2 / 2 / 2 / 2, k);
    assert a / 2 / 2 / 2 / 2 == a / 16;
  }

  lemma PageBit(a: nat, k: nat)
    ensures BitSet(a, k + 12) == BitSet(a / 4096, k)
  {
    NibbleBit(a, k + 8);
    NibbleBit(a / 16, k + 4);
    NibbleBit(a / 16 / 16, k);
    assert a / 16 / 16 / 16 == a / 4096;
  }

  /** A multiple of 4096 has no bit below 12. */
  lemma {:induction false} LowBits(q: nat, k: nat)
    requires k < 12
    ensures !BitSet(4096 * q, k)
  {
    LowBitsOf(q, 12, 4096, k);
  }

  ghost function PowerOfTwo(n: nat): nat {
    if n == 0 then 1 else 2 * PowerOfTwo(n - 1)
  }

  lemma {:induction false} LowBitsOf(q: nat, n: nat, p: nat, k: nat)
    requires k < n <= 12 && p == PowerOfTwo(n)
    ensures !BitSet(p * q, k)
    decreases n
  {
    var half := PowerOfTwo(n - 1);
    assert p * q == 2 * (half * q);
    HalfAndBit(half * q, false);
    if k > 0 {
      LowBitsOf(q, n - 1, half, k - 1);
    }
  }

  /** Rounding down to a page clears the bits below 12. */
  lemma RoundedBit(a: nat, k: nat)
    ensures BitSet(a - a % 4096, k) <==> k >= 12 && BitSet(a, k)
  {
    var q := a / 4096;
    assert a - a % 4096 == 4096 * q;
    if k < 12 {
      LowBits(q, k);
    } else {
      PageBit(a - a % 4096, k - 12);
      PageBit(a, k - 12);
      assert 4096 * q / 4096 == q;
    }
  }

  /** Words with the same bits are the same. */
  lemma {:induction false} BitsDetermine(a: nat, b: nat)
    requires forall k: nat :: BitSet(a, k) == BitSet(b, k)
    ensures a == b
    decreases a + b
  {
    assert BitSet(a, 0) == BitSet(b, 0);
    if a + b > 0 {
      forall k: nat
        ensures BitSet(a / 2, k) == BitSet(b / 2, k)
      {
        assert BitSet(a, k + 1) == BitSet(b, k + 1);
      }
      BitsDetermine(a / 2, b / 2);
    }
  }
}
