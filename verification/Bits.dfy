/** The bitwise operators on 32-bit words. A word is the unsigned number with the bits of the integer
    the library holds; the operators go bit by bit. What the hash functions need of them is that `or`
    joins numbers whose bits do not overlap, and that it can stand in for exclusive or where it does. */
module Bits {
  import opened Buffers

  type Word = x: nat | x < 0x1_0000_0000

  function Bit(b: bool): nat {
    if b then 1 else 0
  }

  function AndBits(a: nat, b: nat, bits: nat): (r: nat)
    ensures r < Pow2(bits)
    decreases bits
  {
    if bits == 0 then 0 else Bit(a % 2 == 1 && b % 2 == 1) + 2 * AndBits(a / 2, b / 2, bits - 1)
  }

  function OrBits(a: nat, b: nat, bits: nat): (r: nat)
    ensures r < Pow2(bits)
    decreases bits
  {
    if bits == 0 then 0 else Bit(a % 2 == 1 || b % 2 == 1) + 2 * OrBits(a / 2, b / 2, bits - 1)
  }

  function NotBits(a: nat, bits: nat): (r: nat)
    ensures r < Pow2(bits)
    decreases bits
  {
    if bits == 0 then 0 else Bit(a % 2 == 0) + 2 * NotBits(a / 2, bits - 1)
  }

  function Doubled(a: nat, k: nat): (r: nat)
    ensures a == 0 ==> r == 0
  {
    if k == 0 then a else 2 * Doubled(a, k - 1)
  }

  function Halved(a: nat, k: nat): (r: nat)
    ensures r <= a
    decreases k
  {
    if k == 0 then a else Halved(a / 2, k - 1)
  }

  /** Joining numbers whose bits do not overlap is adding them. */
  lemma {:induction false} OrApart(high: nat, low: nat, k: nat, bits: nat)
    requires low < Doubled(1, k) && k <= bits && Doubled(high, k) + low < Pow2(bits)
    ensures OrBits(Doubled(high, k), low, bits) == Doubled(high, k) + low
    decreases bits
  {
    if k == 0 {
      OrNothing(high, bits);
    } else {
      OrApart(high, low / 2, k - 1, bits - 1);
    }
  }

  lemma {:induction false} OrNothing(a: nat, bits: nat)
    requires a < Pow2(bits)
    ensures OrBits(a, 0, bits) == a
    decreases bits
  {
    if bits > 0 {
      OrNothing(a / 2, bits - 1);
    }
  }

  lemma {:induction false} OrCommutes(a: nat, b: nat, bits: nat)
    ensures OrBits(a, b, bits) == OrBits(b, a, bits)
    decreases bits
  {
    if bits > 0 {
      OrCommutes(a / 2, b / 2, bits - 1);
    }
  }

  /** Choosing by the bits of `b`, with `or` or with exclusive or. */
  lemma {:induction false} ChooseBits(b: nat, c: nat, d: nat, bits: nat)
    ensures var x, y := AndBits(b, c, bits), AndBits(NotBits(b, bits), d, bits);
            OrBits(x, y, bits) == XorBits(x, y, bits)
    decreases bits
  {
    if bits > 0 {
      ChooseBits(b / 2, c / 2, d / 2, bits - 1);
      NotUnfolds(b, bits);
      AndUnfolds(b, c, bits);
      AndUnfolds(NotBits(b, bits), d, bits);
    }
  }

  lemma NotUnfolds(a: nat, bits: nat)
    requires bits > 0
    ensures var r := NotBits(a, bits); r % 2 == Bit(a % 2 == 0) && r / 2 == NotBits(a / 2, bits - 1)
  {
    BitOver(Bit(a % 2 == 0), NotBits(a / 2, bits - 1));
  }

  lemma AndUnfolds(a: nat, b: nat, bits: nat)
    requires bits > 0
    ensures var r := AndBits(a, b, bits);
            r % 2 == Bit(a % 2 == 1 && b % 2 == 1) && r / 2 == AndBits(a / 2, b / 2, bits - 1)
  {
    BitOver(Bit(a % 2 == 1 && b % 2 == 1), AndBits(a / 2, b / 2, bits - 1));
  }

  lemma OrUnfolds(a: nat, b: nat, bits: nat)
    requires bits > 0
    ensures var r := OrBits(a, b, bits);
            r % 2 == Bit(a % 2 == 1 || b % 2 == 1) && r / 2 == OrBits(a / 2, b / 2, bits - 1)
  {
    BitOver(Bit(a % 2 == 1 || b % 2 == 1), OrBits(a / 2, b / 2, bits - 1));
  }

  lemma XorUnfolds(a: nat, b: nat, bits: nat)
    requires bits > 0
    ensures var r := XorBits(a, b, bits);
            r % 2 == Bit(a % 2 != b % 2) && r / 2 == XorBits(a / 2, b / 2, bits - 1)
  {
    BitOver(Bit(a % 2 != b % 2), XorBits(a / 2, b / 2, bits - 1));
  }

  /** The majority of the bits, with `or` or with exclusive or. */
  lemma {:induction false} MajorityBits(b: nat, c: nat, d: nat, bits: nat)
    ensures var x, y, z := AndBits(b, c, bits), AndBits(b, d, bits), AndBits(c, d, bits);
            OrBits(OrBits(x, y, bits), z, bits) == XorBits(XorBits(x, y, bits), z, bits)
    decreases bits
  {
    if bits > 0 {
      MajorityBits(b / 2, c / 2, d / 2, bits - 1);
      AndUnfolds(b, c, bits);
      AndUnfolds(b, d, bits);
      AndUnfolds(c, d, bits);
      OrUnfolds(AndBits(b, c, bits), AndBits(b, d, bits), bits);
      XorUnfolds(AndBits(b, c, bits), AndBits(b, d, bits), bits);
    }
  }

  // --------------------------------------------------------------- 32 bits

  lemma Bits32()
    ensures Pow2(32) == 0x1_0000_0000
  {
    assert Pow2(8) == 16 * Pow2(4) && Pow2(4) == 16;
    assert Pow2(16) == 16 * 16 * Pow2(8);
    assert Pow2(24) == 16 * 16 * Pow2(16);
    assert Pow2(32) == 16 * 16 * Pow2(24);
  }

  function And32(a: Word, b: Word): Word {
    Bits32();
    AndBits(a, b, 32)
  }

  function Or32(a: Word, b: Word): Word {
    Bits32();
    OrBits(a, b, 32)
  }

  function Xor32(a: Word, b: Word): Word {
    Bits32();
    XorBits(a, b, 32)
  }

  function Not32(a: Word): Word {
    Bits32();
    NotBits(a, 32)
  }

  /** `a << k` */
  function ShiftLeft(a: Word, k: nat): Word {
    Doubled(a, k) % 0x1_0000_0000
  }

  /** `a >>> k` */
  function ShiftRight(a: Word, k: nat): Word {
    Halved(a, k)
  }

  /** `a >> k`, which goes down by the sign. */
  function ShiftDown16(a: Word): int {
    (if a >= 0x8000_0000 then a - 0x1_0000_0000 else a) / 0x1_0000
  }

  lemma {:induction false} DoubledPlus(a: nat, j: nat, k: nat)
    ensures Doubled(a, j + k) == Doubled(Doubled(a, j), k)
  {
    if k > 0 {
      DoubledPlus(a, j, k - 1);
    }
  }

  lemma DoubledBytes(a: nat)
    ensures Doubled(a, 8) == 0x100 * a && Doubled(a, 16) == 0x1_0000 * a && Doubled(a, 24) == 0x100_0000 * a
  {
    Doubled8(a);
    Doubled8(0x100 * a);
    Doubled8(0x1_0000 * a);
    DoubledPlus(a, 8, 8);
    DoubledPlus(a, 16, 8);
  }

  lemma Doubled8(a: nat)
    ensures Doubled(a, 8) == 0x100 * a
  {
    assert Doubled(a, 2) == 2 * Doubled(a, 1) == 4 * a;
    assert Doubled(a, 4) == 2 * Doubled(a, 3) == 4 * Doubled(a, 2);
    assert Doubled(a, 6) == 2 * Doubled(a, 5) == 4 * Doubled(a, 4);
    assert Doubled(a, 8) == 2 * Doubled(a, 7) == 4 * Doubled(a, 6);
  }

  /** Words whose bytes do not overlap are joined by adding them. */
  lemma OrBytes(high: nat, low: nat, k: nat, unit: nat)
    requires (k == 8 && unit == 0x100) || (k == 16 && unit == 0x1_0000) || (k == 24 && unit == 0x100_0000)
    requires low < unit && unit * high + low < 0x1_0000_0000
    ensures Or32(unit * high, low) == unit * high + low == Or32(low, unit * high)
  {
    Bits32();
    DoubledBytes(high);
    DoubledBytes(1);
    assert Doubled(high, k) == unit * high && Doubled(1, k) == unit;
    hide *;
    OrWord(unit * high, low);
    OrWord(low, unit * high);
    OrApart(high, low, k, 32);
    OrCommutes(unit * high, low, 32);
  }

  lemma OrWord(a: Word, b: Word)
    ensures Or32(a, b) == OrBits(a, b, 32)
  {
    hide OrBits;
  }

  lemma OrZero(a: Word)
    ensures Or32(0, a) == a == Or32(a, 0)
  {
    Bits32();
    hide *;
    OrWord(0, a);
    OrWord(a, 0);
    OrNothing(a, 32);
    OrCommutes(0, a, 32);
  }
}
