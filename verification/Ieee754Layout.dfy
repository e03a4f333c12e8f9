/** The bytes of single and double precision numbers, with the widths and biases of the binary interchange
    formats as numerals (sections 3.4 and 3.5.2 of IEEE 754-2008): a sign bit, then the exponent, then the
    fraction. */
module Ieee754Layout {
  import opened Buffers
  import opened Numbers
  import opened BufferPack
  import opened Ieee754
  import opened Ieee754Bytes

  // -------------------------------------------------------------- powers of two

  lemma Powers()
    ensures Pow2(8) == 0x100 && Pow2(11) == 0x800 && Pow2(23) == 0x80_0000 && Pow2(52) == 0x10_0000_0000_0000
    ensures Pow256(3) == 0x100_0000 && Pow256(7) == 0x100_0000_0000_0000
  {
    hide *;
    EightBits();
    SmallPowers();
    Pow2Plus(8, 3);
    Pow2Plus(8, 8);
    Pow2Plus(7, 16);
    Pow2Plus(23, 23);
    Pow2Plus(6, 46);
    Powers256();
  }

  lemma SmallPowers()
    ensures Pow2(3) == 8 && Pow2(6) == 64 && Pow2(7) == 128
  {
  }

  lemma Powers256()
    ensures Pow256(3) == 0x100_0000 && Pow256(7) == 0x100_0000_0000_0000
  {
    assert Pow256(1) == 0x100 && Pow256(2) == 0x1_0000;
    assert Pow256(4) == 256 * Pow256(3) && Pow256(5) == 256 * Pow256(4) && Pow256(6) == 256 * Pow256(5);
  }

  lemma Widths()
    ensures EMax(Single()) == 255 && Bias(Single()) == 127 && EMax(Double()) == 2047 && Bias(Double()) == 1023
  {
    Powers();
  }

  /** The sign is the highest bit. */
  lemma SignBit(word: nat, n: nat, negative: bool)
    requires var s := BigEndianBytes(word, n + 1); s[0] < 128 && BigEndian(s) == word
    ensures var s := BigEndianBytes(word, n + 1);
            [WithSign(s[0], negative)] + s[1..] == BigEndianBytes(word + if negative then Times(128, Pow256(n)) else 0, n + 1)
  {
    var s := BigEndianBytes(word, n + 1);
    assert [s[0]] + s[1..] == s;
    if negative {
      AddAbove(word, 128, n);
      BigEndianSplit(word, 1, n);
      BigEndianSplit(word + Times(128, Pow256(n)), 1, n);
      HighByte(High(word, n));
      HighByte(High(word, n) + 128);
      FirstIsHigh(word, n);
    }
  }

  lemma HighByte(v: nat)
    ensures BigEndianBytes(v, 1) == [LowByte(v)]
  {
  }

  lemma FirstIsHigh(word: nat, n: nat)
    requires var s := BigEndianBytes(word, n + 1); s[0] < 128 && BigEndian(s) == word
    ensures High(word, n) < 128
  {
  }

  // ------------------------------------------------------------------- formats

  /** The bytes of sign, exponent and fraction. */
  lemma FieldsLaidOut(f: Format, big: bool, n: Float, log: Log2, x: Fields)
    requires Good(f) && f.len > 0 && Encodable(f, x) && Estimated(log, n) && x.negative == Negative(n)
    requires SplitAny(f, n, log).0 == x.e && x.m as real <= SplitAny(f, n, log).1 < x.m as real + 1.0
    ensures Encode754(f, big, n, log) == InOrder(big, BigEndianBytes(
              Times(x.e, Pow2(f.mLen)) + x.m + if x.negative then Times(128, Pow256(f.len - 1)) else 0, f.len))
  {
    SplitBounds(f, n, log);
    PackedFields(f, x, SplitAny(f, n, log).1);
    SignBit(Word(f, x.e, x.m), f.len - 1, x.negative);
    WordUnfold(f, x.e, x.m);
  }

  lemma NumberLaidOut(f: Format, big: bool, log: Log2, x: Fields)
    requires Good(f) && f.len > 0 && FiniteNonZero(f, x) && Estimated(log, Finite(Value(f, x)))
    ensures Encode754(f, big, Finite(Value(f, x)), log) == InOrder(big, BigEndianBytes(
              Times(x.e, Pow2(f.mLen)) + x.m + if x.negative then Times(128, Pow256(f.len - 1)) else 0, f.len))
  {
    var v := Value(f, x);
    SignIs(f, x);
    assert log.About?;
    var e := EstimateOf(v, log.e);
    SplitIs(f, x, e, log.e);
    FieldsLaidOut(f, big, Finite(v), log, x);
  }

  lemma SignIs(f: Format, x: Fields)
    requires Good(f) && FiniteNonZero(f, x)
    ensures (Value(f, x) < 0.0 <==> x.negative) && Value(f, x) != 0.0
  {
  }

  /** The size of a double with the exponent `e`: 11 bits with the bias 1023; zero is that of the denormalized. */
  function DoubleSize(e: nat, m: nat): real {
    if e == 0 then Mul(m as real, Exp2(-1074)) else Mul((m + 0x10_0000_0000_0000) as real, Exp2(e - 1075))
  }

  /** Its bits as one number: 52 of them are the fraction. */
  function DoubleWord(negative: bool, e: nat, m: nat): nat {
    (if negative then 0x8000_0000_0000_0000 else 0) + 0x10_0000_0000_0000 * e + m
  }

  lemma DoubleValue(negative: bool, e: nat, m: nat)
    requires e <= 2046 && m < 0x10_0000_0000_0000 && (e != 0 || m != 0)
    ensures Value(Double(), Fields(negative, e, m)) == Signed(negative, DoubleSize(e, m))
    ensures FiniteNonZero(Double(), Fields(negative, e, m))
  {
    Powers();
    Widths();
    hide Exp2;
    hide Mul;
  }

  lemma DoubleWordIs(negative: bool, e: nat, m: nat)
    ensures Double().mLen == 52 && Double().len == 8
    ensures DoubleWord(negative, e, m) == Times(e, Pow2(52)) + m + if negative then Times(128, Pow256(7)) else 0
  {
    Powers();
    TimesRules(e, Pow2(52), 0);
  }

  lemma DoubleNumber(big: bool, negative: bool, e: nat, m: nat, log: Log2)
    requires e <= 2046 && m < 0x10_0000_0000_0000 && (e != 0 || m != 0)
    requires Estimated(log, Finite(Signed(negative, DoubleSize(e, m))))
    ensures Encode754(Double(), big, Finite(Signed(negative, DoubleSize(e, m))), log)
         == InOrder(big, BigEndianBytes(DoubleWord(negative, e, m), 8))
  {
    hide *;
    DoubleValue(negative, e, m);
    DoubleWordIs(negative, e, m);
    NumberLaidOut(Double(), big, log, Fields(negative, e, m));
  }

  /** The size of a single with the exponent `e`: 8 bits with the bias 127; zero is that of the denormalized. */
  function SingleSize(e: nat, m: nat): real {
    if e == 0 then Mul(m as real, Exp2(-149)) else Mul((m + 0x80_0000) as real, Exp2(e - 150))
  }

  /** Its bits as one number: 23 of them are the fraction. */
  function SingleWord(negative: bool, e: nat, m: nat): nat {
    (if negative then 0x8000_0000 else 0) + 0x80_0000 * e + m
  }

  lemma SingleValue(negative: bool, e: nat, m: nat)
    requires e <= 254 && m < 0x80_0000 && (e != 0 || m != 0)
    ensures Value(Single(), Fields(negative, e, m)) == Signed(negative, SingleSize(e, m))
    ensures FiniteNonZero(Single(), Fields(negative, e, m))
  {
    Powers();
    Widths();
    hide Exp2;
    hide Mul;
  }

  lemma SingleWordIs(negative: bool, e: nat, m: nat)
    ensures Single().mLen == 23 && Single().len == 4
    ensures SingleWord(negative, e, m) == Times(e, Pow2(23)) + m + if negative then Times(128, Pow256(3)) else 0
  {
    Powers();
    TimesRules(e, Pow2(23), 0);
  }

  lemma SingleNumber(big: bool, negative: bool, e: nat, m: nat, log: Log2)
    requires e <= 254 && m < 0x80_0000 && (e != 0 || m != 0)
    requires Estimated(log, Finite(Signed(negative, SingleSize(e, m))))
    ensures Encode754(Single(), big, Finite(Signed(negative, SingleSize(e, m))), log)
         == InOrder(big, BigEndianBytes(SingleWord(negative, e, m), 4))
  {
    hide *;
    SingleValue(negative, e, m);
    SingleWordIs(negative, e, m);
    NumberLaidOut(Single(), big, log, Fields(negative, e, m));
  }

  /** Zero is all zeros; an infinity has the largest exponent and no fraction; what is no number has the
      fraction one. */
  lemma DoubleSpecials(big: bool, negative: bool, log: Log2)
    ensures Encode754(Double(), big, Finite(0.0), MinusInfinity) == InOrder(big, BigEndianBytes(0, 8))
    ensures Encode754(Double(), big, Infinite(negative), log)
         == InOrder(big, BigEndianBytes(if negative then 0xFFF0_0000_0000_0000 else 0x7FF0_0000_0000_0000, 8))
    ensures Encode754(Double(), big, NaN, log) == InOrder(big, BigEndianBytes(0x7FF0_0000_0000_0001, 8))
  {
    hide *;
    Widths();
    SpecialsOf(Double(), big, negative, log);
    DoubleWordIs(false, 0, 0);
    DoubleWordIs(negative, 2047, 0);
    DoubleWordIs(false, 2047, 1);
    DoubleSpecialWords(negative);
  }

  lemma DoubleSpecialWords(negative: bool)
    ensures DoubleWord(false, 0, 0) == 0 && DoubleWord(false, 2047, 1) == 0x7FF0_0000_0000_0001
    ensures DoubleWord(negative, 2047, 0) == if negative then 0xFFF0_0000_0000_0000 else 0x7FF0_0000_0000_0000
  {
  }

  lemma SingleSpecials(big: bool, negative: bool, log: Log2)
    ensures Encode754(Single(), big, Finite(0.0), MinusInfinity) == InOrder(big, BigEndianBytes(0, 4))
    ensures Encode754(Single(), big, Infinite(negative), log)
         == InOrder(big, BigEndianBytes(if negative then 0xFF80_0000 else 0x7F80_0000, 4))
    ensures Encode754(Single(), big, NaN, log) == InOrder(big, BigEndianBytes(0x7F80_0001, 4))
  {
    hide *;
    Widths();
    SpecialsOf(Single(), big, negative, log);
    SingleWordIs(false, 0, 0);
    SingleWordIs(negative, 255, 0);
    SingleWordIs(false, 255, 1);
    SingleSpecialWords(negative);
  }

  lemma SingleSpecialWords(negative: bool)
    ensures SingleWord(false, 0, 0) == 0 && SingleWord(false, 255, 1) == 0x7F80_0001
    ensures SingleWord(negative, 255, 0) == if negative then 0xFF80_0000 else 0x7F80_0000
  {
  }

  lemma SpecialsOf(f: Format, big: bool, negative: bool, log: Log2)
    requires Good(f) && f.len > 0
    ensures Encode754(f, big, Finite(0.0), MinusInfinity) == InOrder(big, BigEndianBytes(Times(0, Pow2(f.mLen)), f.len))
    ensures Encode754(f, big, Infinite(negative), log) == InOrder(big, BigEndianBytes(
              Times(EMax(f), Pow2(f.mLen)) + if negative then Times(128, Pow256(f.len - 1)) else 0, f.len))
    ensures Encode754(f, big, NaN, log) == InOrder(big, BigEndianBytes(Times(EMax(f), Pow2(f.mLen)) + 1, f.len))
  {
    assert Pow2(1) == 2;
    Pow2Grows(1, f.mLen);
    ZeroBounds(f);
    TimesRules(0, Pow2(f.mLen), 0);
    hide Encode754;
    hide Exp2;
    hide Mul;
    FieldsLaidOut(f, big, NaN, log, Fields(false, EMax(f), 1));
    FieldsLaidOut(f, big, Infinite(negative), log, Fields(negative, EMax(f), 0));
    FieldsLaidOut(f, big, Finite(0.0), MinusInfinity, Fields(false, 0, 0));
  }
}
