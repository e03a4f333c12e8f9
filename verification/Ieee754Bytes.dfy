/** The bytes of floating point numbers: written from the least significant end, read from the other.
    The writing loops emit the whole bytes of the fraction, then the exponent with the bits of the
    fraction that are left, then the sign; the reading loops take the bytes apart the other way round,
    and together with the arithmetic of the encoder they give every number back. */
module Ieee754Bytes {
  import opened Basics
  import opened Buffers
  import opened Numbers
  import opened Ieee754
  import opened BufferPack

  // ----------------------------------------------------------------- writing

  /** The bytes are shown in reading order, the most significant first. */
  function MantissaBytes(m: real, bits: nat): seq<byte>
    requires m >= 0.0
    decreases bits
  {
    if bits >= 8 then MantissaBytes(m / 256.0, bits - 8) + [LowByte(m.Floor)] else []
  }

  /** What is left of the fraction when whole bytes have been written. */
  function MantissaRest(m: real, bits: nat): (r: real)
    requires m >= 0.0
    ensures r >= 0.0
    decreases bits
  {
    if bits >= 8 then MantissaRest(m / 256.0, bits - 8) else m
  }

  function ExponentBytes(e: real, bits: int): (r: seq<byte>)
    requires e >= 0.0
    ensures |r| == if bits <= 0 then 0 else (bits + 7) / 8
    decreases bits
  {
    if bits <= 0 then [] else ExponentBytes(e / 256.0, bits - 8) + [LowByte(e.Floor)]
  }

  /** `b | s * 128` */
  function WithSign(b: byte, negative: bool): byte {
    if negative && b < 128 then b + 128 else b
  }

  /** The exponent and the bits of the fraction above its whole bytes. */
  function TopBytes(f: Format, e: nat, m: real): (r: seq<byte>)
    requires Good(f) && m >= 0.0
    ensures r != []
  {
    var k := f.mLen % 8;
    TimesRules(e, Pow2(k), 0);
    ExponentBytes((Times(e, Pow2(k)) + MantissaRest(m, f.mLen).Floor) as real, ExponentBits(f) + k)
  }

  lemma {:induction false} MantissaLength(m: real, bits: nat)
    requires m >= 0.0
    ensures |MantissaBytes(m, bits)| == bits / 8
    decreases bits
  {
    if bits >= 8 {
      MantissaLength(m / 256.0, bits - 8);
    }
  }

  lemma UnsignedLength(f: Format, e: nat, m: real)
    requires Good(f) && m >= 0.0
    ensures |MantissaBytes(m, f.mLen)| == f.mLen / 8 && |TopBytes(f, e, m)| == f.len - f.mLen / 8
  {
    MantissaLength(m, f.mLen);
    assert (ExponentBits(f) + f.mLen % 8 + 7) / 8 == f.len - f.mLen / 8;
  }

  function Pack754(f: Format, negative: bool, e: nat, m: real): (r: seq<byte>)
    requires Good(f) && m >= 0.0
    ensures |r| == f.len
  {
    UnsignedLength(f, e, m);
    var top := TopBytes(f, e, m);
    [WithSign(top[0], negative)] + top[1..] + MantissaBytes(m, f.mLen)
  }

  lemma FloorDiv(m: real)
    requires m >= 0.0
    ensures (m / 256.0).Floor == m.Floor / 256
  {
    var q, r := m.Floor / 256, m.Floor % 256;
    assert q as real <= m / 256.0 < q as real + 1.0;
  }

  /** The number without its `k` lowest bytes. */
  function High(v: nat, k: nat): nat
    decreases k
  {
    if k == 0 then v else High(v / 256, k - 1)
  }

  lemma {:induction false} MantissaIs(m: real, bits: nat)
    requires m >= 0.0
    ensures MantissaBytes(m, bits) == BigEndianBytes(m.Floor, bits / 8)
    ensures MantissaRest(m, bits).Floor == High(m.Floor, bits / 8)
    decreases bits
  {
    if bits >= 8 {
      MantissaIs(m / 256.0, bits - 8);
      FloorDiv(m);
    }
  }

  lemma {:induction false} ExponentIs(e: nat, bits: nat)
    ensures ExponentBytes(e as real, bits) == BigEndianBytes(e, (bits + 7) / 8)
    decreases bits
  {
    ExponentRealIs(e as real, bits);
  }

  lemma {:induction false} ExponentRealIs(e: real, bits: int)
    requires e >= 0.0
    ensures ExponentBytes(e, bits) == BigEndianBytes(e.Floor, if bits <= 0 then 0 else (bits + 7) / 8)
    decreases bits
  {
    if bits > 0 {
      ExponentRealIs(e / 256.0, bits - 8);
      FloorDiv(e);
    }
  }

  /** The bytes of a number are those of its upper and of its lower part. */
  lemma {:induction false} BigEndianSplit(v: nat, n: nat, k: nat)
    ensures BigEndianBytes(v, n + k) == BigEndianBytes(High(v, k), n) + BigEndianBytes(v, k)
    decreases k
  {
    if k > 0 {
      BigEndianSplit(v / 256, n, k - 1);
      AppendAssociates(BigEndianBytes(High(v, k), n), BigEndianBytes(v / 256, k - 1), [LowByte(v)]);
    } else {
      AppendNothing(BigEndianBytes(v, n));
    }
  }

  /** Adding above the lowest `k` bytes. */
  lemma {:induction false} AddAbove(v: nat, j: nat, k: nat)
    ensures Times(j, Pow256(k)) >= 0
    ensures BigEndianBytes(v + Times(j, Pow256(k)), k) == BigEndianBytes(v, k)
    ensures High(v + Times(j, Pow256(k)), k) == High(v, k) + j
    decreases k
  {
    TimesRules(j, Pow256(k), 0);
    TimesRules(1, j, 0);
    if k > 0 {
      TimesRules(j, Pow256(k - 1), 0);
      hide Times;
      var m := Times(j, Pow256(k - 1));
      DivModIs(v + 256 * m, 256, v / 256 + m, v % 256);
      AddAbove(v / 256, j, k - 1);
    }
  }

  /** The number of all the bits but the sign. */
  function Word(f: Format, e: nat, m: nat): nat {
    TimesRules(e, Pow2(f.mLen), 0);
    Times(e, Pow2(f.mLen)) + m
  }

  lemma PackIs(f: Format, e: nat, m: real)
    requires Good(f) && m >= 0.0
    ensures TopBytes(f, e, m) + MantissaBytes(m, f.mLen) == BigEndianBytes(Word(f, e, m.Floor), f.len)
  {
    hide *;
    var q, whole := f.mLen / 8, m.Floor;
    MantissaIs(m, f.mLen);
    WordIs(f, e, whole);
    TopIs(f, e, m);
    Assemble(Word(f, e, whole), whole, HighPart(f, e), q, f.len - q);
  }

  lemma Assemble(word: nat, low: nat, high: nat, q: nat, n: nat)
    requires word == low + Times(high, Pow256(q))
    ensures BigEndianBytes(High(low, q) + high, n) + BigEndianBytes(low, q) == BigEndianBytes(word, n + q)
  {
    hide Times;
    AddAbove(low, high, q);
    BigEndianSplit(word, n, q);
  }

  /** The exponent above the bits of the fraction that are not whole bytes. */
  function HighPart(f: Format, e: nat): nat {
    TimesRules(e, Pow2(f.mLen % 8), 0);
    Times(e, Pow2(f.mLen % 8))
  }

  lemma WordIs(f: Format, e: nat, m: nat)
    ensures Word(f, e, m) == m + Times(HighPart(f, e), Pow256(f.mLen / 8))
  {
    var q, k := f.mLen / 8, f.mLen % 8;
    Pow256Pow2(q);
    Pow2Plus(k, 8 * q);
    TimesRules(e, Pow2(k), Pow256(q));
    assert Pow2(f.mLen) == Times(Pow2(k), Pow256(q));
    hide Times;
    hide Pow2;
  }

  lemma TopIs(f: Format, e: nat, m: real)
    requires Good(f) && m >= 0.0
    ensures var q := f.mLen / 8;
            f.len >= q && TopBytes(f, e, m) == BigEndianBytes(High(m.Floor, q) + HighPart(f, e), f.len - q)
  {
    var k := f.mLen % 8;
    MantissaIs(m, f.mLen);
    assert (ExponentBits(f) + k + 7) / 8 == f.len - f.mLen / 8;
    hide Times;
    hide Pow2;
    hide MantissaRest;
    ExponentIs(HighPart(f, e) + MantissaRest(m, f.mLen).Floor, ExponentBits(f) + k);
  }

  // ----------------------------------------------------------------- reading

  /** Reads `n` more bytes after `x`. */
  function Take(x: nat, n: nat, s: seq<byte>): nat
    requires n <= |s|
    decreases n
  {
    if n == 0 then x else Take(256 * x + s[0] as nat, n - 1, s[1..])
  }

  /** How many bytes of exponent follow the first byte. */
  function MoreExponent(f: Format): (j: nat)
    requires Good(f)
    ensures 1 <= j && 1 + j < f.len
  {
    ExponentBits(f) / 8
  }

  /** The bits of fraction in the last byte of the exponent. */
  function SharedBits(f: Format): (t: nat)
    requires Good(f)
    ensures f.mLen == 8 * (f.len - 1 - MoreExponent(f)) + t
  {
    8 * MoreExponent(f) + 7 - ExponentBits(f)
  }

  /** The bitwise part of `_De754`. */
  function DecodeFields(f: Format, a: seq<byte>): Fields
    requires Good(f) && |a| == f.len
  {
    var j, unit := MoreExponent(f), Pow2(SharedBits(f));
    var x := Take((a[0] % 128) as nat, j, a[1..]);
    Fields(a[0] >= 128, Quotient(x, unit), Take(Modulo(x, unit), f.len - 1 - j, a[1 + j..]))
  }

  lemma {:induction false} TakeIs(x: nat, n: nat, s: seq<byte>)
    requires n <= |s|
    ensures Take(x, n, s) == Times(x, Pow256(n)) + BigEndian(s[..n])
    decreases n
  {
    TimesRules(x, 1, 0);
    TimesRules(1, x, 0);
    if n > 0 {
      var p, rest := Pow256(n - 1), s[1..];
      TakeIs(256 * x + s[0] as nat, n - 1, rest);
      assert s[..n] == [s[0]] + rest[..n - 1];
      BigEndianCons(s[0], rest[..n - 1]);
      TimesRules(256 * x, s[0] as int, p);
      TimesRules(256, x, p);
      TimesRules(x, p, 0);
    }
  }

  /** The number of a list of bytes from those of its parts. */
  lemma {:induction false} BigEndianParts(s: seq<byte>, i: nat)
    requires i <= |s|
    ensures BigEndian(s) == Times(BigEndian(s[..i]), Pow256(|s| - i)) + BigEndian(s[i..])
    decreases i
  {
    hide *;
    if i == 0 {
      BigEndianOfNoPart(s);
    } else {
      var b, rest := s[0], s[1..];
      assert s == [b] + rest && s[..i] == [b] + rest[..i - 1] && s[i..] == rest[i - 1..];
      BigEndianParts(rest, i - 1);
      FirstByteCounts(b, rest);
      FirstByteCounts(b, rest[..i - 1]);
      PowersMultiply(i - 1, |s| - i);
      TimesRules(Times(b as int, Pow256(i - 1)), BigEndian(rest[..i - 1]), Pow256(|s| - i));
      TimesRules(b as int, Pow256(i - 1), Pow256(|s| - i));
    }
  }

  lemma FirstByteCounts(b: byte, s: seq<byte>)
    ensures BigEndian([b] + s) == Times(b as nat, Pow256(|s|)) + BigEndian(s)
  {
    BigEndianCons(b, s);
  }

  lemma BigEndianOfNoPart(s: seq<byte>)
    ensures BigEndian(s) == Times(BigEndian(s[..0]), Pow256(|s|)) + BigEndian(s[0..])
  {
    TimesRules(0, Pow256(|s|), 0);
    TimesRules(Pow256(|s|), 0, 0);
    assert s[0..] == s;
  }

  lemma PowersMultiply(a: nat, b: nat)
    ensures Pow256(a + b) == Times(Pow256(a), Pow256(b))
  {
    Pow256Pow2(a);
    Pow256Pow2(b);
    Pow256Pow2(a + b);
    Pow2Plus(8 * a, 8 * b);
  }

  lemma {:induction false} BigEndianBelow(s: seq<byte>)
    ensures BigEndian(s) < Pow256(|s|)
  {
    if s != [] {
      BigEndianBelow(s[..|s| - 1]);
    }
  }

  /** Quotient and remainder by `p` are determined. */
  lemma TimesUnique(a: nat, r: nat, b: nat, s: nat, p: nat)
    requires r < p && s < p && Times(a, p) + r == Times(b, p) + s
    ensures a == b && r == s
  {
    DivModIs(Times(a, p) + r, p, a, r);
    DivModIs(Times(a, p) + r, p, b, s);
  }

  /** A word in bytes, read back as its two parts: what the sign bit leaves of the first byte, and the
      bits on either side of the fraction's beginning. */
  lemma WordRead(f: Format, e: nat, m: nat, b: byte, rest: seq<byte>)
    requires Good(f) && |rest| == f.len - 1 && b < 128 && m < Pow2(f.mLen)
    requires BigEndian([b] + rest) == Word(f, e, m)
    ensures var j, unit := MoreExponent(f), Pow2(SharedBits(f));
            var x := Take(b as nat, j, rest);
            Quotient(x, unit) == e && Take(Modulo(x, unit), f.len - 1 - j, rest[j..]) == m
  {
    var j, t := MoreExponent(f), SharedBits(f);
    var q := f.len - 1 - j;
    var unit, tail := Pow2(t), rest[j..];
    assert |rest| - j == q && |tail| == q && f.mLen == 8 * q + t;
    var x := Take(b as nat, j, rest);
    var high, low := Quotient(x, unit), Modulo(x, unit);
    hide *;
    FirstTaken(b, j, rest);
    TakeAll(low, q, tail);
    QuotientModulo(x, unit);
    BigEndianBelow(tail);
    LowFits(low, t, q, BigEndian(tail));
    PowersOfWord(q, t, f.mLen);
    TimesRules(Times(high, unit), low, Pow256(q));
    TimesRules(high, unit, Pow256(q));
    WordUnfold(f, e, m);
    TimesUnique(high, Times(low, Pow256(q)) + BigEndian(tail), e, m, Pow2(f.mLen));
  }

  lemma WordUnfold(f: Format, e: nat, m: nat)
    ensures Word(f, e, m) == Times(e, Pow2(f.mLen)) + m
  {
  }

  lemma FirstTaken(b: byte, j: nat, rest: seq<byte>)
    requires j <= |rest|
    ensures BigEndian([b] + rest) == Times(Take(b as nat, j, rest), Pow256(|rest| - j)) + BigEndian(rest[j..])
  {
    var s := [b] + rest;
    assert s[..1 + j] == [b] + rest[..j] && s[1 + j..] == rest[j..];
    BigEndianParts(s, 1 + j);
    TakeIs(b as nat, j, rest);
    BigEndianCons(b, rest[..j]);
  }

  lemma TakeAll(x: nat, n: nat, s: seq<byte>)
    requires n == |s|
    ensures Take(x, n, s) == Times(x, Pow256(n)) + BigEndian(s)
  {
    TakeIs(x, n, s);
    assert s[..n] == s;
  }

  lemma PowersOfWord(q: nat, t: nat, mLen: nat)
    requires mLen == 8 * q + t
    ensures Pow2(mLen) == Times(Pow2(t), Pow256(q))
  {
    Pow256Pow2(q);
    Pow2Plus(t, 8 * q);
  }

  lemma LowFits(low: nat, t: nat, q: nat, r: nat)
    requires low < Pow2(t) && r < Pow256(q)
    ensures 0 <= Times(low, Pow256(q)) + r < Times(Pow2(t), Pow256(q))
  {
    TimesRules(low, Pow256(q), 0);
    TimesGrow(low + 1, Pow2(t), Pow256(q));
    TimesRules(low, 1, Pow256(q));
    TimesRules(Pow256(q), 0, 0);
  }

  lemma TimesGrow(a: int, b: int, c: nat)
    requires a <= b
    ensures Times(a, c) <= Times(b, c)
  {
  }

  // ---------------------------------------------------------------- round trip

  /** `_En754` */
  function Encode754(f: Format, big: bool, n: Float, log: Log2): (r: seq<byte>)
    requires Good(f) && Estimated(log, n)
    ensures |r| == f.len
  {
    SplitBounds(f, n, log);
    var (e, m) := SplitAny(f, n, log);
    InOrder(big, Pack754(f, Negative(n), e, m))
  }

  /** `_De754` */
  function Decode754(f: Format, big: bool, a: seq<byte>): Float
    requires Good(f) && |a| == f.len
  {
    Meaning(f, DecodeFields(f, InOrder(big, a)))
  }

  lemma WordFits(f: Format, e: nat, m: nat)
    requires Good(f) && e <= EMax(f) && m < Pow2(f.mLen)
    ensures f.len >= 1 && Word(f, e, m) < Pow2(7 + 8 * (f.len - 1)) && Word(f, e, m) < Pow256(f.len)
  {
    var n := ExponentBits(f);
    assert e + 1 <= Pow2(n) && f.mLen + n == 7 + 8 * (f.len - 1);
    Pow256Pow2(f.len);
    Pow2Grows(7 + 8 * (f.len - 1), 8 * f.len);
    Pow2Plus(n, f.mLen);
    WordUnfold(f, e, m);
    assert Pow2(7 + 8 * (f.len - 1)) == Times(Pow2(n), Pow2(f.mLen));
    hide *;
    TimesGrow(e + 1, Pow2(n), Pow2(f.mLen));
    TimesRules(e, 1, Pow2(f.mLen));
    TimesRules(Pow2(f.mLen), 0, 0);
  }

  /** The first byte of a word leaves room for the sign. */
  lemma FirstByteSmall(word: nat, n: nat)
    requires word < Pow2(7 + 8 * n)
    ensures BigEndianBytes(word, n + 1)[0] < 128 && BigEndian(BigEndianBytes(word, n + 1)) == word
  {
    FirstByteRoom(n);
    hide *;
    var s := BigEndianBytes(word, n + 1);
    BigEndianInverse(word, n + 1);
    FirstByteCounts(s[0], s[1..]);
    assert s == [s[0]] + s[1..];
    var b := s[0] as nat;
    if b >= 128 {
      TimesGrow(128, b, Pow256(n));
      assert false;
    }
  }

  lemma FirstByteRoom(n: nat)
    ensures Pow2(7 + 8 * n) == Times(128, Pow256(n)) && Pow2(7 + 8 * n) <= Pow256(n + 1)
  {
    Pow256Pow2(n + 1);
    Pow256Pow2(n);
    Pow2Plus(7, 8 * n);
    EightBits();
    assert Pow2(7) == 128;
    Pow2Grows(7 + 8 * n, 8 * (n + 1));
  }

  lemma TopSplits(f: Format, negative: bool, e: nat, m: real)
    requires Good(f) && m >= 0.0
    ensures var s := TopBytes(f, e, m) + MantissaBytes(m, f.mLen);
            s != [] && Pack754(f, negative, e, m) == [WithSign(s[0], negative)] + s[1..]
  {
    var top, low := TopBytes(f, e, m), MantissaBytes(m, f.mLen);
    assert (top + low)[1..] == top[1..] + low;
  }

  /** The bytes are those of sign, exponent and fraction in this order (section 3.4). */
  lemma PackedFields(f: Format, x: Fields, m: real)
    requires Good(f) && Encodable(f, x) && x.m as real <= m < x.m as real + 1.0
    ensures var s := BigEndianBytes(Word(f, x.e, x.m), f.len);
            && s != [] && s[0] < 128 && BigEndian(s) == Word(f, x.e, x.m)
            && Pack754(f, x.negative, x.e, m) == [WithSign(s[0], x.negative)] + s[1..]
  {
    assert m.Floor == x.m;
    PackIs(f, x.e, m);
    TopSplits(f, x.negative, x.e, m);
    WordFits(f, x.e, x.m);
    FirstByteSmall(Word(f, x.e, x.m), f.len - 1);
  }

  lemma FieldsRead(f: Format, x: Fields, s: seq<byte>)
    requires Good(f) && Encodable(f, x) && |s| == f.len && s[0] < 128 && BigEndian(s) == Word(f, x.e, x.m)
    ensures DecodeFields(f, [WithSign(s[0], x.negative)] + s[1..]) == x
  {
    var a := [WithSign(s[0], x.negative)] + s[1..];
    assert s == [s[0]] + s[1..];
    assert a[1..] == s[1..] && a[0] % 128 == s[0];
    var j := MoreExponent(f);
    assert a[1 + j..] == s[1..][j..];
    WordRead(f, x.e, x.m, s[0], s[1..]);
  }

  /** Decoding gives back whatever was encoded: every number of the format, normalized, denormalized or
      zero, the infinities and what is no number, in both byte orders, and whichever of the estimates
      within one of the logarithm the encoder starts from. */
  lemma FloatRoundTrip(f: Format, big: bool, n: Float, log: Log2)
    requires Good(f) && Representable(f, n) && Estimated(log, n)
    ensures Decode754(f, big, Encode754(f, big, n, log)) == n
  {
    SplitBounds(f, n, log);
    var x := SplitAnyIs(f, n, log);
    var m := SplitAny(f, n, log).1;
    PackedFields(f, x, m);
    var s := BigEndianBytes(Word(f, x.e, x.m), f.len);
    FieldsRead(f, x, s);
    ReversedTwice(Pack754(f, x.negative, x.e, m));
  }

  /** Both formats of the library. What is added to a single before truncating does not always fit in a
      double together with it; whatever it is rounded to, up to half a unit in the last place, goes again. */
  lemma LibraryRoundTrip(big: bool, n: Float, log: Log2, added: real)
    requires Estimated(log, n) && 0.0 <= added <= Exp2(-24)
    ensures var f := Single().(rt := added);
            Good(f) && (Representable(f, n) ==> Decode754(f, big, Encode754(f, big, n, log)) == n)
    ensures 0.0 <= Single().rt <= Exp2(-24)
    ensures Representable(Double(), n) ==> Decode754(Double(), big, Encode754(Double(), big, n, log)) == n
  {
    hide Representable;
    hide Decode754;
    hide Encode754;
    hide Exp2;
    var f := Single().(rt := added);
    if Representable(f, n) {
      FloatRoundTrip(f, big, n, log);
    }
    if Representable(Double(), n) {
      FloatRoundTrip(Double(), big, n, log);
    }
  }
}
