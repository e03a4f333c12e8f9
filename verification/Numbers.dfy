/** Numbers as bytes, most significant first. */
module Numbers {
  import opened Buffers

  function Pow256(n: nat): (r: nat)
    ensures r > 0
  {
    if n == 0 then 1 else 256 * Pow256(n - 1)
  }

  function BigEndian(s: seq<byte>): nat {
    if s == [] then 0 else 256 * BigEndian(s[..|s| - 1]) + s[|s| - 1] as nat
  }

  function LowByte(v: nat): byte {
    (v % 256) as byte
  }

  function BigEndianBytes(v: nat, n: nat): (r: seq<byte>)
    ensures |r| == n
  {
    if n == 0 then [] else BigEndianBytes(v / 256, n - 1) + [LowByte(v)]
  }

  lemma {:induction false} BigEndianInverse(v: nat, n: nat)
    requires v < Pow256(n)
    ensures BigEndian(BigEndianBytes(v, n)) == v
  {
    if n != 0 {
      BigEndianInverse(v / 256, n - 1);
      BigEndianSnoc(BigEndianBytes(v / 256, n - 1), LowByte(v));
    }
  }

  lemma BigEndianSnoc(s: seq<byte>, b: byte)
    ensures BigEndian(s + [b]) == 256 * BigEndian(s) + b as nat
  {
    assert (s + [b])[..|s|] == s;
  }

  lemma {:induction false} BigEndianCons(b: byte, s: seq<byte>)
    ensures BigEndian([b] + s) == b as nat * Pow256(|s|) + BigEndian(s)
  {
    if s == [] {
      assert [b] + s == [] + [b];
      BigEndianSnoc([], b);
    } else {
      var front, last := s[..|s| - 1], s[|s| - 1];
      assert [b] + s == ([b] + front) + [last] && s == front + [last];
      BigEndianCons(b, front);
      BigEndianSnoc([b] + front, last);
      BigEndianSnoc(front, last);
      assert 256 * (b as nat * Pow256(|front|)) == b as nat * (256 * Pow256(|front|));
    }
  }

  lemma ByteMore(v: nat, n: nat)
    ensures BigEndianBytes(v, n + 1) == BigEndianBytes(v / 256, n) + [LowByte(v)]
  {
  }

  lemma TwoBytes(v: nat)
    ensures BigEndianBytes(v, 2) == [LowByte(v / 256), LowByte(v)]
  {
    ByteMore(v, 1);
    ByteMore(v / 256, 0);
  }

  lemma FourBytes(v: nat)
    ensures BigEndianBytes(v, 4) == [LowByte(v / 0x100_0000), LowByte(v / 0x1_0000), LowByte(v / 0x100), LowByte(v)]
  {
    ByteMore(v, 3);
    ByteMore(v / 256, 2);
    TwoBytes(v / 256 / 256);
    hide BigEndianBytes;
    hide LowByte;
    assert v / 256 / 256 == v / 0x1_0000 && v / 256 / 256 / 256 == v / 0x100_0000;
  }

  lemma {:induction false} ZeroBytes(k: nat)
    ensures BigEndianBytes(0, k) == Zeros(k)
  {
    if k > 0 {
      ZeroBytes(k - 1);
      assert Zeros(k) == Zeros(k - 1) + [0];
    }
  }

  /** A number that fits in the low `n` bytes, with `k` more before them. */
  lemma {:induction false} HighBytes(v: nat, n: nat, k: nat)
    requires v < Pow256(n)
    ensures BigEndianBytes(v, k + n) == Zeros(k) + BigEndianBytes(v, n)
  {
    if n == 0 {
      ZeroBytes(k);
      assert Zeros(k) + [] == Zeros(k);
    } else {
      HighBytes(v / 256, n - 1, k);
      assert Zeros(k) + BigEndianBytes(v / 256, n - 1) + [LowByte(v)] == Zeros(k) + (BigEndianBytes(v / 256, n - 1) + [LowByte(v)]);
      assert BigEndianBytes(v, k + n) == BigEndianBytes(v / 256, k + (n - 1)) + [LowByte(v)];
    }
  }

  // ------------------------------------------------------------- arithmetic

  /** Product and remainder under names that a proof can hide. */
  function Times(a: int, b: int): int {
    a * b
  }

  function Modulo(v: int, m: int): (r: nat)
    requires m > 0
    ensures r < m
  {
    v % m
  }

  function Quotient(v: nat, m: nat): nat
    requires m > 0
  {
    v / m
  }

  lemma QuotientModulo(v: nat, m: nat)
    requires m > 0
    ensures v == Times(Quotient(v, m), m) + Modulo(v, m)
  {
  }

  lemma TimesRules(a: int, b: int, c: int)
    ensures Times(Times(a, b), c) == Times(a, Times(b, c)) && Times(a, b) == Times(b, a)
    ensures Times(a + b, c) == Times(a, c) + Times(b, c)
    ensures Times(0, a) == 0 && Times(1, a) == a && Times(2, a) == 2 * a && Times(256, a) == 256 * a
    ensures Times(a, 256 * b) == 256 * Times(a, b)
    ensures a >= 0 && b >= 0 ==> Times(a, b) >= 0
  {
  }

  lemma {:induction false} Pow2Plus(a: nat, b: nat)
    ensures Pow2(a + b) == Pow2(a) * Pow2(b)
  {
    if a > 0 {
      Pow2Plus(a - 1, b);
      assert 2 * Pow2(a - 1) * Pow2(b) == 2 * (Pow2(a - 1) * Pow2(b));
    }
  }

  lemma {:induction false} Pow256Pow2(n: nat)
    ensures Pow256(n) == Pow2(8 * n)
  {
    if n > 0 {
      Pow256Pow2(n - 1);
      EightBits();
      Pow2Plus(8, 8 * (n - 1));
    }
  }

  lemma MulOne(d: int, m: int)
    requires m > 0
    ensures d >= 1 ==> d * m >= m
    ensures d <= -1 ==> d * m <= -m
  {
    if d >= 1 {
      assert (d - 1) * m >= 0;
    } else if d <= -1 {
      assert (-1 - d) * m >= 0;
    }
  }

  /** Quotient and remainder are determined. */
  lemma DivModIs(v: int, m: int, q: int, r: int)
    requires m > 0 && v == q * m + r && 0 <= r < m
    ensures v / m == q && v % m == r
  {
    var d := v / m - q;
    assert d * m == v / m * m - q * m;
    MulOne(d, m);
  }

  /** The lowest byte and the rest of a number modulo `256 * m`. */
  lemma DivModByte(v: int, m: int)
    requires m > 0
    ensures v % (256 * m) % 256 == v % 256 && v % (256 * m) / 256 == v / 256 % m
  {
    var q, r := v / 256 / m, v / 256 % m;
    assert q * (256 * m) == 256 * (q * m);
    DivModIs(v, 256 * m, q, 256 * r + v % 256);
    DivModIs(256 * r + v % 256, 256, r, v % 256);
  }

  // ------------------------------------------------------------------- bits

  /** The bit of a number with the value two to the `k`. */
  function BitAt(n: nat, k: nat): nat {
    n / Pow2(k) % 2
  }

  lemma HalfBit(n: nat, k: nat)
    requires k > 0
    ensures BitAt(n, k) == BitAt(n / 2, k - 1)
  {
    var p := Pow2(k - 1);
    var q, r := n / 2 / p, n / 2 % p;
    assert n == q * (2 * p) + (2 * r + n % 2) by {
      assert n / 2 == q * p + r;
      assert q * (2 * p) == 2 * (q * p);
    }
    DivModIs(n, 2 * p, q, 2 * r + n % 2);
  }

  /** Exclusive or sets the bits in which two numbers differ. */
  lemma {:induction false} XorBitAt(a: nat, b: nat, bits: nat, k: nat)
    requires k < bits
    ensures BitAt(XorBits(a, b, bits), k) == if BitAt(a, k) == BitAt(b, k) then 0 else 1
  {
    var low, high := if a % 2 == b % 2 then 0 else 1, XorBits(a / 2, b / 2, bits - 1);
    BitOver(low, high);
    if k > 0 {
      XorBitAt(a / 2, b / 2, bits - 1, k - 1);
      HalfBit(a, k);
      HalfBit(b, k);
      HalfBit(low + 2 * high, k);
    }
  }
}
