/** Floating point numbers as bytes (section 3.4 of IEEE 754-2008), in exact real arithmetic. The
    encoder starts from an estimate of the binary logarithm that may be off by one, corrects it before
    and after rounding, and splits the number into exponent and fraction. For every number of the
    format, finite or not, these are its own. */
module Ieee754 {
  import opened Buffers

  // ------------------------------------------------------------- powers of two

  function Exp2(e: int): (r: real)
    ensures r > 0.0
    decreases if e < 0 then -e else e
  {
    if e == 0 then 1.0 else if e > 0 then 2.0 * Exp2(e - 1) else Exp2(e + 1) / 2.0
  }

  lemma Exp2Next(e: int)
    ensures Exp2(e + 1) == 2.0 * Exp2(e)
  {
  }

  /** The product. It has a name so that proofs can leave multiplication alone. */
  function Mul(a: real, b: real): real {
    a * b
  }

  lemma MulRules(a: real, b: real, c: real)
    ensures Mul(a, 2.0 * b) == 2.0 * Mul(a, b) && Mul(2.0 * a, b) == 2.0 * Mul(a, b)
    ensures Mul(a, b / 2.0) == Mul(a, b) / 2.0
    ensures Mul(a, 1.0) == a && Mul(1.0, a) == a && Mul(0.0, a) == 0.0
    ensures Mul(a, b) == Mul(b, a) && Mul(Mul(a, b), c) == Mul(a, Mul(b, c))
    ensures Mul(a + b, c) == Mul(a, c) + Mul(b, c) && Mul(a - b, c) == Mul(a, c) - Mul(b, c)
  {
  }

  lemma MulLess(a: real, b: real, c: real)
    requires c > 0.0
    ensures a <= b ==> Mul(a, c) <= Mul(b, c)
    ensures a < b ==> Mul(a, c) < Mul(b, c)
  {
  }

  lemma {:induction false} Exp2Plus(a: int, b: int)
    ensures Exp2(a + b) == Mul(Exp2(a), Exp2(b))
    decreases if b < 0 then -b else b
  {
    assert Exp2(0) == 1.0;
    hide Exp2;
    hide Mul;
    if b > 0 {
      Exp2Plus(a, b - 1);
      Exp2Next(a + b - 1);
      Exp2Next(b - 1);
      MulRules(Exp2(a), Exp2(b - 1), 0.0);
    } else if b < 0 {
      Exp2Plus(a, b + 1);
      Exp2Next(a + b);
      Exp2Next(b);
      MulRules(Exp2(a), Exp2(b), 0.0);
    } else {
      MulRules(Exp2(a), 0.0, 0.0);
    }
  }

  lemma Exp2Inverse(e: int)
    ensures Mul(Exp2(e), Exp2(-e)) == 1.0
  {
    Exp2Plus(e, -e);
  }

  lemma {:induction false} Exp2Grows(a: int, b: int)
    requires a <= b
    ensures Exp2(a) <= Exp2(b)
    decreases b - a
  {
    if a < b {
      Exp2Grows(a, b - 1);
      Exp2Next(b - 1);
    }
  }

  lemma {:induction false} Exp2Nat(n: nat)
    ensures Exp2(n) == Pow2(n) as real
  {
    if n > 0 {
      Exp2Nat(n - 1);
    }
  }

  // ------------------------------------------------------------------ formats

  /** A format of `len` bytes with `mLen` bits of significand, and what is added before truncating. */
  datatype Format = Format(mLen: nat, len: nat, rt: real)

  /** The bits of the exponent. */
  function ExponentBits(f: Format): int {
    f.len * 8 - f.mLen - 1
  }

  predicate Good(f: Format) {
    f.mLen >= 8 && ExponentBits(f) >= 8 && 0.0 <= f.rt <= Exp2(-1 - f.mLen)
  }

  function EMax(f: Format): (r: nat)
    requires Good(f)
    ensures r >= 3
  {
    assert Pow2(ExponentBits(f)) == 2 * Pow2(ExponentBits(f) - 1) == 4 * Pow2(ExponentBits(f) - 2);
    Pow2(ExponentBits(f)) - 1
  }

  function Bias(f: Format): nat
    requires Good(f)
  {
    EMax(f) / 2
  }

  lemma RoundingTerms()
    ensures Exp2(-77) < Exp2(-24) && Exp2(-53) > 0.0
  {
    Exp2Grows(-77, -25);
    Exp2Next(-25);
  }

  /** The two formats of the library. */
  function Single(): (f: Format)
    ensures Good(f) && f.mLen == 23 && f.len == 4
  {
    RoundingTerms();
    Format(23, 4, Exp2(-24) - Exp2(-77))
  }

  function Double(): (f: Format)
    ensures Good(f) && f.mLen == 52 && f.len == 8
  {
    RoundingTerms();
    Format(52, 8, 0.0)
  }

  /** Sign, biased exponent and fraction. */
  datatype Fields = Fields(negative: bool, e: nat, m: nat)

  /** What a double can be: a number, an infinity, or neither. */
  datatype Float = Finite(v: real) | Infinite(negative: bool) | NaN

  /** Fields that have room in the format. */
  ghost predicate Encodable(f: Format, x: Fields)
    requires Good(f)
  {
    x.e <= EMax(f) && x.m < Pow2(f.mLen)
  }

  /** A finite number other than zero. */
  ghost predicate FiniteNonZero(f: Format, x: Fields)
    requires Good(f)
  {
    x.e < EMax(f) && x.m < Pow2(f.mLen) && (x.e != 0 || x.m != 0)
  }

  function Signed(negative: bool, v: real): real {
    if negative then -v else v
  }

  /** The number that the fields stand for; exponent zero is that of the denormalized numbers. */
  function Value(f: Format, x: Fields): real
    requires Good(f)
  {
    if x.e == 0 then Signed(x.negative, Mul(x.m as real, Exp2(1 - Bias(f) - f.mLen)))
    else Signed(x.negative, Mul((x.m + Pow2(f.mLen)) as real, Exp2(x.e - Bias(f) - f.mLen)))
  }

  /** What the fields stand for; the largest exponent is that of the infinities and of what is no number. */
  function Meaning(f: Format, x: Fields): Float
    requires Good(f)
  {
    if x.e != EMax(f) then Finite(Value(f, x)) else if x.m == 0 then Infinite(x.negative) else NaN
  }

  /** The format has it. */
  ghost predicate Representable(f: Format, n: Float)
    requires Good(f)
  {
    exists x :: Encodable(f, x) && Meaning(f, x) == n
  }

  // ----------------------------------------------------------------- encoding

  /** An exponent and the power of two that scales a number to it. */
  datatype Scale = Scale(e: int, c: real)

  /** The estimate, lowered if it was too high. */
  function Lowered(v: real, estimate: int): Scale {
    var c := Exp2(-estimate);
    if Mul(v, c) < 1.0 then Scale(estimate - 1, 2.0 * c) else Scale(estimate, c)
  }

  /** Half a unit in the last place, nearly, is added. */
  function Rounded(f: Format, v: real, s: Scale): real
    requires Good(f) && s.c > 0.0
  {
    if s.e + Bias(f) >= 1 then v + f.rt / s.c else v + Mul(f.rt, Exp2(1 - Bias(f)))
  }

  /** The exponent raised if the number is two or more at this scale. */
  function Raised(v: real, s: Scale): Scale {
    if Mul(v, s.c) >= 2.0 then Scale(s.e + 1, s.c / 2.0) else s
  }

  /** The biased exponent and the fraction, still with what is to be truncated. */
  function Packed(f: Format, v: real, s: Scale): (nat, real)
    requires Good(f)
  {
    if s.e + Bias(f) >= EMax(f) then (EMax(f), 0.0)
    else if s.e + Bias(f) >= 1 then (s.e + Bias(f), Mul(Mul(v, s.c) - 1.0, Exp2(f.mLen)))
    else (0, Mul(Mul(v, Exp2(Bias(f) - 1)), Exp2(f.mLen)))
  }

  function Abs(v: real): real {
    if v < 0.0 then -v else v
  }

  /** The arithmetic of `_En754`, for a number other than zero. */
  function Split(f: Format, v: real, estimate: int): (nat, real)
    requires Good(f)
  {
    var lowered := Lowered(Abs(v), estimate);
    var rounded := Rounded(f, Abs(v), lowered);
    Packed(f, rounded, Raised(rounded, lowered))
  }

  /** What the logarithm gives, rounded down. */
  datatype Log2 = MinusInfinity | About(e: int)

  /** The logarithm is that of zero, or at most one off. */
  ghost predicate Estimates(log: Log2, v: real) {
    match log
    case MinusInfinity => v == 0.0
    case About(e) => Exp2(e - 1) <= Abs(v) < Exp2(e + 2)
  }

  ghost predicate Estimated(log: Log2, n: Float) {
    n.Finite? ==> Estimates(log, n.v)
  }

  /** The arithmetic of `_En754` for anything. The scale of zero is infinite, and no comparison with it
      takes zero out of the branch of the denormalized numbers. */
  function SplitAny(f: Format, n: Float, log: Log2): (nat, real)
    requires Good(f)
  {
    match n
    case NaN => (EMax(f), 1.0)
    case Infinite(_) => (EMax(f), 0.0)
    case Finite(v) =>
      match log
      case MinusInfinity => (0, Mul(Mul(Abs(v) + Mul(f.rt, Exp2(1 - Bias(f))), Exp2(Bias(f) - 1)), Exp2(f.mLen)))
      case About(e) => Split(f, v, e)
  }

  predicate Negative(n: Float) {
    match n
    case NaN => false
    case Infinite(negative) => negative
    case Finite(v) => v < 0.0
  }

  /** The binary logarithm of a positive number, rounded down. */
  ghost predicate IsLog2(v: real, e: int) {
    Exp2(e) <= v < Exp2(e + 1)
  }

  /** A number scaled by a power of two. */
  lemma ScaledIn(v: real, e: int, k: int)
    requires IsLog2(v, e)
    ensures Exp2(e - k) <= Mul(v, Exp2(-k)) < Exp2(e - k + 1)
  {
    hide Exp2;
    hide Mul;
    Exp2Plus(e, -k);
    Exp2Plus(e + 1, -k);
    MulLess(Exp2(e), v, Exp2(-k));
    MulLess(v, Exp2(e + 1), Exp2(-k));
  }

  /** With an estimate at most one off, the exponent is right or one too low. */
  lemma LoweredIs(v: real, e: int, estimate: int)
    requires IsLog2(v, e) && e - 1 <= estimate <= e + 1
    ensures var s := Lowered(v, estimate); (s.e == e || s.e == e - 1) && s.c == Exp2(-s.e)
  {
    assert Exp2(0) == 1.0;
    hide Exp2;
    hide Mul;
    Exp2Next(-estimate);
    ScaledIn(v, e, estimate);
    if estimate <= e {
      Exp2Grows(0, e - estimate);
    }
  }

  /** As long as the logarithm stays the same, raising makes the exponent right. */
  lemma RaisedIs(v: real, e: int, s: Scale)
    requires IsLog2(v, e) && (s.e == e || s.e == e - 1) && s.c == Exp2(-s.e)
    ensures Raised(v, s) == Scale(e, Exp2(-e))
  {
    assert Exp2(0) == 1.0 && Exp2(1) == 2.0 && Exp2(2) == 4.0;
    hide Exp2;
    hide Mul;
    ScaledIn(v, e, s.e);
    Exp2Next(-e);
  }

  // ----------------------------------------------------- representable numbers

  lemma {:induction false} Pow2Grows(a: nat, b: nat)
    requires a < b
    ensures 2 * Pow2(a) <= Pow2(b)
    decreases b
  {
    if a + 1 < b {
      Pow2Grows(a, b - 1);
    }
  }

  lemma LogUnique(j: nat, k: nat, n: nat)
    requires Pow2(j) <= n < 2 * Pow2(j) && Pow2(k) <= n < 2 * Pow2(k)
    ensures j == k
  {
    if j < k {
      Pow2Grows(j, k);
    } else if k < j {
      Pow2Grows(k, j);
    }
  }

  lemma Exp2Order(a: int, b: int)
    requires Exp2(a) < Exp2(b)
    ensures a < b
  {
    if b <= a {
      Exp2Grows(b, a);
    }
  }

  lemma CancelUnit(a: real, b: real, u: real)
    requires u > 0.0
    ensures Mul(a, u) <= Mul(b, u) ==> a <= b
    ensures Mul(a, u) < Mul(b, u) ==> a < b
  {
    MulLess(a, b, u);
    MulLess(b, a, u);
  }

  /** A whole number of units, with less than a unit added, keeps its logarithm. */
  lemma GridLog(n: nat, q: int, e: int, d: real)
    requires n >= 1 && IsLog2(Mul(n as real, Exp2(q)), e) && 0.0 <= d < Exp2(q)
    ensures q <= e && Pow2(e - q) <= n < 2 * Pow2(e - q)
    ensures IsLog2(Mul(n as real, Exp2(q)) + d, e)
  {
    hide Exp2;
    hide Mul;
    var u, r := Exp2(q), n as real;
    MulRules(u, 0.0, 0.0);
    MulLess(1.0, r, u);
    Exp2Order(q, e + 1);
    var k: nat := e - q;
    Exp2Plus(k, q);
    Exp2Plus(k + 1, q);
    Exp2Nat(k);
    Exp2Nat(k + 1);
    CancelUnit(Pow2(k) as real, r, u);
    CancelUnit(r, Pow2(k + 1) as real, u);
    assert n + 1 <= Pow2(k + 1);
    MulRules(r, 1.0, u);
    assert (n + 1) as real == r + 1.0;
    MulLess((n + 1) as real, Pow2(k + 1) as real, u);
  }

  /** Counting the units again gives the number back, with less than one more. */
  lemma Descaled(n: nat, q: int, d: real)
    requires 0.0 <= d < Exp2(q)
    ensures n as real <= Mul(Mul(n as real, Exp2(q)) + d, Exp2(-q)) < n as real + 1.0
  {
    hide Exp2;
    hide Mul;
    var u, w, r := Exp2(q), Exp2(-q), n as real;
    Exp2Inverse(q);
    MulRules(Mul(r, u), d, w);
    MulRules(r, u, w);
    MulRules(r, 1.0, 1.0);
    MulRules(0.0, w, 0.0);
    MulRules(w, 1.0, 0.0);
    MulLess(0.0, d, w);
    MulLess(d, u, w);
  }

  lemma DivExp2(a: real, k: int)
    ensures a / Exp2(-k) == Mul(a, Exp2(k))
  {
    Exp2Inverse(k);
    DivInverse(a, Exp2(k), Exp2(-k));
  }

  lemma DivInverse(a: real, b: real, c: real)
    requires c > 0.0 && Mul(b, c) == 1.0
    ensures a / c == Mul(a, b)
  {
    assert Mul(a, b) * c == a * (b * c);
  }

  /** What rounding adds is less than a unit. */
  lemma RoundingSmall(f: Format, t: int, q: int)
    requires Good(f) && t - f.mLen <= q
    ensures 0.0 <= Mul(f.rt, Exp2(t)) < Exp2(q)
  {
    hide Exp2;
    hide Mul;
    MulRules(Exp2(t), 0.0, 0.0);
    MulLess(0.0, f.rt, Exp2(t));
    MulLess(f.rt, Exp2(-1 - f.mLen), Exp2(t));
    Exp2Plus(-1 - f.mLen, t);
    Exp2Grows(-1 - f.mLen + t, q - 1);
    Exp2Next(q - 1);
  }

  /** The whole number of units of a number, and the exponent of the unit. */
  function Units(f: Format, x: Fields): nat
    requires Good(f)
  {
    if x.e == 0 then x.m else x.m + Pow2(f.mLen)
  }

  function UnitExponent(f: Format, x: Fields): int
    requires Good(f)
  {
    (if x.e == 0 then 1 else x.e) - Bias(f) - f.mLen
  }

  lemma ValueIs(f: Format, x: Fields)
    requires Good(f) && FiniteNonZero(f, x)
    ensures Value(f, x) == Signed(x.negative, Mul(Units(f, x) as real, Exp2(UnitExponent(f, x))))
    ensures Units(f, x) >= 1 && Mul(Units(f, x) as real, Exp2(UnitExponent(f, x))) > 0.0
  {
    hide Exp2;
    var n, u := Units(f, x), Exp2(UnitExponent(f, x));
    MulLess(0.0, n as real, u);
    MulRules(u, 0.0, 0.0);
    hide Mul;
  }

  /** The scale at which the encoder rounds, and what rounding adds. */
  lemma RoundedIs(f: Format, x: Fields, v: real, e: int, s: Scale)
    requires Good(f) && FiniteNonZero(f, x) && v == Mul(Units(f, x) as real, Exp2(UnitExponent(f, x)))
    requires IsLog2(v, e) && (s.e == e || s.e == e - 1) && s.c == Exp2(-s.e)
    ensures var d := Rounded(f, v, s) - v; 0.0 <= d < Exp2(UnitExponent(f, x))
    ensures if x.e == 0 then e + Bias(f) <= 0 else e == x.e - Bias(f)
  {
    hide Mul;
    var n, q := Units(f, x), UnitExponent(f, x);
    ValueIs(f, x);
    assert Exp2(q) > 0.0;
    hide Exp2;
    GridLog(n, q, e, 0.0);
    if x.e != 0 {
      LogUnique(e - q, f.mLen, n);
    } else if e - q >= f.mLen {
      if f.mLen < e - q {
        Pow2Grows(f.mLen, e - q);
      }
      assert false;
    }
    DivExp2(f.rt, s.e);
    RoundingSmall(f, if s.e + Bias(f) >= 1 then s.e else 1 - Bias(f), q);
  }

  /** Encoding a representable number gives its exponent and, once truncated, its fraction, whatever
      the estimate was. */
  lemma SplitIs(f: Format, x: Fields, e: int, estimate: int)
    requires Good(f) && FiniteNonZero(f, x)
    requires IsLog2(Abs(Value(f, x)), e) && e - 1 <= estimate <= e + 1
    ensures var p := Split(f, Value(f, x), estimate);
            p.0 == x.e && x.m as real <= p.1 < x.m as real + 1.0 && (Value(f, x) < 0.0 <==> x.negative)
  {
    ValueIs(f, x);
    var v, n, q := Abs(Value(f, x)), Units(f, x), UnitExponent(f, x);
    var s := Lowered(v, estimate);
    LoweredIs(v, e, estimate);
    RoundedIs(f, x, v, e, s);
    var w := Rounded(f, v, s);
    var d := w - v;
    GridLog(n, q, e, d);
    RaisedIs(w, e, s);
    Descaled(n, q, d);
    PackedIs(f, x, w, e);
  }

  lemma PackedIs(f: Format, x: Fields, w: real, e: int)
    requires Good(f) && FiniteNonZero(f, x)
    requires if x.e == 0 then e + Bias(f) <= 0 else e == x.e - Bias(f)
    requires Units(f, x) as real <= Mul(w, Exp2(-UnitExponent(f, x))) < Units(f, x) as real + 1.0
    ensures var p := Packed(f, w, Scale(e, Exp2(-e)));
            p.0 == x.e && x.m as real <= p.1 < x.m as real + 1.0
  {
    hide Exp2;
    hide Mul;
    var q := UnitExponent(f, x);
    if x.e == 0 {
      Exp2Plus(Bias(f) - 1, f.mLen);
      MulRules(w, Exp2(Bias(f) - 1), Exp2(f.mLen));
      assert Bias(f) - 1 + f.mLen == -q;
    } else {
      Exp2Plus(-e, f.mLen);
      MulRules(w, Exp2(-e), Exp2(f.mLen));
      MulRules(Mul(w, Exp2(-e)), 1.0, Exp2(f.mLen));
      MulRules(Exp2(f.mLen), 0.0, 0.0);
      Exp2Nat(f.mLen);
      assert -e + f.mLen == -q;
    }
  }

  // ---------------------------------------------------------------- everything

  lemma EstimateOf(v: real, estimate: int) returns (e: int)
    requires Estimates(About(estimate), v)
    ensures IsLog2(Abs(v), e) && e - 1 <= estimate <= e + 1
  {
    hide Exp2;
    e := if Abs(v) < Exp2(estimate) then estimate - 1 else if Abs(v) < Exp2(estimate + 1) then estimate else estimate + 1;
  }

  /** The fraction is never negative. */
  lemma SplitBounds(f: Format, n: Float, log: Log2)
    requires Good(f) && Estimated(log, n)
    ensures SplitAny(f, n, log).0 <= EMax(f) && SplitAny(f, n, log).1 >= 0.0
  {
    if n.Finite? {
      match log
      case MinusInfinity => ZeroBounds(f);
      case About(estimate) =>
        var e := EstimateOf(n.v, estimate);
        LoweredIs(Abs(n.v), e, estimate);
        PackedBounds(f, Abs(n.v), e, Lowered(Abs(n.v), estimate));
    }
  }

  /** What rounding makes of zero is truncated again. */
  lemma ZeroBounds(f: Format)
    requires Good(f)
    ensures 0.0 <= Mul(Mul(0.0 + Mul(f.rt, Exp2(1 - Bias(f))), Exp2(Bias(f) - 1)), Exp2(f.mLen)) < 1.0
  {
    var a := Exp2(1 - Bias(f));
    hide Exp2;
    hide Mul;
    MulRules(f.rt, a, Exp2(Bias(f) - 1));
    Exp2Inverse(1 - Bias(f));
    MulRules(f.rt, 0.0, 0.0);
    MulLess(0.0, f.rt, Exp2(f.mLen));
    MulLess(f.rt, Exp2(-1 - f.mLen), Exp2(f.mLen));
    MulRules(Exp2(f.mLen), 0.0, 0.0);
    Exp2Plus(-1 - f.mLen, f.mLen);
    Exp2Next(-1);
    assert Exp2(0) == 1.0 by { Exp2Inverse(0); ExpZero(); }
  }

  lemma ExpZero()
    ensures Exp2(0) == 1.0
  {
  }

  lemma PackedBounds(f: Format, v: real, e: int, s: Scale)
    requires Good(f) && IsLog2(v, e) && (s.e == e || s.e == e - 1) && s.c == Exp2(-s.e)
    ensures var w := Rounded(f, v, s); Packed(f, w, Raised(w, s)).0 <= EMax(f) && Packed(f, w, Raised(w, s)).1 >= 0.0
  {
    ExpZero();
    var w := Rounded(f, v, s);
    var r := Raised(w, s);
    assert w >= v && s.c > 0.0 by { MulLess(0.0, f.rt, Exp2(1 - Bias(f))); MulRules(Exp2(1 - Bias(f)), 0.0, 0.0); }
    hide Exp2;
    hide Rounded;
    ScaledIn(v, e, s.e);
    Exp2Grows(0, e - s.e);
    MulLess(v, w, s.c);
    MulRules(w, s.c, 0.0);
    assert Mul(w, r.c) >= 1.0;
    assert w >= 0.0 by { assert Exp2(e) > 0.0; }
    hide Raised;
    hide IsLog2;
    MulLess(0.0, w, Exp2(Bias(f) - 1));
    MulLess(0.0, Mul(w, Exp2(Bias(f) - 1)), Exp2(f.mLen));
    MulLess(0.0, Mul(w, r.c) - 1.0, Exp2(f.mLen));
    MulRules(Exp2(f.mLen), 0.0, 0.0);
    MulRules(Exp2(Bias(f) - 1), 0.0, 0.0);
    hide Mul;
  }

  /** Encoding anything the format has gives fields that stand for it. */
  lemma SplitAnyIs(f: Format, n: Float, log: Log2) returns (x: Fields)
    requires Good(f) && Representable(f, n) && Estimated(log, n)
    ensures Encodable(f, x) && Meaning(f, x) == n && x.negative == Negative(n)
    ensures SplitAny(f, n, log).0 == x.e && x.m as real <= SplitAny(f, n, log).1 < x.m as real + 1.0
  {
    match n
    case NaN =>
      assert Pow2(1) == 2;
      Pow2Grows(1, f.mLen);
      x := Fields(false, EMax(f), 1);
    case Infinite(negative) =>
      x := Fields(negative, EMax(f), 0);
    case Finite(v) =>
      match log
      case MinusInfinity =>
        ZeroBounds(f);
        MulRules(Exp2(1 - Bias(f) - f.mLen), 0.0, 0.0);
        x := Fields(false, 0, 0);
      case About(estimate) =>
        x :| Encodable(f, x) && Meaning(f, x) == n;
        var e := EstimateOf(v, estimate);
        NotZero(f, x, e);
        SplitIs(f, x, e, estimate);
  }

  lemma NotZero(f: Format, x: Fields, e: int)
    requires Good(f) && Encodable(f, x) && x.e != EMax(f) && IsLog2(Abs(Value(f, x)), e)
    ensures FiniteNonZero(f, x)
  {
    assert Exp2(e) > 0.0;
    MulRules(Exp2(1 - Bias(f) - f.mLen), 0.0, 0.0);
  }
}
