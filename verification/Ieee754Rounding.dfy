/** What the encoder makes of a number that the format does not have: it adds about half a unit and truncates,
    so that the nearest number of the format comes out. */
module Ieee754Rounding {
  import opened Buffers
  import opened Numbers
  import opened BufferPack
  import opened Ieee754
  import opened Ieee754Bytes
  import opened Ieee754Layout

  /** The exponent of the unit for a biased exponent; zero is that of the denormalized numbers. */
  function UnitAt(f: Format, e: nat): int
    requires Good(f)
  {
    (if e == 0 then 1 else e) - Bias(f) - f.mLen
  }

  /** What is added before truncating, for a number with the logarithm `e`. */
  function Added(f: Format, e: int): real
    requires Good(f)
  {
    Mul(f.rt, Exp2(if e + Bias(f) >= 1 then e else 1 - Bias(f)))
  }

  /** The truncated fraction, and the number it stands for, which is the greatest not above `w`. */
  ghost predicate Truncates(f: Format, w: real, e: nat, m: real)
    requires Good(f)
  {
    && e < EMax(f) && 0.0 <= m < Pow2(f.mLen) as real
    && var v := Value(f, Fields(false, e, m.Floor)); v <= w < v + Exp2(UnitAt(f, e))
  }

  /** A number of units, rounded down. */
  lemma UnitsDown(w: real, n: real, u: int)
    requires n >= 0.0 && Mul(n, Exp2(u)) == w
    ensures Mul(n.Floor as real, Exp2(u)) <= w < Mul(n.Floor as real, Exp2(u)) + Exp2(u)
  {
    hide Exp2;
    MulLess(n.Floor as real, n, Exp2(u));
    MulLess(n, n.Floor as real + 1.0, Exp2(u));
    MulRules(n.Floor as real, 1.0, Exp2(u));
    MulRules(1.0, Exp2(u), 0.0);
    hide Mul;
  }

  lemma NormalUnits(f: Format, w: real, e: int)
    requires Good(f)
    ensures Mul(Mul(Mul(w, Exp2(-e)) - 1.0, Exp2(f.mLen)) + Pow2(f.mLen) as real, Exp2(e - f.mLen)) == w
  {
    hide Exp2;
    hide Mul;
    var a, p, q := Mul(w, Exp2(-e)), Exp2(f.mLen), Exp2(e - f.mLen);
    Exp2Nat(f.mLen);
    MulRules(a, 1.0, p);
    MulRules(p, 1.0, 0.0);
    assert Mul(a - 1.0, p) + p == Mul(a, p);
    MulRules(a, p, q);
    Exp2Plus(f.mLen, e - f.mLen);
    MulRules(w, Exp2(-e), Exp2(e));
    Exp2Plus(-e, e);
    ExpZero();
    MulRules(w, 1.0, 0.0);
  }

  /** A number with the logarithm `e` at its own scale. */
  lemma NormalPacked(f: Format, w: real, e: int)
    requires Good(f) && IsLog2(w, e) && 1 <= e + Bias(f) < EMax(f)
    ensures var m := Mul(Mul(w, Exp2(-e)) - 1.0, Exp2(f.mLen)); Truncates(f, w, e + Bias(f), m)
  {
    var m := Mul(Mul(w, Exp2(-e)) - 1.0, Exp2(f.mLen));
    assert Exp2(0) == 1.0 && Exp2(1) == 2.0;
    ScaledIn(w, e, e);
    Exp2Nat(f.mLen);
    MulLess(0.0, Mul(w, Exp2(-e)) - 1.0, Exp2(f.mLen));
    MulLess(Mul(w, Exp2(-e)) - 1.0, 1.0, Exp2(f.mLen));
    MulRules(Exp2(f.mLen), 0.0, 0.0);
    NormalUnits(f, w, e);
    hide Exp2;
    hide Mul;
    UnitsDown(w, m + Pow2(f.mLen) as real, e - f.mLen);
    assert (m + Pow2(f.mLen) as real).Floor == m.Floor + Pow2(f.mLen);
    var x := Fields(false, e + Bias(f), m.Floor);
    assert Value(f, x) == Mul((m.Floor + Pow2(f.mLen)) as real, Exp2(e - f.mLen));
  }

  /** A number below the normalized ones. */
  lemma SmallPacked(f: Format, w: real)
    requires Good(f) && 0.0 <= w < Exp2(1 - Bias(f))
    ensures var m := Mul(Mul(w, Exp2(Bias(f) - 1)), Exp2(f.mLen)); Truncates(f, w, 0, m)
  {
    var b := Bias(f);
    var a := Mul(w, Exp2(b - 1));
    var m := Mul(a, Exp2(f.mLen));
    hide Exp2;
    MulLess(0.0, w, Exp2(b - 1));
    MulLess(w, Exp2(1 - b), Exp2(b - 1));
    MulRules(Exp2(b - 1), 0.0, 0.0);
    Exp2Inverse(1 - b);
    assert 0.0 <= a < 1.0;
    MulLess(0.0, a, Exp2(f.mLen));
    MulLess(a, 1.0, Exp2(f.mLen));
    MulRules(Exp2(f.mLen), 0.0, 0.0);
    Exp2Nat(f.mLen);
    SmallUnits(f, w);
    UnitsDown(w, m, 1 - b - f.mLen);
    hide Mul;
    assert Value(f, Fields(false, 0, m.Floor)) == Mul(m.Floor as real, Exp2(1 - b - f.mLen));
  }

  lemma SmallUnits(f: Format, w: real)
    requires Good(f)
    ensures Mul(Mul(Mul(w, Exp2(Bias(f) - 1)), Exp2(f.mLen)), Exp2(1 - Bias(f) - f.mLen)) == w
  {
    hide Exp2;
    hide Mul;
    var b := Bias(f);
    MulRules(Mul(w, Exp2(b - 1)), Exp2(f.mLen), Exp2(1 - b - f.mLen));
    Exp2Plus(f.mLen, 1 - b - f.mLen);
    MulRules(w, Exp2(b - 1), Exp2(1 - b));
    Exp2Plus(b - 1, 1 - b);
    ExpZero();
    MulRules(w, 1.0, 0.0);
  }

  // --------------------------------------------------------------- the encoder

  /** An estimate that is not too low ends at the logarithm. */
  lemma LoweredExactly(v: real, e: int, estimate: int)
    requires IsLog2(v, e) && e <= estimate <= e + 1
    ensures Lowered(v, estimate) == Scale(e, Exp2(-e))
  {
    LoweredIs(v, e, estimate);
    assert Exp2(0) == 1.0;
    hide Exp2;
    hide Mul;
    ScaledIn(v, e, estimate);
  }

  lemma RoundedExactly(f: Format, v: real, e: int)
    requires Good(f)
    ensures Rounded(f, v, Scale(e, Exp2(-e))) == v + Added(f, e)
  {
    var c := Exp2(-e);
    hide Exp2;
    Exp2Inverse(e);
    Quotient(f.rt, Exp2(e), c);
  }

  lemma Quotient(a: real, p: real, c: real)
    requires c > 0.0 && Mul(p, c) == 1.0
    ensures a / c == Mul(a, p)
  {
    assert a * (p * c) == a;
    assert a * p * c == a;
  }

  /** The logarithm of what is truncated, and the scale at which that happens. */
  lemma RaisedExactly(f: Format, v: real, e: int) returns (k: int)
    requires Good(f) && IsLog2(v, e)
    ensures var w := v + Added(f, e);
            && w >= v && (e + Bias(f) >= 1 ==> IsLog2(w, k) && Raised(w, Scale(e, Exp2(-e))) == Scale(k, Exp2(-k)))
            && (e + Bias(f) < 1 ==> w < Exp2(1 - Bias(f)) || (k == 1 - Bias(f) && IsLog2(w, k) && e + 1 == k))
            && e <= k <= e + 1
  {
    var b: int := Bias(f);
    var w := v + Added(f, e);
    AddedBounds(f, e);
    Exp2Next(e);
    Exp2Next(e + 1);
    if w >= Exp2(e + 1) {
      k := e + 1;
    } else {
      k := e;
    }
    hide Exp2;
    if e + b >= 1 {
      assert IsLog2(w, k);
      RaisedIs(w, k, Scale(e, Exp2(-e)));
    } else if e + 1 < 1 - b {
      Exp2Grows(e + 1, -b);
      Exp2Next(-b);
      k := e;
    }
    hide Added;
  }

  lemma AddedBounds(f: Format, e: int)
    requires Good(f)
    ensures 0.0 <= Added(f, e) < Exp2(if e + Bias(f) >= 1 then e else 0 - Bias(f) as int)
  {
    var g := if e + Bias(f) >= 1 then e else 1 - Bias(f);
    Exp2Grows(-1 - f.mLen, -2);
    assert Exp2(-2) == 0.25;
    hide Exp2;
    MulLess(0.0, f.rt, Exp2(g));
    MulLess(f.rt, 0.5, Exp2(g));
    MulRules(Exp2(g), 0.0, 0.0);
    MulRules(0.5, Exp2(g), 0.0);
    Exp2Next(g - 1);
    HalfIs(Exp2(g - 1));
  }

  lemma HalfIs(p: real)
    ensures Mul(0.5, 2.0 * p) == p
  {
  }

  /** Starting from an estimate that is not too low, what is encoded is the greatest number of the format not
      above `v` and what is added, or infinity when that is beyond all of them. */
  lemma SplitRounds(f: Format, v: real, e: int, estimate: int)
    requires Good(f) && IsLog2(v, e) && e <= estimate <= e + 1
    ensures var (exponent, m) := Split(f, v, estimate);
            var w := v + Added(f, e);
            if w >= Exp2(EMax(f) - Bias(f)) then exponent == EMax(f) && m == 0.0 else Truncates(f, w, exponent, m)
  {
    assert v > 0.0 && Abs(v) == v;
    LoweredExactly(v, e, estimate);
    RoundedExactly(f, v, e);
    var k := RaisedExactly(f, v, e);
    hide Lowered;
    hide Rounded;
    if e + Bias(f) >= 1 {
      NormalRounds(f, v + Added(f, e), k, Scale(e, Exp2(-e)));
    } else if v + Added(f, e) < Exp2(1 - Bias(f)) {
      SmallRounds(f, v + Added(f, e), e);
    } else {
      RaisedIs(v + Added(f, e), k, Scale(e, Exp2(-e)));
      NormalRounds(f, v + Added(f, e), k, Scale(e, Exp2(-e)));
    }
  }

  lemma NormalRounds(f: Format, w: real, k: int, s: Scale)
    requires Good(f) && IsLog2(w, k) && k + Bias(f) >= 1 && Raised(w, s) == Scale(k, Exp2(-k))
    ensures var (exponent, m) := Packed(f, w, Raised(w, s));
            if w >= Exp2(EMax(f) - Bias(f)) then exponent == EMax(f) && m == 0.0 else Truncates(f, w, exponent, m)
  {
    hide Exp2;
    hide Truncates;
    hide Raised;
    if k + Bias(f) >= EMax(f) {
      Exp2Grows(EMax(f) - Bias(f), k);
    } else {
      Exp2Grows(k + 1, EMax(f) - Bias(f));
      NormalPacked(f, w, k);
    }
  }

  lemma SmallRounds(f: Format, w: real, e: int)
    requires Good(f) && e + Bias(f) < 1 && 0.0 <= w < Exp2(1 - Bias(f))
    ensures var (exponent, m) := Packed(f, w, Raised(w, Scale(e, Exp2(-e))));
            w < Exp2(EMax(f) - Bias(f)) && Truncates(f, w, exponent, m)
  {
    assert Exp2(1) == 2.0;
    hide Exp2;
    hide Truncates;
    Exp2Grows(1 - Bias(f), EMax(f) - Bias(f));
    SmallPacked(f, w);
    if e + 1 + Bias(f) >= 1 {
      MulLess(w, Exp2(e + 1), Exp2(-e));
      Exp2Plus(e + 1, -e);
    }
    hide Mul;
  }

  /** The same for the bytes: those of the sign and of the fields that come out. */
  lemma EncodeRounds(f: Format, big: bool, v: real, e: int, estimate: int) returns (x: Fields)
    requires Good(f) && f.len > 0 && v != 0.0 && IsLog2(Abs(v), e) && e <= estimate <= e + 1
    requires Estimated(About(estimate), Finite(v))
    ensures Encodable(f, x) && x.negative == (v < 0.0)
    ensures var w := Abs(v) + Added(f, e);
            if w >= Exp2(EMax(f) - Bias(f)) then x.e == EMax(f) && x.m == 0
            else x.e < EMax(f) && Value(f, x.(negative := false)) <= w < Value(f, x.(negative := false)) + Exp2(UnitAt(f, x.e))
    ensures Encode754(f, big, Finite(v), About(estimate)) == InOrder(big, BigEndianBytes(
              Times(x.e, Pow2(f.mLen)) + x.m + if x.negative then Times(128, Pow256(f.len - 1)) else 0, f.len))
  {
    SplitRounds(f, Abs(v), e, estimate);
    SplitOfAbs(f, v, estimate);
    var (exponent, m) := Split(f, v, estimate);
    hide Split;
    hide Exp2;
    x := Fields(v < 0.0, exponent, m.Floor);
    FieldsLaidOut(f, big, Finite(v), About(estimate), x);
  }

  lemma SplitOfAbs(f: Format, v: real, estimate: int)
    requires Good(f)
    ensures Split(f, v, estimate) == Split(f, Abs(v), estimate) == SplitAny(f, Finite(v), About(estimate))
  {
    assert Abs(Abs(v)) == Abs(v);
  }

  /** Doubles are truncated; to a single, half a unit of its last place is added, but for one part in 2^53. */
  lemma AddedIs(e: int)
    ensures Added(Double(), e) == 0.0
    ensures Added(Single(), e) == Mul(Exp2(-24) - Exp2(-77), Exp2(if e >= -126 then e else -126))
  {
    Widths();
    hide Exp2;
    hide Pow2;
    hide EMax;
    hide Bias;
    MulRules(Exp2(if e >= -1022 then e else -1022), 0.0, 0.0);
    hide Mul;
  }
}
