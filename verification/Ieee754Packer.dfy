/** The floating point encoder and decoder as loops over a byte array. The loops keep what has been
    written so far as a suffix of the encoding, in the slots of the byte order, and change nothing
    outside the number's own bytes. Arithmetic on real numbers stands for arithmetic on doubles. */
module Ieee754Packer {
  import opened Buffers
  import opened Numbers
  import opened BufferPack
  import opened BufferPacker
  import opened Ieee754
  import opened Ieee754Bytes

  class Packer754 {
    const f: Format
    var bBE: bool

    constructor (f: Format, big: bool)
      ensures this.f == f && bBE == big
    {
      this.f, bBE := f, big;
    }

    /** The arithmetic of `_En754`. */
    method Scaled(n: Float, log: Log2) returns (e: nat, m: real)
      requires Good(f)
      ensures (e, m) == SplitAny(f, n, log)
    {
      if n.NaN? || n.Infinite? { return EMax(f), if n.NaN? then 1.0 else 0.0; }
      var v := if n.v < 0.0 then -n.v else n.v;
      if log.MinusInfinity? {
        v := v + Mul(f.rt, Exp2(1 - Bias(f)));
        return 0, Mul(Mul(v, Exp2(Bias(f) - 1)), Exp2(f.mLen));
      }
      e, m := ScaledNumber(v, log.e);
    }

    method ScaledNumber(v: real, estimate: int) returns (e: nat, m: real)
      requires Good(f) && v >= 0.0
      ensures (e, m) == Split(f, v, estimate)
    {
      hide Exp2;
      hide Mul;
      var w, power := v, estimate;
      var c := Exp2(-power);
      if Mul(w, c) < 1.0 {
        power, c := power - 1, 2.0 * c;
      }
      if power + Bias(f) >= 1 {
        w := w + f.rt / c;
      } else {
        w := w + Mul(f.rt, Exp2(1 - Bias(f)));
      }
      if Mul(w, c) >= 2.0 {
        power, c := power + 1, c / 2.0;
      }
      if power + Bias(f) >= EMax(f) {
        e, m := EMax(f), 0.0;
      } else if power + Bias(f) >= 1 {
        e, m := power + Bias(f), Mul(Mul(w, c) - 1.0, Exp2(f.mLen));
      } else {
        e, m := 0, Mul(Mul(w, Exp2(Bias(f) - 1)), Exp2(f.mLen));
      }
    }

    /** `_En754` */
    method Encode(a: array<byte>, p: nat, n: Float, log: Log2)
      requires Good(f) && p + f.len <= a.Length && Estimated(log, n)
      modifies a
      ensures a[..] == Put(old(a[..]), p, Encode754(f, bBE, n, log))
    {
      var e, m := Scaled(n, log);
      SplitBounds(f, n, log);
      WriteBytes(a, p, Negative(n), e, m);
    }

    /** The loops of `_En754`, from the least significant byte on, and then the sign. */
    method WriteBytes(a: array<byte>, p: nat, negative: bool, exponent: nat, fraction: real)
      requires Good(f) && p + f.len <= a.Length && fraction >= 0.0
      modifies a
      ensures a[..] == Put(old(a[..]), p, InOrder(bBE, Pack754(f, negative, exponent, fraction)))
    {
      hide *;
      ghost var was := a[..];
      ghost var top, low := TopBytes(f, exponent, fraction), MantissaBytes(fraction, f.mLen);
      ghost var all := top + low;
      UnsignedLength(f, exponent, fraction);
      TopBegins(f, exponent, fraction);
      var m := WriteFraction(a, p, fraction, all);
      ghost var half := a[..];
      WriteExponent(a, p, (HighPart(f, exponent) + m.Floor) as real, top, all);
      ghost var unsigned := a[..];
      SameThen(was, half, unsigned, p, f.len);
      SignedSlots(f, negative, exponent, fraction, all);
      SignPut(was, unsigned, p, bBE, all, Pack754(f, negative, exponent, fraction), negative);
      var last := p + if bBE then 0 else f.len - 1;
      a[last] := WithSign(a[last], negative);
      assert a[..] == unsigned[last := WithSign(unsigned[last], negative)];
    }

    /** The first loop writes the whole bytes of the fraction. */
    method WriteFraction(a: array<byte>, p: nat, fraction: real, ghost all: seq<byte>) returns (m: real)
      requires Good(f) && p + f.len <= a.Length && fraction >= 0.0 && |all| == f.len
      requires var low := MantissaBytes(fraction, f.mLen);
               |low| == f.mLen / 8 <= f.len && all[f.len - |low|..] == low
      modifies a
      ensures m >= 0.0 && m == MantissaRest(fraction, f.mLen)
      ensures SameOutside(old(a[..]), a[..], p, f.len) && LastPut(a[..], p, bBE, all, f.mLen / 8)
    {
      hide *;
      ghost var was, low := a[..], MantissaBytes(fraction, f.mLen);
      m := fraction;
      var mLen := f.mLen;
      var i := if bBE then f.len - 1 else 0;
      var d := if bBE then -1 else 1;
      ghost var k := 0;
      NothingPut(was, p, f.len, bBE, all);
      assert low[..|low|] == low;
      while mLen >= 8
        invariant m >= 0.0 && mLen == f.mLen - 8 * k && 0 <= k <= f.mLen / 8 && i == (if bBE then f.len - 1 - k else k)
        invariant MantissaBytes(m, mLen) == low[..|low| - k] && MantissaRest(m, mLen) == MantissaRest(fraction, f.mLen)
        invariant SameOutside(was, a[..], p, f.len) && LastPut(a[..], p, bBE, all, k)
      {
        MantissaStep(m, mLen, low, |low| - k);
        assert all[|all| - 1 - k] == all[f.len - |low|..][|low| - 1 - k];
        PutOne(was, a[..], p, f.len, bBE, all, k, i);
        a[p + i] := LowByte(m.Floor);
        m, mLen, i, k := m / 256.0, mLen - 8, i + d, k + 1;
      }
      MantissaEnds(m, mLen);
    }

    /** The second loop writes the exponent and the bits of the fraction that are left. */
    method WriteExponent(a: array<byte>, p: nat, value: real, ghost top: seq<byte>, ghost all: seq<byte>)
      requires Good(f) && p + f.len <= a.Length && value >= 0.0 && |all| == f.len
      requires top == ExponentBytes(value, f.len * 8 - f.mLen - 1 + f.mLen % 8)
      requires |top| == f.len - f.mLen / 8 && all[..|top|] == top && LastPut(a[..], p, bBE, all, f.mLen / 8)
      modifies a
      ensures SameOutside(old(a[..]), a[..], p, f.len) && LastPut(a[..], p, bBE, all, f.len)
    {
      hide *;
      ghost var was := a[..];
      var e, eLen := value, f.len * 8 - f.mLen - 1 + f.mLen % 8;
      var i := if bBE then f.len - 1 - f.mLen / 8 else f.mLen / 8;
      var d := if bBE then -1 else 1;
      ghost var k := f.mLen / 8;
      NothingPut(was, p, f.len, bBE, all);
      assert top[..|top|] == top;
      while eLen > 0
        invariant e >= 0.0 && eLen == f.len * 8 - 1 - 8 * k && f.mLen / 8 <= k <= f.len && i == (if bBE then f.len - 1 - k else k)
        invariant ExponentBytes(e, eLen) == top[..f.len - k]
        invariant SameOutside(was, a[..], p, f.len) && LastPut(a[..], p, bBE, all, k)
        decreases eLen
      {
        ExponentStep(e, eLen, top, f.len - k);
        assert all[f.len - 1 - k] == all[..|top|][f.len - 1 - k];
        PutOne(was, a[..], p, f.len, bBE, all, k, i);
        a[p + i] := LowByte(e.Floor);
        e, eLen, i, k := e / 256.0, eLen - 8, i + d, k + 1;
      }
    }
    /** `_De754` */
    method Decode(a: array<byte>, p: nat) returns (n: Float)
      requires Good(f) && p + f.len <= a.Length
      ensures n == Decode754(f, bBE, a[..][p..p + f.len])
    {
      var s, e, m := ReadFields(a, p);
      if e == EMax(f) { return if m != 0 then NaN else Infinite(s); }
      n := Finite(Value(f, Fields(s, e, m)));
    }

    /** The loops of `_De754`, from the most significant byte on. */
    method ReadFields(a: array<byte>, p: nat) returns (negative: bool, e: nat, m: nat)
      requires Good(f) && p + f.len <= a.Length
      ensures Fields(negative, e, m) == DecodeFields(f, InOrder(bBE, a[..][p..p + f.len]))
    {
      hide Exp2;
      hide InOrder;
      hide Take;
      hide Pow2;
      ghost var bytes := a[..][p..p + f.len];
      ghost var r := InOrder(bBE, bytes);
      var i := if bBE then 0 else f.len - 1;
      var d := if bBE then 1 else -1;
      InOrderAt(bBE, bytes, 0);
      var s := a[p + i];
      i := i + d;
      negative := s >= 128;
      var x: nat := (s % 128) as nat;
      var nBits := ExponentBits(f) - 7;
      ghost var k, j := 1, MoreExponent(f);
      TakeNone(x, r[1..]);
      while nBits > 0
        invariant 1 <= k <= 1 + j && nBits == ExponentBits(f) - 7 - 8 * (k - 1) && i == (if bBE then k else f.len - 1 - k)
        invariant Take((s % 128) as nat, j, r[1..]) == Take(x, 1 + j - k, r[k..])
        decreases nBits
      {
        InOrderAt(bBE, bytes, k);
        TakeStep(x, 1 + j - k, r, k);
        x := x * 256 + a[p + i] as nat;
        i, nBits, k := i + d, nBits - 8, k + 1;
      }
      assert k == 1 + j;
      TakeNone(x, r[k..]);
      var unit := Pow2(-nBits);
      e, m := Quotient(x, unit), Modulo(x, unit);
      ghost var low := m;
      nBits := nBits + f.mLen;
      while nBits > 0
        invariant 1 + j <= k <= f.len && nBits == 8 * (f.len - k) && i == (if bBE then k else f.len - 1 - k)
        invariant Take(low, f.len - 1 - j, r[1 + j..]) == Take(m, f.len - k, r[k..])
        decreases nBits
      {
        InOrderAt(bBE, bytes, k);
        TakeStep(m, f.len - k, r, k);
        m := m * 256 + a[p + i] as nat;
        i, nBits, k := i + d, nBits - 8, k + 1;
      }
      TakeNone(m, r[k..]);
    }
  }

  lemma InOrderAt(big: bool, s: seq<byte>, k: nat)
    requires k < |s|
    ensures InOrder(big, s)[k] == s[if big then k else |s| - 1 - k]
  {
  }

  lemma TakeNone(x: nat, s: seq<byte>)
    ensures Take(x, 0, s) == x
  {
  }

  lemma TakeStep(x: nat, n: nat, r: seq<byte>, k: nat)
    requires k < |r| && 0 < n <= |r| - k
    ensures Take(x, n, r[k..]) == Take(x * 256 + r[k] as nat, n - 1, r[k + 1..])
  {
    assert r[k..][1..] == r[k + 1..];
  }

  lemma SameThen(a: seq<byte>, b: seq<byte>, c: seq<byte>, p: nat, n: nat)
    requires SameOutside(a, b, p, n) && SameOutside(b, c, p, n)
    ensures SameOutside(a, c, p, n)
  {
  }

  lemma SignPut(was: seq<byte>, a: seq<byte>, p: nat, big: bool, all: seq<byte>, signed: seq<byte>, negative: bool)
    requires all != [] && |signed| == |all| && p + |all| <= |a| && SameOutside(was, a, p, |all|) && LastPut(a, p, big, all, |all|)
    requires signed[0] == WithSign(all[0], negative) && forall j :: 0 < j < |signed| ==> signed[j] == all[j]
    ensures var last := p + if big then 0 else |all| - 1;
            a[last := WithSign(a[last], negative)] == Put(was, p, InOrder(big, signed))
  {
    var last := p + if big then 0 else |all| - 1;
    assert last == p + Slot(big, |all|, |all| - 1);
    var now := a[last := WithSign(a[last], negative)];
    forall k | 0 <= k < |signed| ensures now[p + Slot(big, |signed|, k)] == signed[|signed| - 1 - k] {
      assert a[p + Slot(big, |all|, k)] == all[|all| - 1 - k];
    }
    SlotsFilled(was, now, p, big, signed);
  }

  lemma MantissaStep(m: real, mLen: nat, low: seq<byte>, n: nat)
    requires m >= 0.0 && mLen >= 8 && n <= |low| && MantissaBytes(m, mLen) == low[..n]
    ensures n > 0 && LowByte(m.Floor) == low[n - 1] && MantissaBytes(m / 256.0, mLen - 8) == low[..n - 1]
    ensures MantissaRest(m / 256.0, mLen - 8) == MantissaRest(m, mLen)
  {
    var front := MantissaBytes(m / 256.0, mLen - 8);
    assert (front + [LowByte(m.Floor)])[..|front|] == front;
    assert low[..n][..n - 1] == low[..n - 1] && low[..n][n - 1] == low[n - 1];
  }

  lemma MantissaEnds(m: real, mLen: nat)
    requires m >= 0.0 && mLen < 8
    ensures MantissaBytes(m, mLen) == [] && MantissaRest(m, mLen) == m
  {
  }

  lemma TopBegins(f: Format, e: nat, m: real)
    requires Good(f) && m >= 0.0
    ensures var rest := MantissaRest(m, f.mLen).Floor;
            TopBytes(f, e, m) == ExponentBytes((HighPart(f, e) + rest) as real, f.len * 8 - f.mLen - 1 + f.mLen % 8)
  {
  }

  lemma ExponentStep(e: real, bits: int, top: seq<byte>, n: nat)
    requires e >= 0.0 && bits > 0 && n <= |top| && ExponentBytes(e, bits) == top[..n]
    ensures n > 0 && LowByte(e.Floor) == top[n - 1] && ExponentBytes(e / 256.0, bits - 8) == top[..n - 1]
  {
    var front := ExponentBytes(e / 256.0, bits - 8);
    assert (front + [LowByte(e.Floor)])[..|front|] == front;
    assert top[..n][..n - 1] == top[..n - 1] && top[..n][n - 1] == top[n - 1];
  }

  lemma SignedSlots(f: Format, negative: bool, e: nat, m: real, all: seq<byte>)
    requires Good(f) && m >= 0.0 && all == TopBytes(f, e, m) + MantissaBytes(m, f.mLen)
    ensures var s := Pack754(f, negative, e, m);
            all != [] && |s| == |all| && s[0] == WithSign(all[0], negative) && forall j :: 0 < j < |s| ==> s[j] == all[j]
  {
    TopSplits(f, negative, e, m);
  }
}
