/** SHA-1 said once more, from bits and numerals: the message schedule as parities, the five registers as
    five terms of one sequence of sums modulo 2 to the 32 (sections 4.1.1, 4.2.1, 5.3.1 and 6.1.2 of FIPS
    180-4). */
module Sha1Recurrence {
  import opened Basics
  import opened Buffers
  import opened Numbers
  import opened Bits
  import opened HashPadding
  import opened Sha1
  import opened HashWords

  // ------------------------------------------------------------- functions, constants

  /** The round functions bit by bit: one chosen by another, parity, majority, parity. */
  lemma RoundBits(t: nat, x: Word, y: Word, z: Word, k: nat)
    requires k < 32
    ensures var p, q, r := BitAt(x, k), BitAt(y, k), BitAt(z, k);
            BitAt(F(t, x, y, z), k) ==
              if t < 20 then (if p == 1 then q else r)
              else if 40 <= t < 60 then (if p + q + r >= 2 then 1 else 0)
              else (p + q + r) % 2
  {
    hide XorBits;
    hide AndBits;
    hide NotBits;
    hide BitAt;
    BitIsBit(x, k);
    BitIsBit(y, k);
    BitIsBit(z, k);
    if t < 20 {
      AndBitAt(x, y, 32, k);
      NotBitAt(x, 32, k);
      AndBitAt(Not32(x), z, 32, k);
      XorBitAt(And32(x, y), And32(Not32(x), z), 32, k);
      BitIsBit(And32(x, y), k);
      BitIsBit(And32(Not32(x), z), k);
    } else if 40 <= t < 60 {
      AndBitAt(x, y, 32, k);
      AndBitAt(x, z, 32, k);
      AndBitAt(y, z, 32, k);
      XorBitAt(And32(x, y), And32(x, z), 32, k);
      XorBitAt(Xor32(And32(x, y), And32(x, z)), And32(y, z), 32, k);
      BitIsBit(And32(x, y), k);
      BitIsBit(And32(x, z), k);
      BitIsBit(And32(y, z), k);
    } else {
      XorBitAt(x, y, 32, k);
      XorBitAt(Xor32(x, y), z, 32, k);
    }
  }

  lemma BitIsBit(n: nat, k: nat)
    ensures BitAt(n, k) == 0 || BitAt(n, k) == 1
  {
  }

  /** The constants are the first bits of the square roots of 2, 3, 5 and 10. */
  lemma ConstantsAreRoots(t: nat)
    ensures var n := if t < 20 then 2 else if t < 40 then 3 else if t < 60 then 5 else 10;
            K(t) * K(t) <= n * 0x1000_0000_0000_0000 < (K(t) + 1) * (K(t) + 1)
  {
  }

  /** The first hash value counts up and down in half bytes, the least significant byte first. */
  lemma InitialBytes()
    ensures var s := [0x01, 0x23, 0x45, 0x67, 0x89, 0xAB, 0xCD, 0xEF, 0xFE, 0xDC, 0xBA, 0x98, 0x76, 0x54, 0x32, 0x10,
                      0xF0, 0xE1, 0xD2, 0xC3];
            Initial() == State(WordAt(false, s, 0), WordAt(false, s, 1), WordAt(false, s, 2), WordAt(false, s, 3), WordAt(false, s, 4))
  {
  }

  // ------------------------------------------------------------------------ rotations

  /** Rotated by one bit. */
  function Up1(w: Word): Word {
    w % 0x8000_0000 * 2 + w / 0x8000_0000
  }

  /** Rotated by five bits. */
  function Up5(w: Word): Word {
    w % 0x800_0000 * 32 + w / 0x800_0000
  }

  /** Rotated by thirty bits. */
  function Up30(w: Word): Word {
    w % 4 * 0x4000_0000 + w / 4
  }

  /** Rotated back by thirty bits. */
  function Down30(w: Word): Word {
    w % 0x4000_0000 * 4 + w / 0x4000_0000
  }

  lemma Rotations(w: Word)
    ensures Rol(w, 1) == Up1(w) && Rol(w, 5) == Up5(w) && Rol(w, 30) == Up30(w)
  {
    RolIs(w, 1);
    RolIs(w, 5);
    RolIs(w, 30);
    hide Rol;
    assert Pow2(1) == 2 && Pow2(2) == 4 && Pow2(5) == 32;
    PowersOfRotations();
  }

  lemma PowersOfRotations()
    ensures Pow2(31) == 0x8000_0000 && Pow2(27) == 0x800_0000 && Pow2(30) == 0x4000_0000
  {
    Pow2Plus(8, 8);
    Pow2Plus(16, 8);
    Pow2Plus(24, 3);
    Pow2Plus(27, 3);
    assert Pow2(3) == 8 && Pow2(8) == 256;
    assert Pow2(31) == 2 * Pow2(30);
  }

  lemma UpDown(w: Word)
    ensures Up30(Down30(w)) == w
  {
  }

  lemma HalfRest(n: nat, p: nat)
    requires p > 0
    ensures n % (2 * p) / 2 == n / 2 % p && n % (2 * p) % 2 == n % 2
  {
    var q, r := n / 2 / p, n / 2 % p;
    assert n == q * (2 * p) + (2 * r + n % 2) by {
      assert n / 2 == q * p + r;
      assert q * (2 * p) == 2 * (q * p);
    }
    DivModIs(n, 2 * p, q, 2 * r + n % 2);
  }

  lemma {:induction false} LowBitAt(n: nat, bits: nat, k: nat)
    requires k < bits
    ensures BitAt(n % Pow2(bits), k) == BitAt(n, k)
    decreases k
  {
    HalfRest(n, Pow2(bits - 1));
    if k > 0 {
      LowBitAt(n / 2, bits - 1, k - 1);
      HalfBit(n, k);
      HalfBit(n % Pow2(bits), k);
    }
  }

  /** A rotation by one moves every bit up, and the highest to the lowest place. */
  lemma UpBits(w: Word, k: nat)
    requires k < 32
    ensures BitAt(Up1(w), (k + 1) % 32) == BitAt(w, k)
  {
    PowersOfRotations();
    var low, top := w % 0x8000_0000, w / 0x8000_0000;
    assert Up1(w) == 2 * low + top && top < 2;
    assert Up1(w) / 2 == low && Up1(w) % 2 == top;
    if k < 31 {
      LowBitAt(w, 31, k);
      HalfBit(Up1(w), k + 1);
    } else {
      assert BitAt(w, 31) == top % 2;
      assert BitAt(Up1(w), 0) == Up1(w) % 2;
    }
    hide Up1;
  }

  /** Words with the same bits are the same. */
  lemma {:induction false} SameBits(a: nat, b: nat, bits: nat)
    requires a < Pow2(bits) && b < Pow2(bits)
    requires forall k :: 0 <= k < bits ==> BitAt(a, k) == BitAt(b, k)
    ensures a == b
    decreases bits
  {
    if bits > 0 {
      forall k | 0 <= k < bits - 1 ensures BitAt(a / 2, k) == BitAt(b / 2, k) {
        HalfBit(a, k + 1);
        HalfBit(b, k + 1);
        assert BitAt(a, k + 1) == BitAt(b, k + 1);
      }
      SameBits(a / 2, b / 2, bits - 1);
      assert BitAt(a, 0) == BitAt(b, 0) && BitAt(a, 0) == a % 2 && BitAt(b, 0) == b % 2;
    }
  }

  // --------------------------------------------------------------------- the schedule

  /** Sixteen words of the block; every bit of a later word is the parity of the bits one place lower in four
      words before it. */
  ghost predicate Expands(block: seq<Word>, w: seq<Word>) {
    && |block| == 16 && |w| == 80 && w[..16] == block
    && forall t, k :: 16 <= t < 80 && 0 <= k < 32 ==> ParityAt(w, t, k)
  }

  ghost predicate ParityAt(w: seq<Word>, t: nat, k: nat)
    requires 16 <= t < |w|
  {
    BitAt(w[t], (k + 1) % 32) == (BitAt(w[t - 3], k) + BitAt(w[t - 8], k) + BitAt(w[t - 14], k) + BitAt(w[t - 16], k)) % 2
  }

  lemma XorWord(a: Word, b: Word, k: nat)
    requires k < 32
    ensures BitAt(Xor32(a, b), k) == (BitAt(a, k) + BitAt(b, k)) % 2
  {
    XorBitAt(a, b, 32, k);
    BitIsBit(a, k);
    BitIsBit(b, k);
    hide XorBits;
    hide BitAt;
  }

  lemma FourParity(a: nat, b: nat, c: nat, d: nat)
    ensures (((a + b) % 2 + c) % 2 + d) % 2 == (a + b + c + d) % 2
  {
  }

  lemma ParityBits(a: Word, b: Word, c: Word, d: Word, k: nat)
    requires k < 32
    ensures BitAt(Rol(Xor32(Xor32(Xor32(a, b), c), d), 1), (k + 1) % 32) == (BitAt(a, k) + BitAt(b, k) + BitAt(c, k) + BitAt(d, k)) % 2
  {
    hide *;
    var ab := Xor32(a, b);
    var abc := Xor32(ab, c);
    var x := Xor32(abc, d);
    Rotations(x);
    UpBits(x, k);
    XorWord(a, b, k);
    XorWord(ab, c, k);
    XorWord(abc, d, k);
    FourParity(BitAt(a, k), BitAt(b, k), BitAt(c, k), BitAt(d, k));
  }

  /** There is one such expansion, and it is the schedule. */
  lemma ExpandsIff(block: seq<Word>, w: seq<Word>)
    requires |block| == 16 && |w| == 80
    ensures Expands(block, w) <==> forall t :: 0 <= t < 80 ==> w[t] == Schedule(block, t)
  {
    hide ParityAt;
    if forall t :: 0 <= t < 80 ==> w[t] == Schedule(block, t) {
      forall t, k | 16 <= t < 80 && 0 <= k < 32 ensures ParityAt(w, t, k) {
        ScheduleParity(block, w, t, k);
      }
      assert forall t :: 0 <= t < 16 ==> w[..16][t] == block[t];
    }
    if Expands(block, w) {
      forall t | 0 <= t < 80 ensures w[t] == Schedule(block, t) {
        Expanded(block, w, t);
      }
    }
  }

  lemma ScheduleParity(block: seq<Word>, w: seq<Word>, t: nat, k: nat)
    requires |block| == 16 && 16 <= t < |w| && k < 32 && forall j :: 0 <= j <= t ==> w[j] == Schedule(block, j)
    ensures ParityAt(w, t, k)
  {
    hide Rol;
    hide Xor32;
    hide BitAt;
    ScheduleIs(block, t);
    hide Schedule;
    var a, b, c, d := w[t - 3], w[t - 8], w[t - 14], w[t - 16];
    ParityBits(a, b, c, d, k);
  }

  lemma ScheduleIs(block: seq<Word>, t: nat)
    requires |block| == 16 && t >= 16
    ensures Schedule(block, t) ==
            Rol(Xor32(Xor32(Xor32(Schedule(block, t - 3), Schedule(block, t - 8)), Schedule(block, t - 14)), Schedule(block, t - 16)), 1)
  {
    hide Rol;
    hide Xor32;
  }

  lemma {:induction false} Expanded(block: seq<Word>, w: seq<Word>, t: nat)
    requires Expands(block, w) && t < 80
    ensures w[t] == Schedule(block, t)
  {
    if t < 16 {
      assert w[..16][t] == w[t];
    } else {
      Expanded(block, w, t - 3);
      Expanded(block, w, t - 8);
      Expanded(block, w, t - 14);
      Expanded(block, w, t - 16);
      var v := Rol(Xor32(Xor32(Xor32(w[t - 3], w[t - 8]), w[t - 14]), w[t - 16]), 1);
      ScheduleIs(block, t);
      ExpandedWord(block, w, t, v);
    }
  }

  lemma ExpandedWord(block: seq<Word>, w: seq<Word>, t: nat, v: Word)
    requires Expands(block, w) && 16 <= t < 80 && v == Rol(Xor32(Xor32(Xor32(w[t - 3], w[t - 8]), w[t - 14]), w[t - 16]), 1)
    ensures w[t] == v
  {
    hide Rol;
    hide Xor32;
    hide BitAt;
    hide Pow2;
    forall k: nat | k < 32 ensures BitAt(w[t], k) == BitAt(v, k) {
      var j: nat := if k == 0 then 31 else k - 1;
      assert ParityAt(w, t, j);
      ParityBits(w[t - 3], w[t - 8], w[t - 14], w[t - 16], j);
    }
    Bits32();
    SameBits(w[t], v, 32);
  }

  // -------------------------------------------------------------------- the registers

  /** A sequence of sums: its first five terms come from the hash value, and each later one from the five
      before it, the word and the constant of the step. */
  ghost predicate Sums(h: State, w: seq<Word>, a: seq<Word>) {
    && |w| == 80 && |a| == 85
    && a[4] == h.a && a[3] == h.b && Up30(a[2]) == h.c && Up30(a[1]) == h.d && Up30(a[0]) == h.e
    && forall t :: 0 <= t < 80 ==> SumAt(w, a, t)
  }

  ghost predicate SumAt(w: seq<Word>, a: seq<Word>, t: nat)
    requires t + 5 < |a| && t < |w|
  {
    a[t + 5] == (Up5(a[t + 4]) + F(t, a[t + 3], Up30(a[t + 2]), Up30(a[t + 1])) + Up30(a[t]) + K(t) + w[t]) % 0x1_0000_0000
  }

  function Registers(a: seq<Word>, t: nat): State
    requires t + 4 < |a|
  {
    State(a[t + 4], a[t + 3], Up30(a[t + 2]), Up30(a[t + 1]), Up30(a[t]))
  }

  lemma FourSums(v: Word, f: Word, e: Word, k: Word, w: Word)
    ensures Add(Add(Add(Add(v, f), e), k), w) == (v + f + e + k + w) % 0x1_0000_0000
  {
    AddReduces(v + f, e);
    AddReduces(v + f + e, k);
    AddReduces(v + f + e + k, w);
  }

  lemma {:induction false} StepsAre(h: State, block: seq<Word>, w: seq<Word>, a: seq<Word>, t: nat)
    requires Expands(block, w) && Sums(h, w, a) && t <= 80
    ensures Steps(h, block, t) == Registers(a, t)
  {
    hide Step;
    hide Up30;
    hide SumAt;
    hide ParityAt;
    hide Schedule;
    if t > 0 {
      StepsAre(h, block, w, a, t - 1);
      assert SumAt(w, a, t - 1);
      OneStep(w, a, t - 1);
      Expanded(block, w, t - 1);
    }
  }

  lemma OneStep(w: seq<Word>, a: seq<Word>, t: nat)
    requires |w| == 80 && |a| == 85 && t < 80 && SumAt(w, a, t)
    ensures Step(Registers(a, t), t, w[t]) == Registers(a, t + 1)
  {
    hide Step;
    hide Up5;
    hide Up30;
    hide F;
    hide K;
    StepIs(a[t + 4], a[t + 3], Up30(a[t + 2]), Up30(a[t + 1]), Up30(a[t]), t, w[t]);
  }

  lemma StepIs(a: Word, b: Word, c: Word, d: Word, e: Word, t: nat, w: Word)
    ensures Step(State(a, b, c, d, e), t, w) ==
            State((Up5(a) + F(t, b, c, d) + e + K(t) + w) % 0x1_0000_0000, a, Up30(b), c, d)
  {
    Rotations(a);
    Rotations(b);
    FourSums(Up5(a), F(t, b, c, d), e, K(t), w);
    hide Rol;
    hide Up5;
    hide Up30;
    hide F;
    hide K;
    hide Add;
  }

  /** The compression of a block adds to the hash value, word by word, where the sums arrive. */
  ghost predicate Compresses(h: State, block: seq<Word>, r: State, w: seq<Word>, a: seq<Word>) {
    && Expands(block, w) && Sums(h, w, a)
    && r == Added(h, State(a[84], a[83], Up30(a[82]), Up30(a[81]), Up30(a[80])))
  }

  function Added(h: State, s: State): State {
    State((h.a + s.a) % 0x1_0000_0000, (h.b + s.b) % 0x1_0000_0000, (h.c + s.c) % 0x1_0000_0000,
          (h.d + s.d) % 0x1_0000_0000, (h.e + s.e) % 0x1_0000_0000)
  }

  /** The first terms of the sequence. */
  function Terms(h: State, w: seq<Word>, t: nat): (a: seq<Word>)
    requires |w| == 80 && t <= 80
    ensures |a| == t + 5
  {
    if t == 0 then [Down30(h.e), Down30(h.d), Down30(h.c), h.b, h.a]
    else
      var a := Terms(h, w, t - 1);
      a + [NextTerm(w[t - 1], a, t - 1)]
  }

  function NextTerm(v: Word, a: seq<Word>, t: nat): Word
    requires |a| == t + 5
  {
    (Up5(a[t + 4]) + F(t, a[t + 3], Up30(a[t + 2]), Up30(a[t + 1])) + Up30(a[t]) + K(t) + v) % 0x1_0000_0000
  }

  lemma {:induction false} TermsAre(h: State, w: seq<Word>, t: nat)
    requires |w| == 80 && t <= 80
    ensures var a := Terms(h, w, t);
            && a[..5] == [Down30(h.e), Down30(h.d), Down30(h.c), h.b, h.a]
            && forall j :: 0 <= j < t ==> SumAt(w, a, j)
  {
    hide Up5;
    hide Up30;
    hide Down30;
    hide F;
    hide K;
    if t > 0 {
      var a, b := Terms(h, w, t - 1), Terms(h, w, t);
      TermsAre(h, w, t - 1);
      assert b[..5] == a[..5];
      forall j | 0 <= j < t ensures SumAt(w, b, j) {
        if j < t - 1 {
          assert SumAt(w, a, j);
        }
      }
    }
  }

  lemma TheSums(h: State, block: seq<Word>) returns (w: seq<Word>, a: seq<Word>)
    requires |block| == 16
    ensures Expands(block, w) && Sums(h, w, a)
  {
    hide Expands;
    hide Schedule;
    hide SumAt;
    hide Terms;
    w := seq(80, t requires 0 <= t < 80 => Schedule(block, t));
    ExpandsIff(block, w);
    a := Terms(h, w, 80);
    TermsAre(h, w, 80);
    UpDown(h.c);
    UpDown(h.d);
    UpDown(h.e);
    hide Up30;
    hide Down30;
    assert a[0] == a[..5][0] && a[1] == a[..5][1] && a[2] == a[..5][2] && a[3] == a[..5][3] && a[4] == a[..5][4];
  }

  lemma CompressIs(h: State, block: seq<Word>, s: State)
    requires |block| == 16 && Steps(h, block, 80) == s
    ensures Compress(h, block) == Added(h, s)
  {
    hide Steps;
  }

  lemma Arrives(h: State, block: seq<Word>, r: State, w: seq<Word>, a: seq<Word>)
    requires |block| == 16 && Expands(block, w) && Sums(h, w, a)
    ensures Compress(h, block) == r <==> Compresses(h, block, r, w, a)
  {
    assert |a| == 85;
    hide Expands;
    hide Sums;
    hide Steps;
    hide Compress;
    hide Up30;
    hide Added;
    StepsAre(h, block, w, a, 80);
    CompressIs(h, block, Registers(a, 80));
  }

  /** A block is compressed to a hash value if and only if the schedule and the sums lead there. */
  lemma CompressIff(h: State, block: seq<Word>, r: State)
    requires |block| == 16
    ensures Compress(h, block) == r <==> exists w, a :: Compresses(h, block, r, w, a)
  {
    hide Compress;
    hide Expands;
    hide Sums;
    hide Up30;
    var w0, a0 := TheSums(h, block);
    Arrives(h, block, r, w0, a0);
    if exists w, a :: Compresses(h, block, r, w, a) {
      var w, a :| Compresses(h, block, r, w, a);
      Arrives(h, block, r, w, a);
    }
  }
}
