/** SHA-1 as the library computes it, against FIPS 180-4: addition by halves against addition modulo 2
    to the 32, round functions with `or` against those with exclusive or, signed constants against the
    words of the standard, and the loops over an array filled on the way against its recurrences. */
module Sha1 {
  import opened Buffers
  import opened Bits
  import opened HashPadding

  // ------------------------------------------------------- the library's words

  /** The word of an integer that the library writes in decimal. */
  function Int32(v: int): Word {
    v % 0x1_0000_0000
  }

  /** `safe_add`: the halves are added separately, the upper ones with the carry. */
  function SafeAdd(x: Word, y: Word): Word {
    var lsw := x % 0x1_0000 + y % 0x1_0000;
    var msw := ShiftDown16(x) + ShiftDown16(y) + lsw / 0x1_0000;
    Or32(ShiftLeft(Int32(msw), 16), lsw % 0x1_0000)
  }

  /** `rol`, which is how section 3.2 defines the rotation. */
  function Rol(num: Word, cnt: nat): Word
    requires cnt < 32
  {
    Or32(ShiftLeft(num, cnt), ShiftRight(num, 32 - cnt))
  }

  /** `sha1_ft` */
  function Ft(t: nat, b: Word, c: Word, d: Word): Word {
    if t < 20 then Or32(And32(b, c), And32(Not32(b), d))
    else if t < 40 then Xor32(Xor32(b, c), d)
    else if t < 60 then Or32(Or32(And32(b, c), And32(b, d)), And32(c, d))
    else Xor32(Xor32(b, c), d)
  }

  /** `sha1_kt` */
  function Kt(t: nat): Word {
    if t < 20 then Int32(1518500249)
    else if t < 40 then Int32(1859775393)
    else if t < 60 then Int32(-1894007588)
    else Int32(-899497514)
  }

  // --------------------------------------------------------------- FIPS 180-4

  /** Addition modulo 2 to the 32 (section 3.2). */
  function Add(x: Word, y: Word): Word {
    (x + y) % 0x1_0000_0000
  }

  /** Section 4.1.1. */
  function F(t: nat, x: Word, y: Word, z: Word): Word {
    if t < 20 then Xor32(And32(x, y), And32(Not32(x), z))
    else if t < 40 then Xor32(Xor32(x, y), z)
    else if t < 60 then Xor32(Xor32(And32(x, y), And32(x, z)), And32(y, z))
    else Xor32(Xor32(x, y), z)
  }

  /** Section 4.2.1. */
  function K(t: nat): Word {
    if t < 20 then 0x5A827999 else if t < 40 then 0x6ED9EBA1 else if t < 60 then 0x8F1BBCDC else 0xCA62C1D6
  }

  datatype State = State(a: Word, b: Word, c: Word, d: Word, e: Word)

  /** Section 5.3.1. */
  function Initial(): State {
    State(0x67452301, 0xEFCDAB89, 0x98BADCFE, 0x10325476, 0xC3D2E1F0)
  }

  /** The message schedule (section 6.1.2, step 1). */
  function Schedule(block: seq<Word>, t: nat): Word
    requires |block| == 16
  {
    if t < 16 then block[t]
    else Rol(Xor32(Xor32(Xor32(Schedule(block, t - 3), Schedule(block, t - 8)), Schedule(block, t - 14)), Schedule(block, t - 16)), 1)
  }

  /** One step (section 6.1.2, step 3). */
  function Step(s: State, t: nat, w: Word): State {
    State(Add(Add(Add(Add(Rol(s.a, 5), F(t, s.b, s.c, s.d)), s.e), K(t)), w), s.a, Rol(s.b, 30), s.c, s.d)
  }

  function Steps(s: State, block: seq<Word>, t: nat): State
    requires |block| == 16
  {
    if t == 0 then s else Step(Steps(s, block, t - 1), t - 1, Schedule(block, t - 1))
  }

  /** A block of the message (section 6.1.2, steps 2 to 4). */
  function Compress(h: State, block: seq<Word>): State
    requires |block| == 16
  {
    var s := Steps(h, block, 80);
    State(Add(h.a, s.a), Add(h.b, s.b), Add(h.c, s.c), Add(h.d, s.d), Add(h.e, s.e))
  }

  /** The hash value after `n` blocks of a padded message. */
  function Hash(x: seq<Word>, n: nat): State
    requires 16 * n <= |x|
  {
    if n == 0 then Initial() else Compress(Hash(x, n - 1), x[16 * n - 16..16 * n])
  }

  /** The digest of a byte string: padded (section 5.1.1) and hashed (section 6.1.2). */
  function Digest(m: seq<byte>): State
    requires 8 * |m| < 0x8000_0000
  {
    Hash(PaddedWords(true, m), Blocks(|m|))
  }

  // --------------------------------------------------------------- agreement

  lemma {:induction false} HighHalf(w: Word)
    ensures ShiftLeft(w, 16) == 0x1_0000 * (w % 0x1_0000)
  {
    DoubledBytes(w);
    hide Doubled;
  }

  /** The lower and the upper half of a sum, as `safe_add` finds them. */
  function LowSum(x: Word, y: Word): (r: nat)
    ensures r < 0x1_0000
  {
    (x % 0x1_0000 + y % 0x1_0000) % 0x1_0000
  }

  function HighSum(x: Word, y: Word): (r: nat)
    ensures r < 0x1_0000
  {
    (ShiftDown16(x) + ShiftDown16(y) + (x % 0x1_0000 + y % 0x1_0000) / 0x1_0000) % 0x1_0000
  }

  /** Adding the halves separately is addition modulo 2 to the 32. */
  lemma SafeAddIs(x: Word, y: Word)
    ensures SafeAdd(x, y) == Add(x, y)
  {
    hide *;
    HalvesJoined(x, y);
    HalvesAdd(x, y);
    OrBytes(HighSum(x, y), LowSum(x, y), 16, 0x1_0000);
  }

  lemma HalvesJoined(x: Word, y: Word)
    ensures SafeAdd(x, y) == Or32(0x1_0000 * HighSum(x, y), LowSum(x, y))
  {
    hide Or32;
    hide ShiftLeft;
    hide Int32;
    hide ShiftDown16;
    var msw := ShiftDown16(x) + ShiftDown16(y) + (x % 0x1_0000 + y % 0x1_0000) / 0x1_0000;
    HighHalf(Int32(msw));
    LowHalf(msw);
  }

  lemma LowHalf(v: int)
    ensures Int32(v) % 0x1_0000 == v % 0x1_0000
  {
  }

  lemma HalvesAdd(x: Word, y: Word)
    ensures 0x1_0000 * HighSum(x, y) + LowSum(x, y) == Add(x, y)
  {
    var xh, yh := x / 0x1_0000, y / 0x1_0000;
    var lsw := x % 0x1_0000 + y % 0x1_0000;
    var sum := xh + yh + lsw / 0x1_0000;
    var k := (if x >= 0x8000_0000 then 1 else 0) + if y >= 0x8000_0000 then 1 else 0;
    SignedHalf(x);
    SignedHalf(y);
    SumWraps(sum, k);
    SumSplits(sum, lsw % 0x1_0000);
    assert x + y == 0x1_0000 * sum + lsw % 0x1_0000;
  }

  lemma SignedHalf(x: Word)
    ensures ShiftDown16(x) == x / 0x1_0000 - if x >= 0x8000_0000 then 0x1_0000 else 0
  {
  }

  lemma SumWraps(sum: nat, k: nat)
    requires k <= 2
    ensures (sum - 0x1_0000 * k) % 0x1_0000 == sum % 0x1_0000
  {
  }

  lemma SumSplits(sum: nat, low: nat)
    requires low < 0x1_0000
    ensures (0x1_0000 * sum + low) % 0x1_0000_0000 == 0x1_0000 * (sum % 0x1_0000) + low
  {
  }

  lemma FtIs(t: nat, b: Word, c: Word, d: Word)
    ensures Ft(t, b, c, d) == F(t, b, c, d)
  {
    hide AndBits;
    hide OrBits;
    hide XorBits;
    hide NotBits;
    ChooseBits(b, c, d, 32);
    MajorityBits(b, c, d, 32);
  }

  lemma KtIs(t: nat)
    ensures Kt(t) == K(t)
  {
  }

  lemma InitialIs()
    ensures Initial() == State(Int32(1732584193), Int32(-271733879), Int32(-1732584194), Int32(271733878), Int32(-1009589776))
  {
  }

  lemma AddAssociates(x: Word, y: Word, z: Word)
    ensures Add(Add(x, y), z) == Add(x, Add(y, z))
  {
  }

  /** The sum of a step, in the library's order and with its own functions. */
  lemma StepSum(r: Word, t: nat, b: Word, c: Word, d: Word, e: Word, w: Word)
    ensures SafeAdd(SafeAdd(r, Ft(t, b, c, d)), SafeAdd(SafeAdd(e, w), Kt(t))) ==
            Add(Add(Add(Add(r, F(t, b, c, d)), e), K(t)), w)
  {
    var f, k := F(t, b, c, d), K(t);
    FtIs(t, b, c, d);
    KtIs(t);
    SafeAddIs(r, f);
    SafeAddIs(e, w);
    SafeAddIs(Add(e, w), k);
    SafeAddIs(Add(r, f), Add(Add(e, w), k));
    hide SafeAdd;
    hide Ft;
    hide Kt;
    hide F;
    hide K;
    AddSwaps(e, w, k);
    AddAssociates(Add(r, f), Add(e, k), w);
    AddAssociates(Add(r, f), e, k);
  }

  lemma AddSwaps(e: Word, w: Word, k: Word)
    ensures Add(Add(e, w), k) == Add(Add(e, k), w)
  {
    AddReduces(e + w, k);
    AddReduces(e + k, w);
  }

  lemma AddReduces(x: nat, y: nat)
    ensures (x % 0x1_0000_0000 + y) % 0x1_0000_0000 == (x + y) % 0x1_0000_0000
  {
  }

  // ------------------------------------------------------------- the method

  /** One block of `core_sha1`, with the array `w` filled as the steps go. */
  method CompressBlock(h: State, block: seq<Word>) returns (s: State)
    requires |block| == 16
    ensures s == Compress(h, block)
  {
    hide SafeAdd;
    hide Add;
    hide Rol;
    hide Xor32;
    hide F;
    hide Ft;
    hide K;
    hide Kt;
    var w := new Word[80](_ => 0);
    var a, b, c, d, e := h.a, h.b, h.c, h.d, h.e;
    var j := 0;
    while j < 80
      invariant j <= 80 && (forall t :: 0 <= t < j ==> w[t] == Schedule(block, t))
      invariant State(a, b, c, d, e) == Steps(h, block, j)
    {
      if j < 16 {
        w[j] := block[j];
      } else {
        w[j] := Rol(Xor32(Xor32(Xor32(w[j - 3], w[j - 8]), w[j - 14]), w[j - 16]), 1);
      }
      StepSum(Rol(a, 5), j, b, c, d, e, w[j]);
      var t := SafeAdd(SafeAdd(Rol(a, 5), Ft(j, b, c, d)), SafeAdd(SafeAdd(e, w[j]), Kt(j)));
      e := d;
      d := c;
      c := Rol(b, 30);
      b := a;
      a := t;
      j := j + 1;
    }
    AllAdd(a, b, c, d, e, h);
    s := State(SafeAdd(a, h.a), SafeAdd(b, h.b), SafeAdd(c, h.c), SafeAdd(d, h.d), SafeAdd(e, h.e));
  }

  lemma AllAdd(a: Word, b: Word, c: Word, d: Word, e: Word, h: State)
    ensures SafeAdd(a, h.a) == Add(h.a, a) && SafeAdd(b, h.b) == Add(h.b, b) && SafeAdd(c, h.c) == Add(h.c, c)
    ensures SafeAdd(d, h.d) == Add(h.d, d) && SafeAdd(e, h.e) == Add(h.e, e)
  {
    SafeAddIs(a, h.a);
    SafeAddIs(b, h.b);
    SafeAddIs(c, h.c);
    SafeAddIs(d, h.d);
    SafeAddIs(e, h.e);
    hide SafeAdd;
  }

  /** `core_sha1` on the words of a message, for every byte string of less than two to the 31 bits. */
  method CoreSha1(input: array<byte>) returns (h: State)
    requires 8 * input.Length < 0x8000_0000
    ensures h == Digest(input[..])
  {
    hide *;
    ghost var m := input[..];
    var words := BufferToWords(true, input);
    var x := AppendPadding(true, words, input.Length * 8, m);
    PaddedAll(m, x);
    HashStarts(m, x);
    InitialIs();
    h := State(Int32(1732584193), Int32(-271733879), Int32(-1732584194), Int32(271733878), Int32(-1009589776));
    var i := 0;
    ghost var n := 0;
    while i < |x|
      invariant i == 16 * n <= |x| && h == Hash(x, n)
    {
      BlockTurn(x, n + 1);
      h := CompressBlock(h, x[i..i + 16]);
      i, n := i + 16, n + 1;
    }
  }

  lemma HashStarts(m: seq<byte>, x: seq<Word>)
    requires 8 * |m| < 0x8000_0000
    ensures Hash(x, 0) == Initial() && Digest(m) == Hash(PaddedWords(true, m), Blocks(|m|))
  {
    hide Compress;
    hide PaddedWords;
  }

  lemma BlockTurn(x: seq<Word>, n: nat)
    requires 0 < n && 16 * n <= |x|
    ensures Hash(x, n) == Compress(Hash(x, n - 1), x[16 * n - 16..16 * n])
  {
    hide Compress;
  }

  lemma PaddedAll(m: seq<byte>, x: seq<Word>)
    requires 8 * |m| < 0x8000_0000 && |x| == 16 * Blocks(|m|)
    requires forall k :: 0 <= k < |x| ==> Get(x, k) == PaddedWords(true, m)[k]
    ensures x == PaddedWords(true, m)
  {
    assert forall k :: 0 <= k < |x| ==> x[k] == Get(x, k);
    hide PaddedWords;
  }
}
