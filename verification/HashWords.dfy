/** What the operators of the hash functions do to the single bits of a word, and what the words of a
    padded message are as bytes (sections 2.2.2, 3.2 and 5.1.1 of FIPS 180-4, section 3 of RFC 1321). */
module HashWords {
  import opened Basics
  import opened Buffers
  import opened Numbers
  import opened Bits
  import opened HashPadding
  import opened Sha1

  // ---------------------------------------------------------------------- bits

  lemma {:induction false} AndBitAt(a: nat, b: nat, bits: nat, k: nat)
    requires k < bits
    ensures BitAt(AndBits(a, b, bits), k) == 1 <==> BitAt(a, k) == 1 && BitAt(b, k) == 1
  {
    AndUnfolds(a, b, bits);
    if k > 0 {
      AndBitAt(a / 2, b / 2, bits - 1, k - 1);
      HalfBit(a, k);
      HalfBit(b, k);
      HalfBit(AndBits(a, b, bits), k);
    }
  }

  lemma {:induction false} OrBitAt(a: nat, b: nat, bits: nat, k: nat)
    requires k < bits
    ensures BitAt(OrBits(a, b, bits), k) == 1 <==> BitAt(a, k) == 1 || BitAt(b, k) == 1
  {
    OrUnfolds(a, b, bits);
    if k > 0 {
      OrBitAt(a / 2, b / 2, bits - 1, k - 1);
      HalfBit(a, k);
      HalfBit(b, k);
      HalfBit(OrBits(a, b, bits), k);
    }
  }

  lemma {:induction false} NotBitAt(a: nat, bits: nat, k: nat)
    requires k < bits
    ensures BitAt(NotBits(a, bits), k) == 1 <==> BitAt(a, k) == 0
  {
    NotUnfolds(a, bits);
    if k > 0 {
      NotBitAt(a / 2, bits - 1, k - 1);
      HalfBit(a, k);
      HalfBit(NotBits(a, bits), k);
    }
  }

  lemma {:induction false} DoubledIs(a: nat, k: nat)
    ensures Doubled(a, k) == a * Pow2(k)
  {
    if k > 0 {
      DoubledIs(a, k - 1);
      assert 2 * (a * Pow2(k - 1)) == a * (2 * Pow2(k - 1));
    }
  }

  lemma {:induction false} HalvedIs(a: nat, k: nat)
    ensures Halved(a, k) == a / Pow2(k)
    decreases k
  {
    if k > 0 {
      HalvedIs(a / 2, k - 1);
      var p := Pow2(k - 1);
      var q, r := a / 2 / p, a / 2 % p;
      assert q * (2 * p) == 2 * (q * p);
      DivModIs(a, 2 * p, q, 2 * r + a % 2);
    }
  }

  /** Rotating moves the upper `cnt` bits below the others. */
  lemma RolIs(w: Word, cnt: nat)
    requires cnt < 32
    ensures Rol(w, cnt) == w % Pow2(32 - cnt) * Pow2(cnt) + w / Pow2(32 - cnt)
  {
    var p, unit := Pow2(32 - cnt), Pow2(cnt);
    var high, low := w % p, w / p;
    Bits32();
    Pow2Plus(32 - cnt, cnt);
    DoubledIs(w, cnt);
    DoubledIs(high, cnt);
    DoubledIs(1, cnt);
    HalvedIs(w, 32 - cnt);
    hide Pow2;
    hide Doubled;
    hide Halved;
    hide OrBits;
    RolParts(w, p, unit);
    OrApart(high, low, cnt, 32);
  }

  lemma RolParts(w: Word, p: nat, unit: nat)
    requires p > 0 && unit > 0 && p * unit == 0x1_0000_0000
    ensures w / p < unit && w % p * unit + w / p < 0x1_0000_0000 && w * unit % 0x1_0000_0000 == w % p * unit
  {
    var q, h := w / p, w % p;
    assert w == q * p + h;
    ProductGrows(unit, q, p);
    assert h * unit <= (p - 1) * unit == p * unit - unit;
    assert w * unit == q * p * unit + h * unit == q * (p * unit) + h * unit;
    DivModIs(w * unit, 0x1_0000_0000, q, h * unit);
  }

  lemma ProductGrows(a: nat, b: nat, c: nat)
    ensures a <= b ==> a * c <= b * c
  {
  }

  // --------------------------------------------------------------------- words

  /** Four bytes as a word: the most significant first in the order of SHA-1, last in that of MD5. */
  lemma WordIsNumber(s: seq<byte>, j: nat)
    requires 4 * j + 4 <= |s|
    ensures WordAt(true, s, j) == BigEndian(s[4 * j..4 * j + 4])
    ensures WordAt(false, s, j) == BigEndian(Reversed(s[4 * j..4 * j + 4]))
  {
    var t := s[4 * j..4 * j + 4];
    FourNumber(t);
    FourNumber(Reversed(t));
    assert t[0] == s[4 * j] && t[1] == s[4 * j + 1] && t[2] == s[4 * j + 2] && t[3] == s[4 * j + 3];
  }

  lemma FourNumber(t: seq<byte>)
    requires |t| == 4
    ensures BigEndian(t) == 0x100_0000 * t[0] as nat + 0x1_0000 * t[1] as nat + 0x100 * t[2] as nat + t[3] as nat
  {
    assert t[..3][..2][..1][..0] == [] && t[..3][..2] == t[..2] && t[..2][..1] == t[..1];
    assert BigEndian(t) == 256 * BigEndian(t[..3]) + t[3] as nat;
    assert BigEndian(t[..3]) == 256 * BigEndian(t[..2]) + t[2] as nat;
    assert BigEndian(t[..2]) == 256 * BigEndian(t[..1]) + t[1] as nat;
    assert BigEndian(t[..1]) == t[0] as nat;
  }

  /** The padded message: the bytes, a one bit, zeros, and the length in bits as a number of eight bytes. */
  function PaddedMessage(big: bool, m: seq<byte>): seq<byte> {
    var length := BigEndianBytes(8 * |m|, 8);
    Padded(m) + if big then length else Reversed(length)
  }

  /** The words that are hashed are those of the padded message. */
  lemma PaddedWordsAre(big: bool, m: seq<byte>)
    requires 8 * |m| < 0x8000_0000
    ensures PaddedWords(big, m) == WordsOf(big, PaddedMessage(big, m))
  {
    hide *;
    var p, all := Padded(m), PaddedMessage(big, m);
    var tail := if big then BigEndianBytes(8 * |m|, 8) else Reversed(BigEndianBytes(8 * |m|, 8));
    PaddedIs(big, m);
    LengthWords(big, 8 * |m|);
    forall j | 0 <= j < |PaddedWords(big, m)| ensures PaddedWords(big, m)[j] == WordAt(big, all, j) {
      WordInParts(big, p, tail, j);
    }
  }

  lemma PaddedIs(big: bool, m: seq<byte>)
    requires 8 * |m| < 0x8000_0000
    ensures var p, n, tail := Padded(m), |Padded(m)| / 4, if big then BigEndianBytes(8 * |m|, 8) else Reversed(BigEndianBytes(8 * |m|, 8));
            && PaddedMessage(big, m) == p + tail && |PaddedWords(big, m)| == n + 2
            && (forall j :: 0 <= j < n ==> PaddedWords(big, m)[j] == WordAt(big, p, j))
            && PaddedWords(big, m)[n] == (if big then 0 else 8 * |m|) && PaddedWords(big, m)[n + 1] == (if big then 8 * |m| else 0)
            && |p| == 4 * n && |tail| == 8
  {
    hide Padded;
    hide WordAt;
    hide BigEndianBytes;
    hide Reversed;
  }

  lemma WordInParts(big: bool, p: seq<byte>, tail: seq<byte>, j: nat)
    requires |p| % 4 == 0
    ensures WordAt(big, p + tail, j) == if 4 * j < |p| then WordAt(big, p, j) else WordAt(big, tail, j - |p| / 4)
  {
  }

  /** The length as two words. */
  lemma LengthWords(big: bool, n: nat)
    requires n < 0x8000_0000
    ensures var t := if big then BigEndianBytes(n, 8) else Reversed(BigEndianBytes(n, 8));
            && |t| == 8 && WordAt(big, t, 0) == (if big then 0 else n) && WordAt(big, t, 1) == if big then n else 0
  {
    var s := BigEndianBytes(n, 8);
    var t := if big then s else Reversed(s);
    LengthHalves(n);
    WordIsNumber(t, 0);
    WordIsNumber(t, 1);
    if !big {
      assert Reversed(t[0..4]) == s[4..];
      assert Reversed(t[4..8]) == s[..4];
    }
  }

  lemma LengthHalves(n: nat)
    requires n < 0x8000_0000
    ensures var s := BigEndianBytes(n, 8); BigEndian(s[..4]) == 0 && BigEndian(s[4..]) == n && s[0..4] == s[..4] && s[4..8] == s[4..]
  {
    assert Pow256(4) == 256 * Pow256(3) && Pow256(3) == 0x100_0000;
    HighBytes(n, 4, 4);
    BigEndianInverse(n, 4);
    BigEndianInverse(0, 4);
    ZeroBytes(4);
    hide BigEndianBytes;
    hide BigEndian;
    var s := BigEndianBytes(n, 8);
    assert s[..4] == Zeros(4) && s[4..] == BigEndianBytes(n, 4);
  }
}
