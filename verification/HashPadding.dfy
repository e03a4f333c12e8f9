/** How the hash functions turn bytes into words and pad them: the word order is that of SHA-1 (most
    significant byte first) or that of MD5. An array element that was never set counts as zero. The
    padding is that of section 5.1.1 of FIPS 180-4 and of sections 3.1 and 3.2 of RFC 1321. */
module HashPadding {
  import opened Buffers
  import opened Bits

  // -------------------------------------------------------------------- words

  /** How far a byte is shifted: by 24 down to 0, or by 0 up to 24. */
  function Place(big: bool, r: nat): nat
    requires r < 4
  {
    if big then 24 - 8 * r else 8 * r
  }

  function ByteAt(s: seq<byte>, i: nat): byte {
    if i < |s| then s[i] else 0
  }

  /** A byte of a word in its place. */
  function Part(big: bool, b: byte, r: nat): Word
    requires r < 4
  {
    var v := b as nat;
    match Place(big, r)
    case 24 => 0x100_0000 * v
    case 16 => 0x1_0000 * v
    case 8 => 0x100 * v
    case _ => v
  }

  /** The number of four bytes. */
  function WordAt(big: bool, s: seq<byte>, j: nat): Word {
    Part(big, ByteAt(s, 4 * j), 0) + Part(big, ByteAt(s, 4 * j + 1), 1)
    + Part(big, ByteAt(s, 4 * j + 2), 2) + Part(big, ByteAt(s, 4 * j + 3), 3)
  }

  /** The words of a byte string, the last one filled up with zeros. */
  function WordsOf(big: bool, s: seq<byte>): (r: seq<Word>)
    ensures |r| == (|s| + 3) / 4 && forall j :: 0 <= j < |r| ==> r[j] == WordAt(big, s, j)
  {
    seq((|s| + 3) / 4, j requires 0 <= j => WordAt(big, s, j))
  }

  // ---------------------------------------------------------- array elements

  function Get(x: seq<Word>, i: nat): Word {
    if i < |x| then x[i] else 0
  }

  /** `x[i] = v`, which makes the array longer if need be. */
  function Set(x: seq<Word>, i: nat, v: Word): (r: seq<Word>)
    ensures |r| == if i < |x| then |x| else i + 1
    ensures forall k :: 0 <= k < |r| ==> r[k] == if k == i then v else Get(x, k)
  {
    if i < |x| then x[i := v] else x + seq(i - |x|, _ => 0) + [v]
  }

  // ------------------------------------------------------------------ padding

  /** The number of blocks of sixteen words. */
  function Blocks(bytes: nat): nat {
    (8 * bytes + 64) / 512 + 1
  }

  /** The bytes before the length: the message, a one bit and zeros (section 5.1.1 of FIPS 180-4 and
      section 3.1 of RFC 1321). */
  function Padded(m: seq<byte>): (r: seq<byte>)
    ensures |r| == 64 * Blocks(|m|) - 8 && r[..|m|] == m && r[|m|] == 0x80
    ensures forall i :: |m| < i < |r| ==> r[i] == 0
  {
    assert 64 * Blocks(|m|) - 9 >= |m|;
    m + [0x80] + seq(64 * Blocks(|m|) - 9 - |m|, _ => 0)
  }

  /** There are just as many blocks as the message, the one bit and the length need. */
  lemma FewestBlocks(n: nat, blocks: nat)
    ensures 8 * n + 1 + 64 <= 512 * blocks <==> blocks >= Blocks(n)
  {
  }

  /** The words of the padded message, with the length in bits in the last two. */
  function PaddedWords(big: bool, m: seq<byte>): (r: seq<Word>)
    requires 8 * |m| < 0x8000_0000
    ensures |r| == 16 * Blocks(|m|)
  {
    WordsOf(big, Padded(m)) + if big then [0, 8 * |m|] else [8 * |m|, 0]
  }

  // ------------------------------------------------------------------- loops

  lemma JoinBig(c0: nat, c1: nat, c2: nat, b: nat, r: nat)
    requires r < 4 && c0 < 256 && c1 < 256 && c2 < 256 && b < 256
    requires (r < 1 ==> c0 == 0) && (r < 2 ==> c1 == 0) && (r < 3 ==> c2 == 0)
    ensures var x: Word := 0x100_0000 * c0 + 0x1_0000 * c1 + 0x100 * c2;
            var p: Word := (if r == 0 then 0x100_0000 * b else if r == 1 then 0x1_0000 * b else if r == 2 then 0x100 * b else b);
            Or32(x, p) == x + p
  {
    hide Or32;
    if r == 0 {
      OrZero(0x100_0000 * b);
    } else if r == 1 {
      OrBytes(c0, 0x1_0000 * b, 24, 0x100_0000);
    } else if r == 2 {
      OrBytes(0x100 * c0 + c1, 0x100 * b, 16, 0x1_0000);
    } else {
      OrBytes(0x1_0000 * c0 + 0x100 * c1 + c2, b, 8, 0x100);
    }
  }

  lemma JoinLittle(c0: nat, c1: nat, c2: nat, b: nat, r: nat)
    requires r < 4 && c0 < 256 && c1 < 256 && c2 < 256 && b < 256
    requires (r < 1 ==> c0 == 0) && (r < 2 ==> c1 == 0) && (r < 3 ==> c2 == 0)
    ensures var x: Word := c0 + 0x100 * c1 + 0x1_0000 * c2;
            var p: Word := (if r == 0 then b else if r == 1 then 0x100 * b else if r == 2 then 0x1_0000 * b else 0x100_0000 * b);
            Or32(x, p) == x + p
  {
    hide Or32;
    if r == 0 {
      OrZero(b);
    } else if r == 1 {
      OrBytes(b, c0, 8, 0x100);
    } else if r == 2 {
      OrBytes(b, c0 + 0x100 * c1, 16, 0x1_0000);
    } else {
      OrBytes(b, c0 + 0x100 * c1 + 0x1_0000 * c2, 24, 0x100_0000);
    }
  }

  /** A byte is put into its word by `or`, as its place is still empty. */
  lemma JoinByte(big: bool, s: seq<byte>, b: byte)
    ensures var j, r := |s| / 4, |s| % 4;
            Or32(WordAt(big, s, j), Part(big, b, r)) == WordAt(big, s, j) + Part(big, b, r) == WordAt(big, s + [b], j)
  {
    hide Or32;
    var j, r := |s| / 4, |s| % 4;
    var c0, c1, c2 := ByteAt(s, 4 * j) as nat, ByteAt(s, 4 * j + 1) as nat, ByteAt(s, 4 * j + 2) as nat;
    if big {
      JoinBig(c0, c1, c2, b as nat, r);
    } else {
      JoinLittle(c0, c1, c2, b as nat, r);
    }
    ByteAtSnoc(s, b, 4 * j);
    ByteAtSnoc(s, b, 4 * j + 1);
    ByteAtSnoc(s, b, 4 * j + 2);
    ByteAtSnoc(s, b, 4 * j + 3);
  }

  lemma ByteAtSnoc(s: seq<byte>, b: byte, i: nat)
    ensures ByteAt(s + [b], i) == if i == |s| then b else ByteAt(s, i)
  {
  }

  /** Words do not depend on zeros that follow. */
  lemma WordAtSame(big: bool, s: seq<byte>, t: seq<byte>, j: nat)
    requires forall i :: 4 * j <= i < 4 * j + 4 ==> ByteAt(s, i) == ByteAt(t, i)
    ensures WordAt(big, s, j) == WordAt(big, t, j)
  {
    assert ByteAt(s, 4 * j + 1) == ByteAt(t, 4 * j + 1) && ByteAt(s, 4 * j + 2) == ByteAt(t, 4 * j + 2);
    hide ByteAt;
    hide Part;
  }

  lemma WordAtEnd(big: bool, s: seq<byte>, j: nat)
    requires 4 * j >= |s|
    ensures WordAt(big, s, j) == 0
  {
  }

  /** One turn of the loop over the bytes. */
  lemma WordsSnoc(big: bool, s: seq<byte>, b: byte)
    ensures var x, j := WordsOf(big, s), |s| / 4;
            Set(x, j, Or32(Get(x, j), Part(big, b, |s| % 4))) == WordsOf(big, s + [b])
  {
    hide Or32;
    hide Part;
    var x, j := WordsOf(big, s), |s| / 4;
    JoinByte(big, s, b);
    if j >= |x| {
      WordAtEnd(big, s, j);
    }
    assert Get(x, j) == WordAt(big, s, j);
    var y, z := Set(x, j, Or32(Get(x, j), Part(big, b, |s| % 4))), WordsOf(big, s + [b]);
    forall k | 0 <= k < |z| && k != j ensures y[k] == z[k] {
      WordAtSame(big, s, s + [b], k);
    }
    hide WordAt;
    assert |y| == |z|;
  }

  /** Marking the end and storing the length pads the message as the standards say. */
  lemma PaddingIs(big: bool, m: seq<byte>, k: nat)
    requires 8 * |m| < 0x8000_0000
    ensures var n := 16 * Blocks(|m|);
            var x := Set(WordsOf(big, m + [0x80]), if big then n - 1 else n - 2, 8 * |m|);
            |x| == (if big then n else n - 1) && (k < n ==> Get(x, k) == PaddedWords(big, m)[k])
  {
    var n, marked, p := 16 * Blocks(|m|), m + [0x80], Padded(m);
    assert |WordsOf(big, marked)| <= n - 2;
    assert |WordsOf(big, p)| == n - 2;
    if k < n - 2 {
      forall i | 4 * k <= i < 4 * k + 4 ensures ByteAt(marked, i) == ByteAt(p, i) {
        assert i < |m| ==> p[i] == p[..|m|][i];
      }
      WordAtSame(big, marked, p, k);
      if k >= |WordsOf(big, marked)| {
        WordAtEnd(big, marked, k);
      }
    }
  }

  /** `buffer2binb` and `buffer2binl` */
  method BufferToWords(big: bool, buffer: array<byte>) returns (bin: seq<Word>)
    ensures bin == WordsOf(big, buffer[..])
  {
    hide *;
    bin := [];
    NoWords(big);
    assert buffer[..0] == [];
    for i := 0 to buffer.Length
      invariant bin == WordsOf(big, buffer[..i])
    {
      WordsSnoc(big, buffer[..i], buffer[i]);
      assert buffer[..i] + [buffer[i]] == buffer[..i + 1];
      bin := Set(bin, i / 4, Or32(Get(bin, i / 4), Part(big, buffer[i], i % 4)));
    }
    assert buffer[..buffer.Length] == buffer[..];
  }

  lemma NoWords(big: bool)
    ensures WordsOf(big, []) == []
  {
  }

  /** The first statements of `core_sha1` and `core_md5`, for a message of `len` bits. */
  method AppendPadding(big: bool, words: seq<Word>, len: nat, ghost m: seq<byte>) returns (x: seq<Word>)
    requires len == 8 * |m| < 0x8000_0000 && words == WordsOf(big, m)
    ensures var n := 16 * Blocks(|m|);
            |x| == (if big then n else n - 1) && forall k :: 0 <= k < n ==> Get(x, k) == PaddedWords(big, m)[k]
  {
    hide *;
    Indices(big, |m|);
    WordsSnoc(big, m, 0x80);
    PaddingAll(big, m);
    x := Set(words, len / 32, Or32(Get(words, len / 32), Part(big, 0x80, len % 32 / 8)));
    x := Set(x, (len + 64) / 512 * 16 + if big then 15 else 14, len);
  }

  lemma Indices(big: bool, n: nat)
    ensures 8 * n / 32 == n / 4 && 8 * n % 32 / 8 == n % 4
    ensures (8 * n + 64) / 512 * 16 + 15 == 16 * Blocks(n) - 1
  {
  }

  lemma PaddingAll(big: bool, m: seq<byte>)
    requires 8 * |m| < 0x8000_0000
    ensures var n := 16 * Blocks(|m|);
            var x := Set(WordsOf(big, m + [0x80]), if big then n - 1 else n - 2, 8 * |m|);
            |x| == (if big then n else n - 1) && |PaddedWords(big, m)| == n && forall k :: 0 <= k < n ==> Get(x, k) == PaddedWords(big, m)[k]
  {
    var n := 16 * Blocks(|m|);
    var x := Set(WordsOf(big, m + [0x80]), if big then n - 1 else n - 2, 8 * |m|);
    PaddingIs(big, m, 0);
    forall k | 0 <= k < n ensures Get(x, k) == PaddedWords(big, m)[k] {
      PaddingIs(big, m, k);
    }
  }
}
