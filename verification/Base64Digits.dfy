/** What base64 text is: the bytes as one number, written with 64 digits (section 4 of RFC 4648). Missing
    bytes of the last three count as zero, and the digits that hold nothing of a byte are padding. */
module Base64Digits {
  import opened Basics
  import opened Buffers
  import opened Numbers
  import opened Base64

  const LETTERS := "ABCDEFGHIJKLMNOPQRSTUVWXYZ"
  const SMALL_LETTERS := "abcdefghijklmnopqrstuvwxyz"
  const DIGITS := "0123456789"

  /** The alphabets, the padding at the end. */
  function Alphabet(url: bool): string {
    LETTERS + SMALL_LETTERS + DIGITS + if url then "-_ " else "+/="
  }

  lemma SymbolIs(url: bool, n: nat)
    requires n <= 64
    ensures |Alphabet(url)| == 65 && Symbol(url, n) as int == Alphabet(url)[n] as int
  {
    if n < 26 {
      LetterIs(n);
    } else if n < 52 {
      LetterIs(n - 26);
    } else if n < 62 {
      DigitIs(n - 52);
    }
  }

  lemma LetterIs(n: nat)
    requires n < 26
    ensures LETTERS[n] as int == 65 + n && SMALL_LETTERS[n] as int == 97 + n
  {
  }

  lemma DigitIs(n: nat)
    requires n < 10
    ensures DIGITS[n] as int == 48 + n
  {
  }

  /** The last `m` digits of a number to the base 64. */
  function Digits64(v: nat, m: nat): (r: seq<nat>)
    ensures |r| == m && forall i :: 0 <= i < m ==> r[i] < 64
  {
    if m == 0 then [] else Digits64(v / 64, m - 1) + [v % 64]
  }

  function Pow64(n: nat): (r: nat)
    ensures r > 0
  {
    if n == 0 then 1 else 64 * Pow64(n - 1)
  }

  /** The digits of a number that is put together from two. */
  lemma {:induction false} DigitsJoin(x: nat, j: nat, y: nat, k: nat)
    requires y < Pow64(k)
    ensures Digits64(x * Pow64(k) + y, j + k) == Digits64(x, j) + Digits64(y, k)
    decreases k
  {
    if k == 0 {
      AppendNothing(Digits64(x, j));
    } else {
      var p := Pow64(k - 1);
      assert x * Pow64(k) + y == 64 * (x * p) + y;
      SplitLast(x * p, y);
      DigitsJoin(x, j, y / 64, k - 1);
      AppendAssociates(Digits64(x, j), Digits64(y / 64, k - 1), [y % 64]);
    }
  }

  lemma SplitLast(a: nat, y: nat)
    ensures (64 * a + y) / 64 == a + y / 64 && (64 * a + y) % 64 == y % 64
  {
  }

  lemma {:induction false} Threes(q: nat)
    ensures Pow256(3 * q) == Pow64(4 * q)
  {
    if q > 0 {
      Threes(q - 1);
      var a, b := Pow256(3 * (q - 1)), Pow64(4 * (q - 1));
      assert Pow256(3 * q - 1) == 256 * Pow256(3 * q - 2) && Pow256(3 * q - 2) == 256 * a;
      assert Pow64(4 * q - 1) == 64 * Pow64(4 * q - 2) && Pow64(4 * q - 2) == 64 * Pow64(4 * q - 3) && Pow64(4 * q - 3) == 64 * b;
    }
  }

  lemma {:induction false} BytesBelow(s: seq<byte>)
    ensures BigEndian(s) < Pow256(|s|)
  {
    if s != [] {
      BytesBelow(s[..|s| - 1]);
    }
  }

  lemma {:induction false} BytesJoin(a: seq<byte>, b: seq<byte>)
    ensures BigEndian(a + b) == BigEndian(a) * Pow256(|b|) + BigEndian(b)
    decreases |b|
  {
    if b == [] {
      AppendNothing(a);
    } else {
      var front, last := b[..|b| - 1], b[|b| - 1];
      BytesJoin(a, front);
      assert a + b == (a + front) + [last] && b == front + [last];
      BigEndianSnoc(a + front, last);
      BigEndianSnoc(front, last);
      assert 256 * (BigEndian(a) * Pow256(|front|)) == BigEndian(a) * (256 * Pow256(|front|));
    }
  }

  // -------------------------------------------------------------------- groups

  /** The digits of three bytes. */
  lemma ThreeBytes(a: byte, b: byte, c: byte)
    ensures var x, y, z := a as nat, b as nat, c as nat;
            Digits64(BigEndian([a, b, c]), 4) == [x / 4, x % 4 * 16 + y / 16, y % 16 * 4 + z / 64, z % 64]
  {
    var x, y, z := a as nat, b as nat, c as nat;
    ThreeNumber(a, b, c);
    var v := 65536 * x + 256 * y + z;
    FourDigits(v);
    SixBits(x, y, z);
  }

  lemma ThreeNumber(a: byte, b: byte, c: byte)
    ensures BigEndian([a, b, c]) == 65536 * a as nat + 256 * b as nat + c as nat
  {
    BigEndianSnoc([a, b], c);
    BigEndianSnoc([a], b);
    BigEndianSnoc([], a);
    assert [a, b] + [c] == [a, b, c] && [a] + [b] == [a, b] && [] + [a] == [a];
  }

  lemma FourDigits(v: nat)
    ensures Digits64(v, 4) == [v / 64 / 64 / 64 % 64, v / 64 / 64 % 64, v / 64 % 64, v % 64]
  {
    assert Digits64(v, 4) == Digits64(v / 64, 3) + [v % 64];
    assert Digits64(v / 64, 3) == Digits64(v / 64 / 64, 2) + [v / 64 % 64];
    assert Digits64(v / 64 / 64, 2) == Digits64(v / 64 / 64 / 64, 1) + [v / 64 / 64 % 64];
    assert Digits64(v / 64 / 64 / 64, 1) == Digits64(v / 64 / 64 / 64 / 64, 0) + [v / 64 / 64 / 64 % 64];
  }

  lemma SixBits(x: nat, y: nat, z: nat)
    requires x < 256 && y < 256 && z < 256
    ensures var v := 65536 * x + 256 * y + z;
            && v / 64 / 64 / 64 % 64 == x / 4 && v / 64 / 64 % 64 == x % 4 * 16 + y / 16
            && v / 64 % 64 == y % 16 * 4 + z / 64 && v % 64 == z % 64
  {
    var v := 65536 * x + 256 * y + z;
    var v1 := 1024 * x + 4 * y + z / 64;
    var v2 := 16 * x + y / 16;
    assert v / 64 == v1;
    assert v1 / 64 == v2;
    assert v2 / 64 == x / 4;
  }

  /** The whole group that a last one or two bytes are completed to. */
  function Completed(b: seq<byte>): (r: seq<byte>)
    ensures |r| == |b| + Pads(|b|)
  {
    b + Zeros(Pads(|b|))
  }

  lemma GroupDigits(g: seq<byte>)
    requires 1 <= |g| <= 3
    ensures var d := Digits64(BigEndian(Completed(g)), 4);
            Positions(g) == d[..4 - Pads(|g|)] + Padding(Pads(|g|))
  {
    var a := g[0];
    var b: byte := if |g| > 1 then g[1] else 0;
    var c: byte := if |g| > 2 then g[2] else 0;
    assert Completed(g) == [a, b, c];
    ThreeBytes(a, b, c);
  }

  lemma WholeGroup(g: seq<byte>)
    requires |g| == 3
    ensures Positions(g) == Digits64(BigEndian(g), 4)
  {
    GroupDigits(g);
    AppendNothing(g);
    assert Zeros(0) == [];
  }

  /** Without the last `k`. */
  function Cut(d: seq<nat>, k: nat): (r: seq<nat>)
    ensures |r| <= |d| && forall i :: 0 <= i < |r| ==> r[i] == d[i]
  {
    if k <= |d| then d[..|d| - k] else []
  }

  function Padding(k: nat): (r: seq<nat>)
    ensures |r| == k && forall i :: 0 <= i < k ==> r[i] == 64
  {
    seq(k, _ => 64)
  }

  /** The positions of all symbols, those of the padding being 64. */
  function AllDigits(b: seq<byte>): (r: seq<nat>)
    ensures forall i :: 0 <= i < |r| ==> r[i] <= 64
  {
    hide *;
    var c, k := Completed(b), Pads(|b|);
    Cut(Digits64(BigEndian(c), |c| / 3 * 4), k) + Padding(k)
  }

  lemma SymbolsJoin(url: bool, p: seq<nat>, q: seq<nat>)
    requires (forall i :: 0 <= i < |p| ==> p[i] <= 64) && (forall i :: 0 <= i < |q| ==> q[i] <= 64)
    ensures Symbols(url, p + q) == Symbols(url, p) + Symbols(url, q)
  {
  }

  lemma DigitsOfRest(g: seq<byte>, rest: seq<byte>)
    requires |g| == 3 && rest != []
    ensures AllDigits(g + rest) == Digits64(BigEndian(g), 4) + AllDigits(rest)
  {
    hide *;
    var c, pads := Completed(rest), Pads(|rest|);
    var k := |c| / 3;
    CompletedIs(g, rest);
    BytesJoin(g, c);
    BytesBelow(c);
    Threes(k);
    DigitsJoin(BigEndian(g), 4, BigEndian(c), 4 * k);
    CutLonger(Digits64(BigEndian(g), 4), Digits64(BigEndian(c), 4 * k), pads, Padding(pads));
    AllDigitsIs(g + rest);
    AllDigitsIs(rest);
  }

  lemma CompletedIs(g: seq<byte>, rest: seq<byte>)
    requires |g| == 3 && rest != []
    ensures Completed(g + rest) == g + Completed(rest) && Pads(|g + rest|) == Pads(|rest|)
    ensures |Completed(rest)| == 3 * (|Completed(rest)| / 3) && |Completed(rest)| / 3 * 4 >= Pads(|rest|)
    ensures |Completed(g + rest)| / 3 * 4 == 4 + 4 * (|Completed(rest)| / 3)
  {
  }

  lemma AllDigitsIs(b: seq<byte>)
    ensures AllDigits(b) == Cut(Digits64(BigEndian(Completed(b)), |Completed(b)| / 3 * 4), Pads(|b|)) + Padding(Pads(|b|))
  {
  }

  lemma CutLonger(a: seq<nat>, b: seq<nat>, cut: nat, more: seq<nat>)
    requires cut <= |b|
    ensures Cut(a + b, cut) + more == a + (Cut(b, cut) + more)
  {
  }

  /** Encoding writes the digits of the number that the bytes are, in the alphabet. */
  lemma {:induction false} EncodeIsNumeral(url: bool, b: seq<byte>)
    requires b != []
    ensures Encode(url, b) == Some(Symbols(url, AllDigits(b)))
    decreases |b|
  {
    hide *;
    GroupsCons(url, b);
    var g, rest := b[..Min(3, |b|)], b[Min(3, |b|)..];
    if rest == [] {
      LastGroup(url, b);
    } else {
      WholeGroup(g);
      EncodeIsNumeral(url, rest);
      GroupsOf(url, b);
      GroupsOf(url, rest);
      DigitsOfRest(g, rest);
      SymbolsJoin(url, Digits64(BigEndian(g), 4), AllDigits(rest));
    }
  }

  lemma GroupsOf(url: bool, b: seq<byte>)
    ensures b != [] ==> Encode(url, b) == Some(EncodeGroups(url, b))
  {
    hide EncodeGroups;
  }

  lemma GroupsCons(url: bool, b: seq<byte>)
    requires b != []
    ensures var m := Min(3, |b|);
            && 1 <= m <= |b| && (b[m..] != [] ==> m == 3) && b[..m] + b[m..] == b
            && EncodeGroups(url, b) == Symbols(url, Positions(b[..m])) + EncodeGroups(url, b[m..])
  {
    hide Symbols;
    hide Positions;
  }

  lemma LastGroup(url: bool, b: seq<byte>)
    requires 1 <= |b| && b[Min(3, |b|)..] == []
    ensures Encode(url, b) == Some(Symbols(url, AllDigits(b)))
  {
    assert |b| <= 3 && b[..Min(3, |b|)] == b && EncodeGroups(url, []) == [];
    assert |Completed(b)| / 3 == 1 && Pads(|b|) <= 2;
    GroupDigits(b);
    AllDigitsIs(b);
    hide Digits64;
    hide Symbols;
    hide Positions;
    AppendNothing(Symbols(url, Positions(b)));
  }
}
