/** Base64 with both alphabets (sections 4 and 5 of RFC 4648). The url alphabet pads with a space, and
    its decoder also takes input from which the padding has been stripped. Decoding is the inverse of
    encoding, throws on exactly the inputs named, and never outgrows its buffer. */
module Base64 {
  import opened Basics
  import opened Buffers
  import opened Bits

  /** The alphabet; position 64 holds the padding. */
  function Symbol(url: bool, n: nat): byte
    requires n <= 64
  {
    if n < 26 then (65 + n) as byte
    else if n < 52 then (71 + n) as byte
    else if n < 62 then (n - 4) as byte
    else if n == 62 then (if url then 45 else 43)
    else if n == 63 then (if url then 95 else 47)
    else (if url then 32 else 61)
  }

  /** The position of a byte in the alphabet, or minus one. */
  function IndexOf(url: bool, b: byte): (n: int)
    ensures -1 <= n <= 64 && (n >= 0 ==> Symbol(url, n) == b)
  {
    if 65 <= b <= 90 then (b - 65) as int
    else if 97 <= b <= 122 then (b - 71) as int
    else if 48 <= b <= 57 then b as int + 4
    else if b == Symbol(url, 62) then 62
    else if b == Symbol(url, 63) then 63
    else if b == Symbol(url, 64) then 64
    else -1
  }

  lemma IndexOfSymbol(url: bool, n: nat)
    requires n <= 64
    ensures IndexOf(url, Symbol(url, n)) == n
  {
  }

  // -------------------------------------------------------------------- groups

  /** The byte that storing `a | b` in a buffer leaves. */
  function OrByte(a: int, b: int): byte {
    EightBits();
    OrBits(a % 256, b % 256, 8) as byte
  }

  /** The positions of the four symbols for up to three bytes. A missing byte counts as zero, and
      symbols that hold nothing of a byte are padding. */
  function Positions(b: seq<byte>): (r: seq<nat>)
    requires 1 <= |b| <= 3
    ensures |r| == 4 && forall i :: 0 <= i < 4 ==> r[i] <= 64
  {
    var b1 := b[0] as nat;
    var b2 := if |b| > 1 then b[1] as nat else 0;
    var b3 := if |b| > 2 then b[2] as nat else 0;
    [b1 / 4, b1 % 4 * 16 + b2 / 16, if |b| == 1 then 64 else b2 % 16 * 4 + b3 / 64, if |b| < 3 then 64 else b3 % 64]
  }

  function Symbols(url: bool, p: seq<nat>): (r: seq<byte>)
    requires forall i :: 0 <= i < |p| ==> p[i] <= 64
    ensures |r| == |p|
  {
    seq(|p|, i requires 0 <= i < |p| => Symbol(url, p[i]))
  }

  function EncodeGroups(url: bool, b: seq<byte>): seq<byte> {
    if b == [] then []
    else Symbols(url, Positions(b[..Min(3, |b|)])) + EncodeGroups(url, b[Min(3, |b|)..])
  }

  /** `encode_any`; none when it throws, which is on empty input only. */
  function Encode(url: bool, b: seq<byte>): Option<seq<byte>> {
    if b == [] then None else Some(EncodeGroups(url, b))
  }

  /** The bytes that four positions stand for. */
  function Bytes(p: seq<int>): (r: seq<byte>)
    requires |p| == 4
    ensures 1 <= |r| <= 3
  {
    [OrByte(p[0] * 4, p[1] / 16)]
    + (if p[2] != 64 then [OrByte(p[1] % 16 * 16, p[2] / 4)] else [])
    + (if p[3] != 64 then [OrByte(p[2] % 4 * 64, p[3])] else [])
  }

  /** Up to `k` more positions from place `i`; behind the end the url decoder sees padding, and the
      other one throws. */
  function Read(url: bool, s: seq<byte>, i: nat, k: nat): Option<seq<int>>
    decreases k
  {
    if k == 0 then Some([])
    else if i >= |s| then
      if !url then None
      else match Read(url, s, i, k - 1) case None => None case Some(p) => Some([64] + p)
    else match Read(url, s, i + 1, k - 1) case None => None case Some(p) => Some([IndexOf(url, s[i])] + p)
  }

  lemma {:induction false} ReadLength(url: bool, s: seq<byte>, i: nat, k: nat)
    ensures var r := Read(url, s, i, k);
            (r == None <==> !url && i + k > |s| && k > 0) && (r.Some? ==> |r.value| == k)
    decreases k
  {
    if k > 0 {
      ReadLength(url, s, i, k - 1);
      ReadLength(url, s, i + 1, k - 1);
    }
  }

  /** The loop of `decode_any` from place `i`, with what has been put out and the room there is. */
  function DecodeFrom(url: bool, s: seq<byte>, i: nat, out: seq<byte>, room: nat): Option<seq<byte>>
    decreases |s| - i
  {
    ReadLength(url, s, i, 4);
    var p := Read(url, s, i, 4);
    if p == None then None
    else
      var more := out + Bytes(p.value);
      if |more| > room then None
      else if i + 4 < |s| then DecodeFrom(url, s, i + 4, more, room)
      else Some(more)
  }

  /** `decode_any`; none when it throws. */
  function Decode(url: bool, s: seq<byte>): Option<seq<byte>> {
    DecodeFrom(url, s, 0, [], (3 * |s| + 3) / 4)
  }

  // ---------------------------------------------------------------- round trip

  lemma Shifts(a: nat)
    ensures Doubled(a, 2) == 4 * a && Doubled(a, 4) == 16 * a && Doubled(a, 6) == 64 * a
  {
    assert Doubled(a, 1) == 2 * Doubled(a, 0) && Doubled(a, 2) == 2 * Doubled(a, 1) && Doubled(a, 3) == 2 * Doubled(a, 2);
    assert Doubled(a, 4) == 2 * Doubled(a, 3) && Doubled(a, 5) == 2 * Doubled(a, 4) && Doubled(a, 6) == 2 * Doubled(a, 5);
  }

  lemma Or4(high: nat, low: nat)
    requires low < 4 && 4 * high + low < 256
    ensures OrByte(high * 4, low) as nat == 4 * high + low
  {
    Shifts(high);
    Shifts(1);
    hide *;
    OrShifted(high, low, 2);
  }

  lemma Or16(high: nat, low: nat)
    requires low < 16 && 16 * high + low < 256
    ensures OrByte(high * 16, low) as nat == 16 * high + low
  {
    Shifts(high);
    Shifts(1);
    hide *;
    OrShifted(high, low, 4);
  }

  lemma Or64(high: nat, low: nat)
    requires low < 64 && 64 * high + low < 256
    ensures OrByte(high * 64, low) as nat == 64 * high + low
  {
    Shifts(high);
    Shifts(1);
    hide *;
    OrShifted(high, low, 6);
  }

  lemma OrShifted(high: nat, low: nat, k: nat)
    requires k <= 8 && low < Doubled(1, k) && Doubled(high, k) + low < 256
    ensures OrByte(Doubled(high, k), low) as nat == Doubled(high, k) + low
  {
    EightBits();
    hide *;
    OrApart(high, low, k, 8);
    OrByteIs(Doubled(high, k), low);
  }

  lemma OrByteIs(a: nat, b: nat)
    requires a < 256 && b < 256
    ensures OrByte(a, b) as nat == OrBits(a, b, 8)
  {
    hide OrBits;
    hide Pow2;
  }

  /** The positions of a group stand for its bytes. */
  lemma BytesOfPositions(b: seq<byte>)
    requires 1 <= |b| <= 3
    ensures Bytes(Positions(b)) == b
  {
    hide OrByte;
    var b1 := b[0] as nat;
    var b2 := if |b| > 1 then b[1] as nat else 0;
    var b3 := if |b| > 2 then b[2] as nat else 0;
    Or4(b1 / 4, b1 % 4);
    Or16(b2 / 16, b2 % 16);
    Or64(b3 / 64, b3 % 64);
  }

  /** Reading `n` symbols and, at the end of stripped input, the padding that is not there. */
  lemma {:induction false} ReadSymbols(url: bool, s: seq<byte>, i: nat, p: seq<nat>, n: nat)
    requires n <= |p| && i + n <= |s| && (forall j :: 0 <= j < |p| ==> p[j] <= 64)
    requires forall j :: 0 <= j < n ==> s[i + j] == Symbol(url, p[j])
    requires n == |p| || (url && i + n == |s| && forall j :: n <= j < |p| ==> p[j] == 64)
    ensures Read(url, s, i, |p|) == Some(p)
    decreases |p|
  {
    if p != [] {
      assert p == [p[0]] + p[1..];
      if n == 0 {
        ReadSymbols(url, s, i, p[1..], 0);
      } else {
        IndexOfSymbol(url, p[0]);
        ReadSymbols(url, s, i + 1, p[1..], n - 1);
      }
    }
  }

  /** How many symbols of the last group are padding. */
  function Pads(n: nat): nat {
    (3 - n % 3) % 3
  }

  lemma {:induction false} EncodedLength(url: bool, b: seq<byte>)
    ensures |EncodeGroups(url, b)| == 4 * ((|b| + 2) / 3)
  {
    if b != [] {
      EncodedLength(url, b[Min(3, |b|)..]);
    }
  }

  lemma {:induction false} DecodeGroups(url: bool, s: seq<byte>, i: nat, b: seq<byte>, k: nat, out: seq<byte>, room: nat)
    requires b != [] && k <= Pads(|b|) && (k > 0 ==> url) && |out| + |b| <= room
    requires i <= |s| && k <= |EncodeGroups(url, b)|
    requires s[i..] == EncodeGroups(url, b)[..|EncodeGroups(url, b)| - k]
    ensures DecodeFrom(url, s, i, out, room) == Some(out + b)
    decreases |b|
  {
    hide *;
    var m := Min(3, |b|);
    FirstGroup(b);
    var group, rest := b[..m], b[m..];
    var p := Positions(group);
    var n := if rest == [] then 4 - k else 4;
    GroupSplits(url, s, i, b, k);
    ReadSymbols(url, s, i, p, n);
    BytesOfPositions(group);
    DecodeStep(url, s, i, out, room);
    if rest != [] {
      EncodedLength(url, rest);
      DecodeGroups(url, s, i + 4, rest, k, out + group, room);
      AppendAssociates(out, group, rest);
    }
  }

  lemma FirstGroup(b: seq<byte>)
    requires b != []
    ensures var m := Min(3, |b|);
            && 1 <= m <= 3 && m <= |b| && b[..m] + b[m..] == b && Pads(|b|) <= 2
            && (if b[m..] == [] then b[..m] == b else m == 3 && Pads(|b[m..]|) == Pads(|b|))
  {
  }

  lemma DecodeStep(url: bool, s: seq<byte>, i: nat, out: seq<byte>, room: nat)
    requires Read(url, s, i, 4).Some? && |Read(url, s, i, 4).value| == 4
    ensures var more := out + Bytes(Read(url, s, i, 4).value);
            DecodeFrom(url, s, i, out, room) ==
            if |more| > room then None else if i + 4 < |s| then DecodeFrom(url, s, i + 4, more, room) else Some(more)
  {
    hide Bytes;
    hide Read;
  }

  /** Where the first group and the rest of the encoded text are. */
  lemma GroupSplits(url: bool, s: seq<byte>, i: nat, b: seq<byte>, k: nat)
    requires b != [] && k <= Pads(|b|) && i <= |s| && k <= |EncodeGroups(url, b)|
    requires s[i..] == EncodeGroups(url, b)[..|EncodeGroups(url, b)| - k]
    ensures var m := Min(3, |b|); var p, rest := Positions(b[..m]), b[m..];
            var n := if rest == [] then 4 - k else 4;
            && i + n <= |s| && (forall j :: 0 <= j < n ==> s[i + j] == Symbol(url, p[j]))
            && (if rest == [] then |s| == i + n && forall j :: n <= j < 4 ==> p[j] == 64
                else k <= |EncodeGroups(url, rest)| && s[i + 4..] == EncodeGroups(url, rest)[..|EncodeGroups(url, rest)| - k])
  {
    var m := Min(3, |b|);
    var p, rest := Positions(b[..m]), b[m..];
    EncodedLength(url, rest);
    var symbols, more := Symbols(url, p), EncodeGroups(url, rest);
    assert EncodeGroups(url, b) == symbols + more;
    var n := if rest == [] then 4 - k else 4;
    hide Symbol;
    hide EncodeGroups;
    SymbolsThenMore(s, i, symbols, more, k);
  }

  lemma SymbolsThenMore(s: seq<byte>, i: nat, symbols: seq<byte>, more: seq<byte>, k: nat)
    requires |symbols| == 4 && i <= |s| && k <= 4 + |more| && s[i..] == (symbols + more)[..4 + |more| - k]
    ensures forall j :: 0 <= j < 4 && i + j < |s| ==> s[i + j] == symbols[j]
    ensures |s| == i + 4 + |more| - k && (k <= |more| ==> s[i + 4..] == more[..|more| - k])
  {
    forall j | 0 <= j < 4 && i + j < |s| ensures s[i + j] == symbols[j] {
      assert s[i..][j] == (symbols + more)[j];
    }
    if k <= |more| {
      assert s[i + 4..] == s[i..][4..];
    }
  }

  /** Decoding encoded bytes gives them back, for every byte string that is not empty and both
      alphabets, and for the url alphabet also when any of the padding has been stripped. */
  lemma DecodeEncode(url: bool, b: seq<byte>, k: nat)
    requires b != [] && k <= Pads(|b|) && (k > 0 ==> url)
    ensures var s := Encode(url, b).value;
            |s| == 4 * ((|b| + 2) / 3) && Decode(url, s[..|s| - k]) == Some(b)
  {
    hide DecodeFrom;
    hide EncodeGroups;
    var s := Encode(url, b).value;
    EncodedLength(url, b);
    var t := s[..|s| - k];
    assert t[0..] == t;
    DecodeGroups(url, t, 0, b, k, [], (3 * |t| + 3) / 4);
    AppendNothing(b);
  }

  lemma {:induction false} ReadPadding(url: bool, s: seq<byte>, i: nat, k: nat, j: nat)
    requires Read(url, s, i, k).Some? && j < k && i + j >= |s|
    ensures |Read(url, s, i, k).value| == k && Read(url, s, i, k).value[j] == 64
    decreases k
  {
    ReadLength(url, s, i, k);
    if i >= |s| {
      if j > 0 {
        ReadPadding(url, s, i, k - 1, j - 1);
      }
    } else {
      ReadPadding(url, s, i + 1, k - 1, j - 1);
    }
  }

  /** The output never runs out of the room computed beforehand. */
  lemma {:induction false} DecodeFits(url: bool, s: seq<byte>, i: nat, out: seq<byte>)
    requires i < |s| && i % 4 == 0 && |out| <= 3 * (i / 4) && (url || |s| % 4 == 0)
    ensures DecodeFrom(url, s, i, out, (3 * |s| + 3) / 4).Some?
    decreases |s| - i
  {
    hide OrByte;
    hide Read;
    ReadLength(url, s, i, 4);
    var p := Read(url, s, i, 4).value;
    var left := |s| - i;
    if left < 4 {
      ReadPadding(url, s, i, 4, 3);
      if left < 3 {
        ReadPadding(url, s, i, 4, 2);
      }
    }
    var more := out + Bytes(p);
    assert |more| <= (3 * |s| + 3) / 4;
    if i + 4 < |s| {
      DecodeFits(url, s, i + 4, more);
    }
  }

  lemma {:induction false} DecodeCutOff(s: seq<byte>, i: nat, out: seq<byte>, room: nat)
    requires i < |s| && i % 4 == 0 && |s| % 4 != 0
    ensures DecodeFrom(false, s, i, out, room) == None
    decreases |s| - i
  {
    hide Bytes;
    hide Read;
    ReadLength(false, s, i, 4);
    if i + 4 < |s| {
      var p := Read(false, s, i, 4).value;
      DecodeCutOff(s, i + 4, out + Bytes(p), room);
    }
  }

  /** Decoding throws exactly on empty input and, with the padded alphabet, on input that does not come
      in fours: neither an unknown byte nor the room in the output is ever the reason. */
  lemma DecodeThrowsIff(url: bool, s: seq<byte>)
    ensures Decode(url, s) == None <==> s == [] || (!url && |s| % 4 != 0)
  {
    if s == [] {
      ReadLength(url, s, 0, 4);
    } else if url || |s| % 4 == 0 {
      DecodeFits(url, s, 0, []);
    } else {
      DecodeCutOff(s, 0, [], (3 * |s| + 3) / 4);
    }
  }
}
