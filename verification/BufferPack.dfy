/** Packing integers into bytes as a format string says: directives with a repeat count, an element
    type and perhaps a key, in either byte order. The partner of packing is unpacking, and the length
    computed beforehand is the number of bytes written. */
module BufferPack {
  import opened Basics
  import opened Buffers
  import opened Numbers
  import opened Characters

  // ----------------------------------------------------------------- integers

  /** What the library knows of an integer type. */
  datatype Element = Element(len: nat, signed: bool, min: int, max: int)

  function ElementOf(kind: char): (el: Element)
    ensures 1 <= el.len <= 4
  {
    match kind
    case 'b' => Element(1, true, -0x80, 0x7F)
    case 'B' => Element(1, false, 0, 0xFF)
    case 'h' => Element(2, true, -0x8000, 0x7FFF)
    case 'H' => Element(2, false, 0, 0xFFFF)
    case 'i' => Element(4, true, -0x8000_0000, 0x7FFF_FFFF)
    case 'l' => Element(4, true, -0x8000_0000, 0x7FFF_FFFF)
    case _ => Element(4, false, 0, 0xFFFF_FFFF)
  }

  predicate IsInteger(kind: char) {
    kind in "bBhHiIlL"
  }

  /** The 32-bit integer that the bitwise operators work on. */
  function ToInt32(v: int): int {
    (v + 0x8000_0000) % 0x1_0000_0000 - 0x8000_0000
  }

  /** `v & 0xff` */
  function AndByte(v: int): byte {
    (ToInt32(v) % 256) as byte
  }

  /** `v >> 8` */
  function Shift8(v: int): int {
    ToInt32(v) / 256
  }

  function Clamp(el: Element, v: int): int {
    if v < el.min then el.min else if v > el.max then el.max else v
  }

  /** The bytes the loop of `_EnInt` writes from the least significant end; here in reading order. */
  function ShiftBytes(v: int, n: nat): (r: seq<byte>)
    ensures |r| == n
    decreases n
  {
    if n == 0 then [] else ShiftBytes(Shift8(v), n - 1) + [AndByte(v)]
  }

  /** Most significant byte first, or last. */
  function InOrder(big: bool, s: seq<byte>): (r: seq<byte>)
    ensures |r| == |s|
  {
    if big then s else Reversed(s)
  }

  function EncodeInt(el: Element, big: bool, v: int): (r: seq<byte>)
    ensures |r| == el.len
  {
    InOrder(big, ShiftBytes(Clamp(el, v), el.len))
  }

  function DecodeInt(el: Element, big: bool, s: seq<byte>): int
    requires |s| == el.len > 0
  {
    Interpret(el.signed, Pow2(el.len * 8 - 1), BigEndian(InOrder(big, s)))
  }

  /** The number with the sign bit `half` taken into account. */
  function Interpret(signed: bool, half: nat, rv: nat): int
    requires half > 0
  {
    if signed && rv / half % 2 == 1 then rv - 2 * half else rv
  }

  lemma ModPeriod(v: int, k: int, m: int)
    requires m > 0
    ensures (v + k * m) % m == v % m
  {
    assert (v / m + k) * m == v / m * m + k * m;
    DivModIs(v + k * m, m, v / m + k, v % m);
  }

  /** The bitwise operators see the number modulo 2 to the 32. */
  lemma WrapsAround(v: int) returns (k: int)
    ensures ToInt32(v) == v + k * 0x1_0000_0000
  {
    k := -((v + 0x8000_0000) / 0x1_0000_0000);
  }

  lemma ByteAndShift(v: int, m: nat, j: nat)
    requires m * j == 0x100_0000 && m > 0
    ensures AndByte(v) as int == v % 256 && Shift8(v) % m == v / 256 % m
  {
    var k := WrapsAround(v);
    ModPeriod(v, k * 0x100_0000, 256);
    DivModIs(v + k * 0x1_0000_0000, 256, v / 256 + k * 0x100_0000, v % 256);
    assert k * 0x100_0000 == k * j * m;
    ModPeriod(v / 256, k * j, m);
  }

  /** Shifting 32-bit integers gives the bytes of the two's complement. */
  lemma {:induction false} ShiftBytesAre(v: int, n: nat)
    requires n <= 4
    ensures ShiftBytes(v, n) == BigEndianBytes(Modulo(v, Pow256(n)), n)
    decreases n
  {
    if n > 0 {
      Pow256Pow2(3);
      var m := Pow256(n - 1);
      assert Pow256(3) == 0x100_0000 && Pow256(2) == 0x1_0000;
      ByteAndShift(v, m, Pow256(4 - n));
      ShiftBytesAre(Shift8(v), n - 1);
      DivModByte(v, m);
    }
  }

  lemma {:induction false} ReversedTwice(s: seq<byte>)
    ensures Reversed(Reversed(s)) == s
  {
    var r := Reversed(s);
    assert forall i :: 0 <= i < |s| ==> Reversed(r)[i] == r[|s| - 1 - i] == s[i];
  }

  lemma ElementRange(kind: char)
    ensures var el := ElementOf(kind); var half: int := Pow2(8 * el.len - 1);
            && 1 <= el.len <= 4 && Pow2(8 * el.len) == 2 * half
            && (if el.signed then el.min == -half && el.max == half - 1 else el.min == 0 && el.max == 2 * half - 1)
  {
    EightBits();
    assert Pow2(7) == 128;
    Pow2Plus(8, 7);
    Pow2Plus(16, 15);
    Pow2Plus(8, 8);
  }

  /** Reading a number of the type's range back from its two's complement. */
  lemma TwosComplement(signed: bool, half: int, c: int)
    requires half > 0 && if signed then -half <= c < half else 0 <= c < 2 * half
    ensures Interpret(signed, half, Modulo(c, 2 * half)) == c
  {
    if c < 0 {
      DivModIs(c, 2 * half, -1, c + 2 * half);
      DivModIs(c + 2 * half, half, 1, c + half);
    } else {
      DivModIs(c, 2 * half, 0, c);
      if c < half {
        DivModIs(c, half, 0, c);
      }
    }
  }

  /** Decoding an encoded integer gives it back, clamped to the range of its type: for every integer
      type and both byte orders. */
  lemma IntRoundTrip(kind: char, big: bool, v: int)
    ensures var el := ElementOf(kind); el.len > 0 && DecodeInt(el, big, EncodeInt(el, big, v)) == Clamp(el, v)
  {
    hide *;
    var el := ElementOf(kind);
    ElementRange(kind);
    EncodedWord(el, big, v);
    Pow256Pow2(el.len);
    ClampInRange(el, v);
    DecodeIs(el, big, EncodeInt(el, big, v));
    TwosComplement(el.signed, Pow2(8 * el.len - 1), Clamp(el, v));
  }

  lemma DecodeIs(el: Element, big: bool, s: seq<byte>)
    requires |s| == el.len > 0
    ensures DecodeInt(el, big, s) == Interpret(el.signed, Pow2(8 * el.len - 1), BigEndian(InOrder(big, s)))
  {
  }

  lemma ClampInRange(el: Element, v: int)
    requires el.min <= el.max
    ensures el.min <= Clamp(el, v) <= el.max
  {
  }

  lemma EncodedWord(el: Element, big: bool, v: int)
    requires el.len <= 4
    ensures BigEndian(InOrder(big, EncodeInt(el, big, v))) == Modulo(Clamp(el, v), Pow256(el.len))
  {
    var c, n := Clamp(el, v), el.len;
    hide Clamp;
    ReversedTwice(ShiftBytes(c, n));
    ShiftBytesAre(c, n);
    hide Modulo;
    BigEndianInverse(Modulo(c, Pow256(n)), n);
  }

  // ------------------------------------------------------------------ formats

  /** A repeat count, a type and perhaps a key in parentheses. */
  datatype Directive = Directive(count: nat, kind: char, key: Option<string>)

  predicate IsKind(c: char) {
    c in "AxcbBhHsSfdiIlL"
  }

  function RunOf(p: char -> bool, s: string): (n: nat)
    ensures n <= |s|
  {
    if s == "" || !p(s[0]) then 0 else 1 + RunOf(p, s[1..])
  }

  /** A key in parentheses at the beginning. */
  function Key(s: string): (k: Option<string>)
    ensures k.Some? ==> |k.value| + 2 <= |s|
  {
    if s == "" || s[0] != '(' then None
    else
      var n := RunOf(IsAlnum, s[1..]);
      if n > 0 && n + 1 < |s| && s[n + 1] == ')' then Some(s[1..n + 1]) else None
  }

  /** The matches of the pattern in a format, one after the other. What does not match is skipped. */
  function Directives(fmt: string): seq<Directive>
    decreases |fmt|
  {
    if fmt == "" then []
    else
      var n := RunOf(IsDigit, fmt);
      if n < |fmt| && IsKind(fmt[n]) then
        var key := Key(fmt[n + 1..]);
        var rest := if key.Some? then fmt[n + 1..][|key.value| + 2..] else fmt[n + 1..];
        [Directive(if n == 0 then 1 else NumberOf(fmt[..n]), fmt[n], key)] + Directives(rest)
      else Directives(fmt[1..])
  }

  predicate BigEndianFormat(fmt: string) {
    fmt == "" || fmt[0] != '<'
  }

  /** The formats modelled: integers and padding. */
  predicate Supported(d: Directive) {
    IsInteger(d.kind) || d.kind == 'x'
  }

  /** `n` times the size of an element. */
  function Span(el: Element, n: nat): (r: nat)
    ensures r == n * el.len
  {
    if n == 0 then 0
    else
      assert n * el.len == (n - 1) * el.len + el.len;
      Span(el, n - 1) + el.len
  }

  /** The bytes a directive takes. */
  function Extent(d: Directive): nat {
    if d.kind == 'x' then d.count else Span(ElementOf(d.kind), d.count)
  }

  function CalcLength(ds: seq<Directive>): nat {
    if ds == [] then 0 else Extent(ds[0]) + CalcLength(ds[1..])
  }

  /** How many values the directives take. */
  function Needed(ds: seq<Directive>): nat {
    if ds == [] then 0 else (if ds[0].kind == 'x' then 0 else ds[0].count) + Needed(ds[1..])
  }

  // ---------------------------------------------------------- packing, unpacking

  function Put(a: seq<byte>, p: nat, s: seq<byte>): (r: seq<byte>)
    requires p + |s| <= |a|
    ensures |r| == |a|
  {
    a[..p] + s + a[p + |s|..]
  }

  /** `_PackSeries`: `n` values from index `i` on. */
  function PackSeries(el: Element, big: bool, n: nat, values: seq<int>, i: nat): (r: seq<byte>)
    requires i + n <= |values|
    ensures |r| == Span(el, n)
  {
    if n == 0 then [] else PackSeries(el, big, n - 1, values, i) + EncodeInt(el, big, values[i + n - 1])
  }

  /** `packTo`, none when it returns false. */
  function PackTo(ds: seq<Directive>, big: bool, a: seq<byte>, p: nat, values: seq<int>, i: nat): (r: Option<seq<byte>>)
    requires forall d <- ds :: Supported(d)
    ensures r.Some? ==> |r.value| == |a|
  {
    if ds == [] then Some(a)
    else
      var d := ds[0];
      var size := Extent(d);
      if p + size > |a| then None
      else if d.kind == 'x' then PackTo(ds[1..], big, Put(a, p, Zeros(d.count)), p + size, values, i)
      else if i + d.count > |values| then None
      else PackTo(ds[1..], big, Put(a, p, PackSeries(ElementOf(d.kind), big, d.count, values, i)), p + size, values, i + d.count)
  }

  function Pack(fmt: string, values: seq<int>): Option<seq<byte>>
    requires forall d <- Directives(fmt) :: Supported(d)
  {
    var ds := Directives(fmt);
    PackTo(ds, BigEndianFormat(fmt), Zeros(CalcLength(ds)), 0, values, 0)
  }

  function UnpackSeries(el: Element, big: bool, n: nat, a: seq<byte>, p: nat): (r: seq<int>)
    requires el.len > 0 && p + Span(el, n) <= |a|
    ensures |r| == n
  {
    if n == 0 then []
    else UnpackSeries(el, big, n - 1, a, p) + [DecodeInt(el, big, a[p + Span(el, n - 1)..p + Span(el, n)])]
  }

  function UnpackFrom(ds: seq<Directive>, big: bool, a: seq<byte>, p: nat): Option<seq<int>>
    requires forall d <- ds :: Supported(d)
  {
    if ds == [] then Some([])
    else
      var d := ds[0];
      var size := Extent(d);
      if p + size > |a| then None
      else
        var rest := UnpackFrom(ds[1..], big, a, p + size);
        if rest == None || d.kind == 'x' then rest
        else Some(UnpackSeries(ElementOf(d.kind), big, d.count, a, p) + rest.value)
  }

  function Unpack(fmt: string, a: seq<byte>): Option<seq<int>>
    requires forall d <- Directives(fmt) :: Supported(d)
  {
    UnpackFrom(Directives(fmt), BigEndianFormat(fmt), a, 0)
  }

  // ---------------------------------------------------------------- round trip

  /** The values a series stands for, clamped to the range of its type. */
  function ClampSeries(el: Element, n: nat, values: seq<int>, i: nat): seq<int>
    requires i + n <= |values|
  {
    if n == 0 then [] else ClampSeries(el, n - 1, values, i) + [Clamp(el, values[i + n - 1])]
  }

  function Clamped(ds: seq<Directive>, values: seq<int>, i: nat): seq<int>
    requires i + Needed(ds) <= |values|
  {
    if ds == [] then []
    else if ds[0].kind == 'x' then Clamped(ds[1..], values, i)
    else ClampSeries(ElementOf(ds[0].kind), ds[0].count, values, i) + Clamped(ds[1..], values, i + ds[0].count)
  }

  /** The bytes of one directive. */
  function Field(d: Directive, big: bool, values: seq<int>, i: nat): (r: seq<byte>)
    requires d.kind == 'x' || i + d.count <= |values|
    ensures |r| == Extent(d)
  {
    if d.kind == 'x' then Zeros(d.count) else PackSeries(ElementOf(d.kind), big, d.count, values, i)
  }

  function Advance(d: Directive, i: nat): nat {
    if d.kind == 'x' then i else i + d.count
  }

  /** The bytes of a format. */
  function Fields(ds: seq<Directive>, big: bool, values: seq<int>, i: nat): (r: seq<byte>)
    requires i + Needed(ds) <= |values|
    ensures |r| == CalcLength(ds)
  {
    if ds == [] then [] else Field(ds[0], big, values, i) + Fields(ds[1..], big, values, Advance(ds[0], i))
  }

  ghost predicate AllSupported(ds: seq<Directive>) {
    forall d <- ds :: Supported(d)
  }

  lemma {:induction false} PackWrites(ds: seq<Directive>, big: bool, a: seq<byte>, p: nat, values: seq<int>, i: nat)
    requires AllSupported(ds) && p + CalcLength(ds) <= |a| && i <= |values|
    ensures PackTo(ds, big, a, p, values, i) ==
            if i + Needed(ds) <= |values| then Some(Put(a, p, Fields(ds, big, values, i))) else None
    decreases |ds|
  {
    hide ElementOf;
    hide Extent;
    hide PackSeries;
    hide Put;
    if ds == [] {
      PutNothing(a, p);
    } else {
      var d, n := ds[0], Advance(ds[0], i);
      assert d in ds;
      if n <= |values| {
        var field := Field(d, big, values, i);
        var a' := Put(a, p, field);
        PackWrites(ds[1..], big, a', p + |field|, values, n);
        if n + Needed(ds[1..]) <= |values| {
          PutPut(a, p, field, Fields(ds[1..], big, values, n));
        }
      }
    }
  }

  lemma PutNothing(a: seq<byte>, p: nat)
    requires p <= |a|
    ensures Put(a, p, []) == a
  {
  }

  lemma PutPut(a: seq<byte>, p: nat, s: seq<byte>, t: seq<byte>)
    requires p + |s| + |t| <= |a|
    ensures Put(Put(a, p, s), p + |s|, t) == Put(a, p, s + t)
  {
  }

  lemma {:induction false} SeriesRead(kind: char, big: bool, n: nat, a: seq<byte>, p: nat, values: seq<int>, i: nat)
    requires i + n <= |values| && var el := ElementOf(kind);
             el.len > 0 && p + Span(el, n) <= |a| && a[p..p + Span(el, n)] == PackSeries(el, big, n, values, i)
    ensures UnpackSeries(ElementOf(kind), big, n, a, p) == ClampSeries(ElementOf(kind), n, values, i)
  {
    var el := ElementOf(kind);
    hide ElementOf;
    hide DecodeInt;
    hide EncodeInt;
    hide Clamp;
    if n > 0 {
      var before := Span(el, n - 1);
      FieldSplits(a, p, before, before + el.len, PackSeries(el, big, n - 1, values, i), EncodeInt(el, big, values[i + n - 1]));
      SeriesRead(kind, big, n - 1, a, p, values, i);
      IntRoundTrip(kind, big, values[i + n - 1]);
    }
  }

  lemma {:induction false} UnpackReads(ds: seq<Directive>, big: bool, a: seq<byte>, p: nat, values: seq<int>, i: nat)
    requires AllSupported(ds) && i + Needed(ds) <= |values|
    requires p + CalcLength(ds) <= |a| && a[p..p + CalcLength(ds)] == Fields(ds, big, values, i)
    ensures UnpackFrom(ds, big, a, p) == Some(Clamped(ds, values, i))
    decreases |ds|
  {
    hide ElementOf;
    hide Extent;
    hide Fields;
    hide UnpackSeries;
    hide ClampSeries;
    if ds != [] {
      var d := ds[0];
      assert d in ds;
      FieldsSplit(ds, big, a, p, values, i);
      UnpackReads(ds[1..], big, a, p + Extent(d), values, Advance(d, i));
      if d.kind != 'x' {
        FieldRead(d, big, a, p, values, i);
      }
    }
  }

  lemma FieldsSplit(ds: seq<Directive>, big: bool, a: seq<byte>, p: nat, values: seq<int>, i: nat)
    requires ds != [] && i + Needed(ds) <= |values|
    requires p + CalcLength(ds) <= |a| && a[p..p + CalcLength(ds)] == Fields(ds, big, values, i)
    ensures var d := ds[0]; var n := Advance(d, i); var q := p + Extent(d); var rest := ds[1..];
            && n + Needed(rest) <= |values| && q + CalcLength(rest) == p + CalcLength(ds)
            && a[p..q] == Field(d, big, values, i) && a[q..q + CalcLength(rest)] == Fields(rest, big, values, n)
  {
    hide Extent;
    hide Field;
    var d := ds[0];
    FieldSplits(a, p, Extent(d), CalcLength(ds), Field(d, big, values, i), Fields(ds[1..], big, values, Advance(d, i)));
  }

  lemma FieldRead(d: Directive, big: bool, a: seq<byte>, p: nat, values: seq<int>, i: nat)
    requires Supported(d) && d.kind != 'x' && i + d.count <= |values|
    requires p + Extent(d) <= |a| && a[p..p + Extent(d)] == Field(d, big, values, i)
    ensures var el := ElementOf(d.kind);
            && el.len > 0 && Extent(d) == Span(el, d.count)
            && UnpackSeries(el, big, d.count, a, p) == ClampSeries(el, d.count, values, i)
  {
    ElementRange(d.kind);
    hide ElementOf;
    SeriesRead(d.kind, big, d.count, a, p, values, i);
  }

  lemma FieldSplits(a: seq<byte>, p: nat, size: nat, all: nat, s: seq<byte>, t: seq<byte>)
    requires |s| == size && |t| == all - size && p + all <= |a| && a[p..p + all] == s + t
    ensures a[p..p + size] == s && a[p + size..p + all] == t
  {
    assert a[p..p + size] == a[p..p + all][..size];
    assert a[p + size..p + all] == a[p..p + all][size..];
  }

  /** Packing succeeds exactly when there are values enough; then it fills the computed length, and
      unpacking gives the values back, clamped: for every format of integers and padding. */
  lemma PackUnpack(fmt: string, values: seq<int>)
    requires AllSupported(Directives(fmt))
    ensures var ds := Directives(fmt);
            && (Pack(fmt, values).Some? <==> |values| >= Needed(ds))
            && (|values| >= Needed(ds) ==>
                |Pack(fmt, values).value| == CalcLength(ds) && Unpack(fmt, Pack(fmt, values).value) == Some(Clamped(ds, values, 0)))
  {
    var ds, big := Directives(fmt), BigEndianFormat(fmt);
    var blank := Zeros(CalcLength(ds));
    hide Directives;
    PackWrites(ds, big, blank, 0, values, 0);
    if |values| >= Needed(ds) {
      var bytes := Fields(ds, big, values, 0);
      assert Put(blank, 0, bytes) == bytes;
      assert bytes[0..CalcLength(ds)] == bytes;
      UnpackReads(ds, big, bytes, 0, values, 0);
    }
  }
}
