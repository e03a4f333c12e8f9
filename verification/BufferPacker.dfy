/** The packer as the object that changes: its element type and byte order are set by the format, and
    its loops write into and read from byte arrays. Each method leaves its array as the function on
    byte strings of the same name says, and changes nothing outside its slots. */
module BufferPacker {
  import opened Basics
  import opened Buffers
  import opened Numbers
  import opened BufferPack

  lemma PutIs(a: seq<byte>, p: nat, s: seq<byte>, b: seq<byte>)
    requires p + |s| <= |a| == |b|
    requires forall i :: 0 <= i < |a| ==> b[i] == if p <= i < p + |s| then s[i - p] else a[i]
    ensures b == Put(a, p, s)
  {
  }

  /** Bytes written from the least significant end, `written` of them, at `p`. */
  function Slot(big: bool, len: nat, k: nat): (r: nat)
    requires k < len
    ensures r < len
  {
    if big then len - 1 - k else k
  }

  /** The last `k` bytes of `s` are in their places. */
  ghost predicate LastPut(a: seq<byte>, p: nat, big: bool, s: seq<byte>, k: nat)
    requires k <= |s| && p + |s| <= |a|
  {
    forall j :: 0 <= j < k ==> a[p + Slot(big, |s|, j)] == s[|s| - 1 - j]
  }

  ghost predicate SameOutside(was: seq<byte>, now: seq<byte>, p: nat, n: nat) {
    |was| == |now| && forall j :: 0 <= j < |was| && !(p <= j < p + n) ==> now[j] == was[j]
  }

  lemma NothingPut(was: seq<byte>, p: nat, n: nat, big: bool, s: seq<byte>)
    requires p + |s| <= |was|
    ensures SameOutside(was, was, p, n) && LastPut(was, p, big, s, 0)
  {
  }

  /** Writing the next byte from the end at its slot. */
  lemma PutOne(was: seq<byte>, a: seq<byte>, p: nat, n: nat, big: bool, s: seq<byte>, k: nat, i: nat)
    requires n == |s| && p + n <= |a| && k < n && i == (if big then n - 1 - k else k)
    requires SameOutside(was, a, p, n) && LastPut(a, p, big, s, k)
    ensures SameOutside(was, a[p + i := s[n - 1 - k]], p, n) && LastPut(a[p + i := s[n - 1 - k]], p, big, s, k + 1)
  {
  }

  lemma SlotsFilled(a: seq<byte>, b: seq<byte>, p: nat, big: bool, s: seq<byte>)
    requires p + |s| <= |a| == |b| && SameOutside(a, b, p, |s|) && LastPut(b, p, big, s, |s|)
    ensures b == Put(a, p, InOrder(big, s))
  {
    forall i | p <= i < p + |s| ensures b[i] == InOrder(big, s)[i - p] {
      var k := if big then |s| - 1 - (i - p) else i - p;
      assert p + Slot(big, |s|, k) == i;
    }
    PutIs(a, p, InOrder(big, s), b);
  }

  class Packer {
    var el: Element
    var bBE: bool

    constructor ()
    {
      el, bBE := ElementOf('b'), true;
    }

    /** `_EnInt` */
    method EnInt(a: array<byte>, p: nat, value: int)
      requires p + el.len <= a.Length
      modifies a
      ensures a[..] == Put(old(a[..]), p, EncodeInt(el, bBE, value))
    {
      hide ShiftBytes;
      hide InOrder;
      hide Put;
      hide AndByte;
      hide Shift8;
      hide Slot;
      hide SameOutside;
      hide LastPut;
      ghost var was := a[..];
      var v := if value < el.min then el.min else if value > el.max then el.max else value;
      ghost var all := ShiftBytes(v, el.len);
      var lsb := if bBE then el.len - 1 else 0;
      var nsb := if bBE then -1 else 1;
      var stop := lsb + nsb * el.len;
      var i := lsb;
      ghost var k := 0;
      NothingPut(was, p, el.len, bBE, all);
      assert all[..el.len] == all;
      while i != stop
        invariant 0 <= k <= el.len && i == (if bBE then el.len - 1 - k else k)
        invariant ShiftBytes(v, el.len - k) == all[..el.len - k]
        invariant SameOutside(was, a[..], p, el.len) && LastPut(a[..], p, bBE, all, k)
        decreases el.len - k
      {
        ShiftStep(v, el.len - k, all);
        PutOne(was, a[..], p, el.len, bBE, all, k, i);
        a[p + i] := AndByte(v);
        i, k := i + nsb, k + 1;
        v := Shift8(v);
      }
      SlotsFilled(was, a[..], p, bBE, all);
    }

    /** `_DeInt` */
    method DeInt(a: array<byte>, p: nat) returns (rv: int)
      requires 0 < el.len && p + el.len <= a.Length
      ensures rv == DecodeInt(el, bBE, a[..][p..p + el.len])
    {
      hide BigEndian;
      hide InOrder;
      hide Interpret;
      hide Pow2;
      ghost var bytes := a[..][p..p + el.len];
      ghost var s := InOrder(bBE, bytes);
      var lsb := if bBE then el.len - 1 else 0;
      var nsb := if bBE then -1 else 1;
      var stop := lsb + nsb * el.len;
      var i, f := lsb, 1;
      ghost var k := 0;
      rv := 0;
      BigEndianBounds(s);
      while i != stop
        invariant 0 <= k <= el.len && i == lsb + nsb * k && stop == lsb + nsb * el.len
        invariant f == Pow256(k) && rv == BigEndian(s[el.len - k..])
        decreases el.len - k
      {
        SlotRead(bBE, bytes, k);
        BigEndianStep(s, k);
        assert bytes[i] == a[p + i];
        rv := rv + a[p + i] as int * f;
        i, f, k := i + nsb, f * 256, k + 1;
      }
      rv := Interpret(el.signed, Pow2(el.len * 8 - 1), rv);
    }
    /** `_PackSeries` */
    method PackValues(n: nat, a: array<byte>, p: nat, values: seq<int>, i: nat)
      requires p + Span(el, n) <= a.Length && i + n <= |values|
      modifies a
      ensures a[..] == Put(old(a[..]), p, PackSeries(el, bBE, n, values, i))
    {
      hide EncodeInt;
      hide Put;
      hide PackSeries;
      hide Span;
      var o := 0;
      PutNothing(a[..], p);
      SeriesStart(el, bBE, values, i);
      while o < n
        invariant o <= n && a[..] == Put(old(a[..]), p, PackSeries(el, bBE, o, values, i))
        invariant Span(el, o) <= Span(el, n)
      {
        SpanGrows(el, o, n);
        SeriesStep(old(a[..]), p, el, bBE, o, values, i);
        var at := o * el.len;
        EnInt(a, p + at, values[i + o]);
        o := o + 1;
      }
    }

    /** `_UnpackSeries` */
    method UnpackValues(n: nat, a: array<byte>, p: nat) returns (rv: seq<int>)
      requires el.len > 0 && p + Span(el, n) <= a.Length
      ensures rv == UnpackSeries(el, bBE, n, a[..], p)
    {
      hide DecodeInt;
      rv := [];
      var i := 0;
      while i < n
        invariant i <= n && p + Span(el, i) <= a.Length && rv == UnpackSeries(el, bBE, i, a[..], p)
      {
        SpanGrows(el, i, n);
        var v := DeInt(a, p + i * el.len);
        rv := rv + [v];
        i := i + 1;
      }
    }

    /** The number of bytes of a format. */
    method Length(fmt: string) returns (sum: nat)
      ensures sum == CalcLength(Directives(fmt))
    {
      hide Directives;
      hide Extent;
      var ds := Directives(fmt);
      sum := 0;
      var i := 0;
      SuffixEnds(ds);
      while i < |ds|
        invariant i <= |ds| && sum + CalcLength(ds[i..]) == CalcLength(ds)
      {
        SuffixStep(ds, i);
        sum := sum + Extent(ds[i]);
        i := i + 1;
      }
    }

    /** `packTo` */
    method PackInto(fmt: string, a: array<byte>, start: nat, values: seq<int>) returns (ok: bool)
      requires AllSupported(Directives(fmt))
      modifies this, a
      ensures var r := PackTo(Directives(fmt), BigEndianFormat(fmt), old(a[..]), start, values, 0);
              ok == r.Some? && (ok ==> a[..] == r.value)
    {
      hide Directives;
      hide Put;
      hide PackTo;
      hide PackSeries;
      hide ElementOf;
      bBE := fmt == "" || fmt[0] != '<';
      var ds := Directives(fmt);
      ghost var goal := PackTo(ds, bBE, a[..], start, values, 0);
      var k, p, i := 0, start, 0;
      SuffixEnds(ds);
      while k < |ds|
        invariant k <= |ds| && p >= 0 && i >= 0 && bBE == BigEndianFormat(fmt)
        invariant goal == PackTo(ds[k..], bBE, a[..], p, values, i)
      {
        var d := ds[k];
        SuffixStep(ds, k);
        PackTurn(ds[k..], bBE, a[..], p, values, i);
        if p + Extent(d) > a.Length { return false; }
        if d.kind == 'x' {
          Pad(a, p, d.count);
        } else {
          el := ElementOf(d.kind);
          if i + d.count > |values| { return false; }
          PackValues(d.count, a, p, values, i);
          i := i + d.count;
        }
        p := p + Extent(d);
        k := k + 1;
      }
      PackEnds(bBE, a[..], p, values, i);
      return true;
    }

    method Pad(a: array<byte>, p: nat, n: nat)
      requires p + n <= a.Length
      modifies a
      ensures a[..] == Put(old(a[..]), p, Zeros(n))
    {
      var j := 0;
      while j < n
        invariant j <= n && |Zeros(j)| == j
        invariant forall i :: 0 <= i < a.Length ==> a[i] == if p <= i < p + j then Zeros(j)[i - p] else old(a[i])
      {
        a[p + j] := 0;
        j := j + 1;
      }
      PutIs(old(a[..]), p, Zeros(n), a[..]);
    }

    /** `pack` */
    method PackNew(fmt: string, values: seq<int>) returns (a: array<byte>, ok: bool)
      requires AllSupported(Directives(fmt))
      modifies this
      ensures var r := Pack(fmt, values); fresh(a) && ok == r.Some? && (ok ==> a[..] == r.value)
    {
      hide Directives;
      hide PackTo;
      var n := Length(fmt);
      a := NewBuffer(n);
      ZerosAre(a[..]);
      ok := PackInto(fmt, a, 0, values);
    }

    /** `unpack`, none when there are not enough bytes. */
    method UnpackAll(fmt: string, a: array<byte>) returns (rv: Option<seq<int>>)
      requires AllSupported(Directives(fmt))
      modifies this
      ensures rv == Unpack(fmt, a[..])
    {
      hide Directives;
      hide UnpackFrom;
      hide UnpackSeries;
      hide Span;
      bBE := fmt == "" || fmt[0] != '<';
      var ds := Directives(fmt);
      ghost var bytes := a[..];
      var k, p := 0, 0;
      var list: seq<int> := [];
      SuffixEnds(ds);
      UnpackBegins(UnpackFrom(ds, bBE, bytes, 0));
      while k < |ds|
        invariant k <= |ds| && p >= 0 && bBE == BigEndianFormat(fmt)
        invariant UnpackFrom(ds, bBE, bytes, 0) == After(list, UnpackFrom(ds[k..], bBE, bytes, p))
      {
        var d := ds[k];
        SuffixStep(ds, k);
        UnpackTurn(ds[k..], bBE, bytes, p, list);
        if p + Extent(d) > a.Length { return None; }
        if d.kind != 'x' {
          el := ElementOf(d.kind);
          var series := UnpackValues(d.count, a, p);
          list := list + series;
        }
        p := p + Extent(d);
        k := k + 1;
      }
      UnpackEnds(bBE, bytes, p, list);
      return Some(list);
    }
  }

  lemma {:induction false} SpanGrows(el: Element, o: nat, n: nat)
    requires o < n
    ensures Span(el, o) == o * el.len && Span(el, o + 1) == Span(el, o) + el.len && Span(el, o) + el.len <= Span(el, n)
  {
    if o + 1 < n {
      SpanGrows(el, o, n - 1);
    }
  }

  lemma SeriesStart(el: Element, big: bool, values: seq<int>, i: nat)
    requires i <= |values|
    ensures PackSeries(el, big, 0, values, i) == [] && Span(el, 0) == 0
  {
  }

  lemma SeriesStep(a: seq<byte>, p: nat, el: Element, big: bool, o: nat, values: seq<int>, i: nat)
    requires i + o < |values| && p + Span(el, o) + el.len <= |a|
    ensures |PackSeries(el, big, o + 1, values, i)| == Span(el, o) + el.len
    ensures Put(a, p, PackSeries(el, big, o + 1, values, i)) ==
            Put(Put(a, p, PackSeries(el, big, o, values, i)), p + Span(el, o), EncodeInt(el, big, values[i + o]))
  {
    hide EncodeInt;
    PutPut(a, p, PackSeries(el, big, o, values, i), EncodeInt(el, big, values[i + o]));
  }

  lemma ZerosAre(a: seq<byte>)
    requires forall i :: 0 <= i < |a| ==> a[i] == 0
    ensures a == Zeros(|a|)
  {
    if a != [] {
      ZerosAre(a[..|a| - 1]);
    }
  }

  lemma PackTurn(ds: seq<Directive>, big: bool, a: seq<byte>, p: nat, values: seq<int>, i: nat)
    requires AllSupported(ds) && ds != []
    ensures var d := ds[0];
            PackTo(ds, big, a, p, values, i) ==
            if p + Extent(d) > |a| then None
            else if d.kind == 'x' then PackTo(ds[1..], big, Put(a, p, Zeros(d.count)), p + Extent(d), values, i)
            else if i + d.count > |values| then None
            else PackTo(ds[1..], big, Put(a, p, PackSeries(ElementOf(d.kind), big, d.count, values, i)), p + Extent(d), values, i + d.count)
  {
    hide Put;
    hide ElementOf;
  }

  lemma PackEnds(big: bool, a: seq<byte>, p: nat, values: seq<int>, i: nat)
    ensures PackTo([], big, a, p, values, i) == Some(a)
  {
  }

  /** What has been read, before what is still to be read. */
  ghost function After(list: seq<int>, rest: Option<seq<int>>): Option<seq<int>> {
    if rest == None then None else Some(list + rest.value)
  }

  lemma UnpackBegins(rest: Option<seq<int>>)
    ensures After([], rest) == rest
  {
    if rest.Some? {
      AppendNothing(rest.value);
    }
  }

  lemma UnpackTurn(ds: seq<Directive>, big: bool, a: seq<byte>, p: nat, list: seq<int>)
    requires AllSupported(ds) && ds != []
    ensures var d := ds[0];
            After(list, UnpackFrom(ds, big, a, p)) ==
            if p + Extent(d) > |a| then None
            else if d.kind == 'x' then After(list, UnpackFrom(ds[1..], big, a, p + Extent(d)))
            else After(list + UnpackSeries(ElementOf(d.kind), big, d.count, a, p), UnpackFrom(ds[1..], big, a, p + Extent(d)))
  {
    var d := ds[0];
    if p + Extent(d) <= |a| && d.kind != 'x' {
      var rest := UnpackFrom(ds[1..], big, a, p + Extent(d));
      if rest.Some? {
        AppendAssociates(list, UnpackSeries(ElementOf(d.kind), big, d.count, a, p), rest.value);
      }
    }
  }

  lemma UnpackEnds(big: bool, a: seq<byte>, p: nat, list: seq<int>)
    ensures After(list, UnpackFrom([], big, a, p)) == Some(list)
  {
    AppendNothing(list);
  }

  lemma SlotRead(big: bool, t: seq<byte>, k: nat)
    requires k < |t|
    ensures InOrder(big, t)[|t| - 1 - k] == t[Slot(big, |t|, k)]
  {
  }

  lemma BigEndianStep(s: seq<byte>, k: nat)
    requires k < |s|
    ensures BigEndian(s[|s| - 1 - k..]) == s[|s| - 1 - k] as nat * Pow256(k) + BigEndian(s[|s| - k..])
  {
    var b := s[|s| - 1 - k];
    assert s[|s| - 1 - k..] == [b] + s[|s| - k..];
    BigEndianCons(b, s[|s| - k..]);
  }

  lemma BigEndianBounds(s: seq<byte>)
    ensures BigEndian(s[|s|..]) == 0 && s[0..] == s
  {
  }

  lemma ShiftStep(v: int, n: nat, all: seq<byte>)
    requires 0 < n <= |all| && ShiftBytes(v, n) == all[..n]
    ensures AndByte(v) == all[n - 1] && ShiftBytes(Shift8(v), n - 1) == all[..n - 1]
  {
    assert all[..n][n - 1] == all[n - 1];
    assert all[..n][..n - 1] == all[..n - 1];
    assert (ShiftBytes(Shift8(v), n - 1) + [AndByte(v)])[..n - 1] == ShiftBytes(Shift8(v), n - 1);
  }
}
