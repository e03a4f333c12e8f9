/** What packing writes, said from the format as it is spelled: the fields in order, every number in
    two's complement with the most significant byte first, or last when the format begins with "<". */
module BufferFormats {
  import opened Basics
  import opened Buffers
  import opened Numbers
  import opened Characters
  import opened BufferPack

  // ------------------------------------------------------------------ spelling

  /** A directive as it is written. The numeral may be left out for one. */
  datatype Item = Item(numeral: string, count: nat, kind: char, key: Option<string>)

  ghost predicate ItemOk(it: Item) {
    && (if it.numeral == "" then it.count == 1 else Writes(it.numeral, 10, it.count))
    && it.kind in "bBhHiIlLx"
    && (it.key.Some? ==> it.key.value != "" && forall i :: 0 <= i < |it.key.value| ==> IsAlnum(it.key.value[i]))
  }

  ghost predicate ItemsOk(items: seq<Item>) {
    forall i :: 0 <= i < |items| ==> ItemOk(items[i])
  }

  function KeyText(key: Option<string>): string {
    match key
    case None => ""
    case Some(k) => "(" + (k + ")")
  }

  function FormatText(items: seq<Item>): string {
    if items == [] then ""
    else items[0].numeral + ([items[0].kind] + (KeyText(items[0].key) + FormatText(items[1..])))
  }

  function Meant(items: seq<Item>): seq<Directive> {
    if items == [] then [] else [Directive(items[0].count, items[0].kind, items[0].key)] + Meant(items[1..])
  }

  lemma {:induction false} RunOfIs(p: char -> bool, a: string, b: string)
    requires (forall i :: 0 <= i < |a| ==> p(a[i])) && (b == "" || !p(b[0]))
    ensures RunOf(p, a + b) == |a|
    decreases |a|
  {
    if a == "" {
      assert a + b == b;
    } else {
      assert (a + b)[0] == a[0] && (a + b)[1..] == a[1..] + b;
      RunOfIs(p, a[1..], b);
    }
  }

  lemma KeyRead(key: Option<string>, rest: string)
    requires key.Some? ==> key.value != "" && forall i :: 0 <= i < |key.value| ==> IsAlnum(key.value[i])
    requires key == None && rest != "" ==> rest[0] != '('
    ensures var s := KeyText(key) + rest;
            Key(s) == key && (if key.Some? then |s| >= |key.value| + 2 && s[|key.value| + 2..] == rest else s == rest)
  {
    var s := KeyText(key) + rest;
    if key.Some? {
      var k := key.value;
      assert s == ['('] + (k + (")" + rest));
      assert s[1..] == k + (")" + rest);
      RunOfIs(IsAlnum, k, ")" + rest);
      hide RunOf;
      hide IsAlnum;
      assert s[|k| + 1] == ')' && s[1..|k| + 1] == k && s[|k| + 2..] == rest;
    }
  }

  ghost predicate BeginsWithKey(s: string, k: string) {
    && k != "" && (forall i :: 0 <= i < |k| ==> IsAlnum(k[i]))
    && KeyText(Some(k)) <= s
  }

  /** A key is letters and digits in parentheses, and not empty. */
  lemma KeyIff(s: string)
    ensures Key(s) == None <==> forall k :: !BeginsWithKey(s, k)
    ensures Key(s).Some? ==> BeginsWithKey(s, Key(s).value)
  {
    if Key(s).Some? {
      var k := Key(s).value;
      RunAll(IsAlnum, s[1..]);
      assert s[..|k| + 2] == "(" + (k + ")");
      assert BeginsWithKey(s, k);
    }
    forall k | BeginsWithKey(s, k) ensures Key(s) == Some(k) {
      KeyRead(Some(k), s[|k| + 2..]);
      assert s == KeyText(Some(k)) + s[|k| + 2..];
    }
  }

  lemma {:induction false} RunAll(p: char -> bool, s: string)
    ensures forall i :: 0 <= i < RunOf(p, s) ==> p(s[i])
  {
    if RunOf(p, s) > 0 {
      RunAll(p, s[1..]);
    }
  }

  lemma FormatStarts(items: seq<Item>)
    requires ItemsOk(items) && items != []
    ensures var s := FormatText(items); s != "" && s[0] != '(' && s[0] != '<'
  {
    var it := items[0];
    assert ItemOk(it);
    if it.numeral != "" {
      NumberOfWritten(it.numeral, it.count);
      assert FormatText(items)[0] == it.numeral[0];
    }
  }

  /** Where a directive is not followed by such a key it has none. */
  lemma WithoutKey(numeral: string, count: nat, kind: char, rest: string)
    requires ItemOk(Item(numeral, count, kind, None)) && forall k :: !BeginsWithKey(rest, k)
    ensures Directives(numeral + ([kind] + rest)) == [Directive(count, kind, None)] + Directives(rest)
  {
    if numeral != "" {
      NumberOfWritten(numeral, count);
    }
    KeyIff(rest);
    DirectiveRead(Item(numeral, count, kind, None), rest, rest);
  }

  /** The pattern finds exactly the directives that are written. */
  lemma {:induction false} DirectivesRead(items: seq<Item>)
    requires ItemsOk(items)
    ensures Directives(FormatText(items)) == Meant(items)
    decreases |items|
  {
    if items != [] {
      var it, rest := items[0], FormatText(items[1..]);
      assert ItemOk(it);
      DirectivesRead(items[1..]);
      if items[1..] != [] {
        FormatStarts(items[1..]);
      }
      if it.numeral != "" {
        NumberOfWritten(it.numeral, it.count);
      }
      KeyRead(it.key, rest);
      DirectiveRead(it, KeyText(it.key) + rest, rest);
    }
  }

  lemma DirectiveRead(it: Item, tail: string, rest: string)
    requires IsKind(it.kind) && (it.numeral == "" ==> it.count == 1) && (it.numeral != "" ==> NumberOf(it.numeral) == it.count)
    requires forall i :: 0 <= i < |it.numeral| ==> IsDigit(it.numeral[i])
    requires Key(tail) == it.key
    requires if it.key.Some? then |tail| >= |it.key.value| + 2 && tail[|it.key.value| + 2..] == rest else tail == rest
    ensures Directives(it.numeral + ([it.kind] + tail)) == [Directive(it.count, it.kind, it.key)] + Directives(rest)
  {
    hide *;
    KindIsNoDigit(it.kind);
    ItemParts(it.numeral, it.kind, tail);
    RunOfIs(IsDigit, it.numeral, [it.kind] + tail);
    DirectivesStep(it.numeral + ([it.kind] + tail));
  }

  lemma KindIsNoDigit(c: char)
    ensures IsKind(c) ==> !IsDigit(c)
  {
  }

  lemma ItemParts(numeral: string, kind: char, tail: string)
    ensures var fmt := numeral + ([kind] + tail);
            |fmt| > |numeral| && fmt[..|numeral|] == numeral && fmt[|numeral|] == kind && fmt[|numeral| + 1..] == tail
    ensures ([kind] + tail)[0] == kind
  {
  }

  lemma DirectivesStep(fmt: string)
    requires var n := RunOf(IsDigit, fmt); n < |fmt| && IsKind(fmt[n])
    ensures var n := RunOf(IsDigit, fmt);
            var tail := fmt[n + 1..];
            Directives(fmt) ==
            [Directive(if n == 0 then 1 else NumberOf(fmt[..n]), fmt[n], Key(tail))]
            + Directives(if Key(tail).Some? then tail[|Key(tail).value| + 2..] else tail)
  {
    hide Key;
    hide NumberOf;
    hide RunOf;
    hide IsKind;
  }

  /** A character that is neither a digit nor a type is skipped. */
  lemma MarkSkipped(mark: char, s: string)
    requires !IsDigit(mark) && !IsKind(mark)
    ensures Directives([mark] + s) == Directives(s)
  {
    assert ([mark] + s)[1..] == s;
  }

  // -------------------------------------------------------------------- layout

  /** How many numbers fit into one, two or four bytes. */
  function Room(kind: char): int {
    if kind in "bB" then 0x100 else if kind in "hH" then 0x1_0000 else 0x1_0000_0000
  }

  /** The nearest number that a type can hold: with or without a sign. */
  function Nearest(kind: char, v: int): int {
    var least := if kind in "bhil" then -(Room(kind) / 2) else 0;
    if v < least then least else if v >= least + Room(kind) then least + Room(kind) - 1 else v
  }

  /** The bytes of one number, in two's complement. */
  function NumberBytes(kind: char, little: bool, v: int): seq<byte> {
    var c := Nearest(kind, v);
    var bytes := BigEndianBytes(if c < 0 then c + Room(kind) else c, if kind in "bB" then 1 else if kind in "hH" then 2 else 4);
    if little then Reversed(bytes) else bytes
  }

  function SeriesBytes(kind: char, little: bool, values: seq<int>): seq<byte> {
    if values == [] then []
    else SeriesBytes(kind, little, values[..|values| - 1]) + NumberBytes(kind, little, values[|values| - 1])
  }

  /** The fields in order, the values being taken from index `i` on; padding is zero and takes none. */
  function Layout(items: seq<Item>, little: bool, values: seq<int>, i: nat): seq<byte>
    requires i + Takes(items) <= |values|
  {
    if items == [] then []
    else if items[0].kind == 'x' then Zeros(items[0].count) + Layout(items[1..], little, values, i)
    else
      SeriesBytes(items[0].kind, little, values[i..i + items[0].count])
      + Layout(items[1..], little, values, i + items[0].count)
  }

  /** How many values the format takes. */
  function Takes(items: seq<Item>): nat {
    if items == [] then 0 else (if items[0].kind == 'x' then 0 else items[0].count) + Takes(items[1..])
  }

  lemma {:induction false} Same(items: seq<Item>)
    requires ItemsOk(items)
    ensures Needed(Meant(items)) == Takes(items) && AllSupported(Meant(items))
    decreases |items|
  {
    if items != [] {
      assert ItemOk(items[0]);
      Same(items[1..]);
    }
  }

  lemma ElementIs(kind: char, v: int)
    requires kind in "bBhHiIlL"
    ensures var el := ElementOf(kind);
            && el.len == (if kind in "bB" then 1 else if kind in "hH" then 2 else 4)
            && Clamp(el, v) == Nearest(kind, v)
  {
  }

  lemma RoomIs(kind: char)
    requires kind in "bBhHiIlL"
    ensures Pow256(if kind in "bB" then 1 else if kind in "hH" then 2 else 4) == Room(kind)
  {
    assert Pow256(1) == 0x100 && Pow256(2) == 0x1_0000 && Pow256(3) == 0x100_0000 && Pow256(4) == 0x1_0000_0000;
  }

  lemma ModuloIs(kind: char, v: int)
    ensures var c := Nearest(kind, v); Room(kind) > 0 && Modulo(c, Room(kind)) == if c < 0 then c + Room(kind) else c
  {
  }

  lemma NumberIs(kind: char, big: bool, v: int)
    requires kind in "bBhHiIlL"
    ensures EncodeInt(ElementOf(kind), big, v) == NumberBytes(kind, !big, v)
  {
    ElementIs(kind, v);
    RoomIs(kind);
    ModuloIs(kind, v);
    ShiftBytesAre(Nearest(kind, v), ElementOf(kind).len);
    hide ElementOf;
    hide ShiftBytes;
    hide BigEndianBytes;
    hide Nearest;
    hide Room;
    hide Modulo;
    hide Pow256;
    hide Clamp;
  }

  lemma {:induction false} SeriesIs(kind: char, big: bool, n: nat, values: seq<int>, i: nat)
    requires kind in "bBhHiIlL" && i + n <= |values|
    ensures PackSeries(ElementOf(kind), big, n, values, i) == SeriesBytes(kind, !big, values[i..i + n])
    decreases n
  {
    hide NumberBytes;
    hide EncodeInt;
    if n > 0 {
      SeriesIs(kind, big, n - 1, values, i);
      NumberIs(kind, big, values[i + n - 1]);
      assert values[i..i + n][..n - 1] == values[i..i + n - 1] && values[i..i + n][n - 1] == values[i + n - 1];
    }
  }

  lemma {:induction false} FieldsAre(items: seq<Item>, big: bool, values: seq<int>, i: nat)
    requires ItemsOk(items) && i + Takes(items) <= |values|
    ensures Needed(Meant(items)) == Takes(items) && Fields(Meant(items), big, values, i) == Layout(items, !big, values, i)
    decreases |items|
  {
    hide *;
    Same(items);
    if items == [] {
      NoFields(big, values, i);
    } else {
      var it := items[0];
      ItemsCons(items);
      Same(items[1..]);
      FieldsAre(items[1..], big, values, if it.kind == 'x' then i else i + it.count);
      FieldsCons(Meant(items), big, values, i);
      FieldIs(it, big, values, i);
      LayoutCons(items, !big, values, i);
    }
  }

  lemma NoFields(big: bool, values: seq<int>, i: nat)
    requires i <= |values|
    ensures Meant([]) == [] && Takes([]) == 0 && Needed([]) == 0
    ensures Fields([], big, values, i) == [] && Layout([], !big, values, i) == []
  {
  }

  lemma ItemsCons(items: seq<Item>)
    requires ItemsOk(items) && items != []
    ensures var it, ds := items[0], Meant(items);
            && ItemOk(it) && ItemsOk(items[1..])
            && ds != [] && ds[0] == Directive(it.count, it.kind, it.key) && ds[1..] == Meant(items[1..])
            && Takes(items) == (if it.kind == 'x' then 0 else it.count) + Takes(items[1..])
  {
  }

  lemma LayoutCons(items: seq<Item>, little: bool, values: seq<int>, i: nat)
    requires items != [] && i + Takes(items) <= |values|
    requires Takes(items) == (if items[0].kind == 'x' then 0 else items[0].count) + Takes(items[1..])
    ensures var it := items[0];
            Layout(items, little, values, i) ==
            if it.kind == 'x' then Zeros(it.count) + Layout(items[1..], little, values, i)
            else SeriesBytes(it.kind, little, values[i..i + it.count]) + Layout(items[1..], little, values, i + it.count)
  {
    hide SeriesBytes;
    hide Zeros;
  }

  lemma FieldIs(it: Item, big: bool, values: seq<int>, i: nat)
    requires ItemOk(it) && (it.kind == 'x' || i + it.count <= |values|)
    ensures var d := Directive(it.count, it.kind, it.key);
            && Advance(d, i) == (if it.kind == 'x' then i else i + it.count)
            && Field(d, big, values, i)
               == if it.kind == 'x' then Zeros(it.count) else SeriesBytes(it.kind, !big, values[i..i + it.count])
  {
    hide PackSeries;
    hide SeriesBytes;
    if it.kind != 'x' {
      SeriesIs(it.kind, big, it.count, values, i);
    }
  }

  lemma FieldsCons(ds: seq<Directive>, big: bool, values: seq<int>, i: nat)
    requires ds != [] && i + Needed(ds) <= |values|
    ensures Fields(ds, big, values, i) == Field(ds[0], big, values, i) + Fields(ds[1..], big, values, Advance(ds[0], i))
  {
    hide Field;
  }

  /** A format, and how its byte order is given. */
  function Spelled(items: seq<Item>, little: bool): string {
    (if little then "<" else "") + FormatText(items)
  }

  /** Packing writes the layout of the format: for every way to spell it, in either byte order. */
  lemma PackIs(items: seq<Item>, little: bool, values: seq<int>)
    requires ItemsOk(items) && Takes(items) <= |values|
    ensures var fmt := Spelled(items, little);
            AllSupported(Directives(fmt)) && Pack(fmt, values) == Some(Layout(items, little, values, 0))
  {
    hide *;
    var fmt := Spelled(items, little);
    SpelledRead(items, little);
    Same(items);
    FieldsAre(items, !little, values, 0);
    PackFields(fmt, values);
  }

  lemma SpelledRead(items: seq<Item>, little: bool)
    requires ItemsOk(items)
    ensures var fmt := Spelled(items, little); Directives(fmt) == Meant(items) && BigEndianFormat(fmt) == !little
  {
    var s := FormatText(items);
    DirectivesRead(items);
    if items != [] {
      FormatStarts(items);
    }
    hide Directives;
    if little {
      MarkSkipped('<', s);
      assert "<" + s == ['<'] + s;
    } else {
      AppendNothing(s);
    }
    assert items == [] ==> s == "";
    hide FormatText;
  }

  lemma PutAll(blank: seq<byte>, bytes: seq<byte>)
    requires |bytes| == |blank|
    ensures Put(blank, 0, bytes) == bytes
  {
  }

  lemma PackFields(fmt: string, values: seq<int>)
    requires AllSupported(Directives(fmt)) && Needed(Directives(fmt)) <= |values|
    ensures Pack(fmt, values) == Some(Fields(Directives(fmt), BigEndianFormat(fmt), values, 0))
  {
    var ds, big := Directives(fmt), BigEndianFormat(fmt);
    var blank := Zeros(CalcLength(ds));
    hide Directives;
    hide BigEndianFormat;
    hide Fields;
    PackWrites(ds, big, blank, 0, values, 0);
    PutAll(blank, Fields(ds, big, values, 0));
  }

  /** The smallest case: an unsigned number of two bytes, such as 258, which is packed as 1 and 2, or 2 and 1. */
  lemma PackShort(v: nat)
    requires v < 0x1_0000
    ensures AllSupported(Directives("H")) && Pack("H", [v]) == Some([(v / 256) as byte, (v % 256) as byte])
    ensures AllSupported(Directives("<H")) && Pack("<H", [v]) == Some([(v % 256) as byte, (v / 256) as byte])
  {
    hide *;
    var it := Item("", 1, 'H', None);
    OneItem(it);
    PackIs([it], false, [v]);
    PackIs([it], true, [v]);
    OneNumber(it, false, v);
    OneNumber(it, true, v);
    ShortBytes(v);
  }

  lemma OneItem(it: Item)
    requires it == Item("", 1, 'H', None)
    ensures ItemsOk([it]) && Spelled([it], false) == "H" && Spelled([it], true) == "<H" && Takes([it]) == 1
  {
    assert [it][1..] == [];
    assert FormatText([it]) == "" + (['H'] + ("" + "")) == "H";
    assert "" + "H" == "H" && "<" + "H" == "<H";
  }

  lemma OneNumber(it: Item, little: bool, v: int)
    requires it == Item("", 1, 'H', None) && Takes([it]) == 1
    ensures Layout([it], little, [v], 0) == NumberBytes('H', little, v)
  {
    hide NumberBytes;
    assert [it][1..] == [] && [v][0..1] == [v] && [v][..0] == [];
    assert SeriesBytes('H', little, [v]) == SeriesBytes('H', little, []) + NumberBytes('H', little, v);
    AppendNothing(NumberBytes('H', little, v));
  }

  lemma ShortBytes(v: nat)
    requires v < 0x1_0000
    ensures NumberBytes('H', false, v) == [(v / 256) as byte, (v % 256) as byte]
    ensures NumberBytes('H', true, v) == [(v % 256) as byte, (v / 256) as byte]
  {
    assert BigEndianBytes(v, 2) == BigEndianBytes(v / 256, 1) + [LowByte(v)];
    assert BigEndianBytes(v / 256, 1) == BigEndianBytes(v / 256 / 256, 0) + [LowByte(v / 256)];
    var bytes: seq<byte> := [(v / 256) as byte, (v % 256) as byte];
    assert BigEndianBytes(v, 2) == bytes;
    assert Reversed(bytes) == [bytes[1], bytes[0]];
  }
}
