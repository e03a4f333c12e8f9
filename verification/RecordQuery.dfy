/** Result sets that are patched, not queried again. */
module RecordQuery {
  import opened Basics

  // A table of the in-memory adapter is the sequence of its rows in the order in which an object with
  // integer keys is enumerated: by ascending id.

  datatype Row<D> = Row(id: nat, data: D)

  /** `order`, with the column comparison the sort uses. */
  datatype Order<!D> = Order(less: (Row<D>, Row<D>) -> bool, descending: bool)

  /** The parameters of a query without limit and group. */
  datatype Query<!D> = Query(where: Row<D> -> bool, order: Option<Order<D>>)

  // -------------------------------------------------------------------- tables

  ghost predicate Table<D>(rows: seq<Row<D>>) {
    forall i, j :: 0 <= i < j < |rows| ==> rows[i].id < rows[j].id
  }

  function Ids<D>(rows: seq<Row<D>>): (r: seq<nat>)
    ensures |r| == |rows| && forall i :: 0 <= i < |rows| ==> r[i] == rows[i].id
  {
    seq(|rows|, i requires 0 <= i < |rows| => rows[i].id)
  }

  /** The number of rows with a smaller id: where a row with this id is, or would be. */
  function Place<D>(rows: seq<Row<D>>, id: nat): (k: nat)
    ensures k <= |rows|
    ensures forall i :: 0 <= i < k ==> rows[i].id < id
    ensures k < |rows| ==> rows[k].id >= id
  {
    if rows == [] || rows[0].id >= id then 0 else 1 + Place(rows[1..], id)
  }

  predicate Has<D>(rows: seq<Row<D>>, id: nat) {
    var k := Place(rows, id);
    k < |rows| && rows[k].id == id
  }

  /** A row put where its id belongs. */
  function Insert<D>(rows: seq<Row<D>>, r: Row<D>): seq<Row<D>> {
    var k := Place(rows, r.id);
    rows[..k] + [r] + rows[k..]
  }

  /** `storage[table][id] = data` */
  function Write<D>(rows: seq<Row<D>>, r: Row<D>): seq<Row<D>> {
    if Has(rows, r.id) then rows[Place(rows, r.id) := r] else Insert(rows, r)
  }

  /** `delete storage[table][id]` */
  function Delete<D>(rows: seq<Row<D>>, id: nat): seq<Row<D>> {
    var k := Place(rows, id);
    if Has(rows, id) then rows[..k] + rows[k + 1..] else rows
  }

  lemma PlaceIs<D>(rows: seq<Row<D>>, id: nat, k: nat)
    requires k <= |rows| && (k < |rows| ==> rows[k].id >= id) && forall i :: 0 <= i < k ==> rows[i].id < id
    ensures Place(rows, id) == k
  {
  }

  lemma InsertKeepsTable<D>(rows: seq<Row<D>>, r: Row<D>)
    requires Table(rows) && !Has(rows, r.id)
    ensures Table(Insert(rows, r)) && Delete(Insert(rows, r), r.id) == rows
  {
    var k := Place(rows, r.id);
    var rows' := Insert(rows, r);
    InsertTable(rows, k, r);
    PlaceIs(rows', r.id, k);
    assert rows'[..k] == rows[..k] && rows'[k + 1..] == rows[k..];
  }

  lemma InsertTable<D>(rows: seq<Row<D>>, k: nat, r: Row<D>)
    requires Table(rows) && k <= |rows| && (k < |rows| ==> rows[k].id > r.id)
    requires forall i :: 0 <= i < k ==> rows[i].id < r.id
    ensures Table(rows[..k] + [r] + rows[k..])
  {
    var rows' := rows[..k] + [r] + rows[k..];
    assert forall i :: 0 <= i < |rows'| ==> rows'[i] == if i < k then rows[i] else if i == k then r else rows[i - 1];
  }

  lemma DeleteKeepsTable<D>(rows: seq<Row<D>>, id: nat)
    requires Table(rows)
    ensures Table(Delete(rows, id)) && !Has(Delete(rows, id), id)
  {
    var k := Place(rows, id);
    if Has(rows, id) {
      DeleteTable(rows, k);
      PlaceIs(Delete(rows, id), id, k);
    }
  }

  lemma DeleteTable<D>(rows: seq<Row<D>>, k: nat)
    requires Table(rows) && k < |rows|
    ensures var rows' := rows[..k] + rows[k + 1..];
            Table(rows') && (k < |rows'| ==> rows'[k].id > rows[k].id)
  {
    var rows' := rows[..k] + rows[k + 1..];
    assert forall i :: 0 <= i < |rows'| ==> rows'[i] == if i < k then rows[i] else rows[i + 1];
  }

  // ----------------------------------------------------------------- filtering

  function Filter<D>(where: Row<D> -> bool, rows: seq<Row<D>>): seq<Row<D>> {
    if rows == [] then [] else (if where(rows[0]) then [rows[0]] else []) + Filter(where, rows[1..])
  }

  lemma {:induction false} FilterAppend<D>(where: Row<D> -> bool, a: seq<Row<D>>, b: seq<Row<D>>)
    ensures Filter(where, a + b) == Filter(where, a) + Filter(where, b)
  {
    if a == [] {
      AppendNothing(b);
      AppendNothing(Filter(where, b));
    } else {
      assert (a + b)[0] == a[0] && (a + b)[1..] == a[1..] + b;
      FilterAppend(where, a[1..], b);
      AppendAssociates(if where(a[0]) then [a[0]] else [], Filter(where, a[1..]), Filter(where, b));
    }
  }

  lemma {:induction false} FilterIn<D>(where: Row<D> -> bool, rows: seq<Row<D>>, r: Row<D>)
    ensures r in Filter(where, rows) <==> r in rows && where(r)
  {
    if rows != [] {
      FilterIn(where, rows[1..], r);
      assert rows == [rows[0]] + rows[1..];
    }
  }

  // ------------------------------------------------------------------- sorting

  /** A strict weak order, which is what `sort` demands of its comparison. */
  ghost predicate StrictWeak<D(!new)>(less: (Row<D>, Row<D>) -> bool) {
    && (forall a, b :: !(less(a, b) && less(b, a)))
    && (forall a, b, c :: less(a, c) ==> less(a, b) || less(b, c))
  }

  ghost predicate Sorted<D>(less: (Row<D>, Row<D>) -> bool, rows: seq<Row<D>>) {
    forall i, j :: 0 <= i < j < |rows| ==> !less(rows[j], rows[i])
  }

  /** The index of the first row greater than `r`. */
  function FirstGreater<D>(less: (Row<D>, Row<D>) -> bool, rows: seq<Row<D>>, r: Row<D>): (k: nat)
    ensures k <= |rows|
    ensures forall i :: 0 <= i < k ==> !less(r, rows[i])
    ensures k < |rows| ==> less(r, rows[k])
  {
    if rows == [] || less(r, rows[0]) then 0 else 1 + FirstGreater(less, rows[1..], r)
  }

  function At<T>(s: seq<T>, k: nat, x: T): seq<T>
    requires k <= |s|
  {
    s[..k] + [x] + s[k..]
  }

  /** A stable sort: a row goes after those it is not smaller than. */
  function Sort<D>(less: (Row<D>, Row<D>) -> bool, rows: seq<Row<D>>): (r: seq<Row<D>>)
    ensures |r| == |rows|
  {
    if rows == [] then []
    else
      var sorted := Sort(less, rows[..|rows| - 1]);
      At(sorted, FirstGreater(less, sorted, rows[|rows| - 1]), rows[|rows| - 1])
  }

  lemma LessBelow<D(!new)>(less: (Row<D>, Row<D>) -> bool, a: Row<D>, b: Row<D>, c: Row<D>)
    requires StrictWeak(less) && less(a, c) && !less(b, c)
    ensures less(a, b)
  {
  }

  lemma AtSorted<D(!new)>(less: (Row<D>, Row<D>) -> bool, rows: seq<Row<D>>, r: Row<D>)
    requires StrictWeak(less) && Sorted(less, rows)
    ensures Sorted(less, At(rows, FirstGreater(less, rows, r), r))
  {
    var k := FirstGreater(less, rows, r);
    var s := At(rows, k, r);
    forall i, j | 0 <= i < j < |s| ensures !less(s[j], s[i]) {
      if i == k {
        assert less(r, rows[k]) && s[j] == rows[j - 1];
        if j - 1 > k {
          LessBelow(less, r, rows[j - 1], rows[k]);
        }
      }
    }
  }

  lemma AtMultiset<T>(s: seq<T>, k: nat, x: T)
    requires k <= |s|
    ensures multiset(At(s, k, x)) == multiset(s) + multiset{x}
  {
    assert s == s[..k] + s[k..];
  }

  /** Two insertions in either order. */
  lemma AtAt<T>(s: seq<T>, i: nat, x: T, k: nat, r: T)
    requires i <= k <= |s|
    ensures At(At(s, k, r), i, x) == At(At(s, i, x), k + 1, r)
  {
  }

  lemma {:induction false} SortSorted<D(!new)>(less: (Row<D>, Row<D>) -> bool, rows: seq<Row<D>>)
    requires StrictWeak(less)
    ensures Sorted(less, Sort(less, rows)) && multiset(Sort(less, rows)) == multiset(rows)
  {
    if rows != [] {
      var front, last := rows[..|rows| - 1], rows[|rows| - 1];
      SortSorted(less, front);
      hide StrictWeak;
      var sorted := Sort(less, front);
      AtSorted(less, sorted, last);
      AtMultiset(sorted, FirstGreater(less, sorted, last), last);
      assert rows == front + [last];
    }
  }

  /** `whole` is `part` with `x` put in somewhere. */
  ghost predicate OneMore<T>(part: seq<T>, whole: seq<T>, x: T) {
    exists k: nat :: k <= |part| && whole == At(part, k, x)
  }

  /** Sorting one more row, wherever it stands in the input, changes the result by one insertion. */
  lemma {:induction false} SortOneMore<D(!new)>(less: (Row<D>, Row<D>) -> bool, a: seq<Row<D>>, r: Row<D>, b: seq<Row<D>>)
    requires StrictWeak(less)
    ensures OneMore(Sort(less, a + b), Sort(less, a + [r] + b), r)
    decreases |b|
  {
    hide StrictWeak;
    if b == [] {
      SortBy(less, a + [r] + b, a, r);
      assert a + b == a;
      assert Sort(less, a + [r] + b) == At(Sort(less, a), FirstGreater(less, Sort(less, a), r), r);
    } else {
      var front, last := b[..|b| - 1], b[|b| - 1];
      SortOneMore(less, a, r, front);
      SortBy(less, a + b, a + front, last);
      SortBy(less, a + [r] + b, a + [r] + front, last);
      SortSorted(less, a + [r] + front);
      hide Sort;
      var part, whole := Sort(less, a + front), Sort(less, a + [r] + front);
      var k: nat :| k <= |part| && whole == At(part, k, r);
      InsertCommutes(less, part, k, r, last);
    }
  }

  lemma SortBy<D>(less: (Row<D>, Row<D>) -> bool, rows: seq<Row<D>>, front: seq<Row<D>>, last: Row<D>)
    requires rows == front + [last]
    ensures Sort(less, rows) == At(Sort(less, front), FirstGreater(less, Sort(less, front), last), last)
  {
    assert rows[..|rows| - 1] == front;
  }

  lemma AtIndex<T>(s: seq<T>, k: nat, x: T)
    requires k <= |s|
    ensures At(s, k, x)[k] == x && forall m :: 0 <= m < |s| ==> s[m] == At(s, k, x)[if m < k then m else m + 1]
  {
  }

  lemma InsertCommutes<D(!new)>(less: (Row<D>, Row<D>) -> bool, part: seq<Row<D>>, k: nat, r: Row<D>, x: Row<D>)
    requires StrictWeak(less) && k <= |part| && Sorted(less, At(part, k, r))
    ensures var whole := At(part, k, r);
            OneMore(At(part, FirstGreater(less, part, x), x), At(whole, FirstGreater(less, whole, x), x), r)
  {
    var whole := At(part, k, r);
    var i := FirstGreater(less, part, x);
    AtIndex(part, k, r);
    hide StrictWeak;
    if i < k {
      FirstGreaterIs(less, whole, x, i);
      AtAt(part, i, x, k, r);
    } else if less(x, r) {
      if k < |part| {
        assert !less(whole[k + 1], whole[k]);
        LessBelow(less, x, part[k], r);
      }
      hide Sorted;
      FirstGreaterIs(less, whole, x, k);
      AtAt(part, i, x, k, r);
    } else {
      FirstGreaterIs(less, whole, x, i + 1);
      AtAt(part, k, r, i, x);
    }
  }

  lemma FirstGreaterIs<D>(less: (Row<D>, Row<D>) -> bool, rows: seq<Row<D>>, x: Row<D>, k: nat)
    requires k <= |rows| && (k < |rows| ==> less(x, rows[k])) && forall i :: 0 <= i < k ==> !less(x, rows[i])
    ensures FirstGreater(less, rows, x) == k
  {
  }

  // ------------------------------------------------------------------- queries

  /** `createOrderBy`: sorted, and reversed for a descending order. */
  function Arrange<D>(order: Option<Order<D>>, rows: seq<Row<D>>): seq<Row<D>> {
    match order
    case None => rows
    case Some(o) => if o.descending then Reversed(Sort(o.less, rows)) else Sort(o.less, rows)
  }

  /** `findEntities` */
  function Find<D>(q: Query<D>, rows: seq<Row<D>>): seq<Row<D>> {
    Arrange(q.order, Filter(q.where, rows))
  }

  ghost predicate GoodQuery<D(!new)>(q: Query<D>) {
    q.order.Some? ==> StrictWeak(q.order.value.less)
  }

  lemma ReversedAt<T>(s: seq<T>, k: nat, x: T)
    requires k <= |s|
    ensures Reversed(At(s, k, x)) == At(Reversed(s), |s| - k, x)
  {
  }

  lemma ReversedIn<T>(s: seq<T>, x: T)
    ensures x in Reversed(s) <==> x in s
  {
    if x in s {
      var i :| 0 <= i < |s| && s[i] == x;
      assert Reversed(s)[|s| - 1 - i] == x;
    }
  }

  lemma ArrangeOneMore<D(!new)>(order: Option<Order<D>>, a: seq<Row<D>>, r: Row<D>, b: seq<Row<D>>)
    requires order.Some? ==> StrictWeak(order.value.less)
    ensures OneMore(Arrange(order, a + b), Arrange(order, a + [r] + b), r)
  {
    if order == None {
      assert a + [r] + b == At(a + b, |a|, r);
    } else {
      var less := order.value.less;
      SortOneMore(less, a, r, b);
      var part := Sort(less, a + b);
      var k: nat :| k <= |part| && Sort(less, a + [r] + b) == At(part, k, r);
      ReversedAt(part, k, r);
    }
  }

  /** One new row changes the result of a query by at most one insertion. */
  lemma FindInsert<D(!new)>(q: Query<D>, rows: seq<Row<D>>, r: Row<D>)
    requires GoodQuery(q)
    ensures if q.where(r) then OneMore(Find(q, rows), Find(q, Insert(rows, r)), r)
            else Find(q, Insert(rows, r)) == Find(q, rows)
  {
    var k := Place(rows, r.id);
    var a, b := rows[..k], rows[k..];
    assert rows == a + b;
    FilterAppend(q.where, a, b);
    FilterAppend(q.where, a, [r]);
    FilterAppend(q.where, a + [r], b);
    assert Filter(q.where, [r]) == if q.where(r) then [r] else [];
    if q.where(r) {
      ArrangeOneMore(q.order, Filter(q.where, a), r, Filter(q.where, b));
    } else {
      AppendNothing(Filter(q.where, a));
    }
  }

  // ------------------------------------------------------------- patching

  /** The index where two lists of ids first differ, or the length of `b`. */
  function Mismatch(a: seq<nat>, b: seq<nat>): (k: nat)
    ensures k <= |b|
  {
    if b == [] || a == [] || a[0] != b[0] then 0 else 1 + Mismatch(a[1..], b[1..])
  }

  /** The result set `a` after the splice that makes it follow the new result `b`. */
  function PatchCreate(a: seq<nat>, b: seq<nat>): seq<nat> {
    var k := Mismatch(a, b);
    if k == |b| then a else a[..Min(k, |a|)] + [b[k]] + a[Min(k, |a|)..]
  }

  function PatchDestroy(a: seq<nat>, b: seq<nat>): seq<nat> {
    var k := Mismatch(b, a);
    if k == |a| then a else a[..k] + a[k + 1..]
  }

  lemma {:induction false} MismatchSame(a: seq<nat>)
    ensures Mismatch(a, a) == |a|
  {
    if a != [] {
      MismatchSame(a[1..]);
    }
  }

  lemma {:induction false} MismatchAt(a: seq<nat>, k: nat, x: nat)
    requires k <= |a| && x !in a
    ensures Mismatch(a, At(a, k, x)) == k
  {
    var b := At(a, k, x);
    if k > 0 {
      assert b[0] == a[0] && b[1..] == At(a[1..], k - 1, x);
      MismatchAt(a[1..], k - 1, x);
    } else {
      assert b[0] == x;
    }
  }

  /** The first mismatch is where the one new id goes, so the splice restores equality. */
  lemma PatchOneMore(a: seq<nat>, b: seq<nat>, x: nat)
    requires OneMore(a, b, x) && x !in a
    ensures PatchCreate(a, b) == b && PatchDestroy(b, a) == a
  {
    var k: nat :| k <= |a| && b == At(a, k, x);
    MismatchAt(a, k, x);
    assert b[k] == x;
    assert b[..k] + b[k + 1..] == a;
  }

  lemma OneMoreIds<D>(part: seq<Row<D>>, whole: seq<Row<D>>, r: Row<D>)
    requires OneMore(part, whole, r)
    ensures OneMore(Ids(part), Ids(whole), r.id)
  {
    var k: nat :| k <= |part| && whole == At(part, k, r);
    assert Ids(whole) == At(Ids(part), k, r.id);
  }

  /** Without a mismatch there is nothing to patch. */
  lemma {:induction false} MismatchNone(a: seq<nat>, b: seq<nat>)
    requires Mismatch(a, b) == |b|
    ensures b <= a
  {
    if b != [] {
      MismatchNone(a[1..], b[1..]);
    }
  }

  // ------------------------------------------------------- where a row is found

  /** Whether a query lists `x` before `y` in ascending order: equal rows come by their ids. */
  predicate Before<D>(order: Option<Order<D>>, x: Row<D>, y: Row<D>) {
    match order
    case None => x.id < y.id
    case Some(o) => o.less(x, y) || (!o.less(y, x) && x.id < y.id)
  }

  predicate Descending<D>(order: Option<Order<D>>) {
    order.Some? && order.value.descending
  }

  ghost predicate InOrder<D>(order: Option<Order<D>>, found: seq<Row<D>>) {
    forall i, j :: 0 <= i < j < |found| ==>
      if Descending(order) then Before(order, found[j], found[i]) else Before(order, found[i], found[j])
  }

  ghost predicate Rising<D>(less: (Row<D>, Row<D>) -> bool, rows: seq<Row<D>>) {
    forall i, j :: 0 <= i < j < |rows| ==> less(rows[i], rows[j]) || (!less(rows[j], rows[i]) && rows[i].id < rows[j].id)
  }

  lemma {:induction false} SortRising<D(!new)>(less: (Row<D>, Row<D>) -> bool, rows: seq<Row<D>>)
    requires StrictWeak(less) && Table(rows)
    ensures Rising(less, Sort(less, rows))
  {
    if rows != [] {
      var front, last := rows[..|rows| - 1], rows[|rows| - 1];
      SortRising(less, front);
      SortSorted(less, front);
      var sorted := Sort(less, front);
      forall r | r in sorted ensures r.id < last.id {
        assert r in multiset(sorted);
        assert r in front;
      }
      hide StrictWeak;
      hide Sorted;
      RisingAt(less, sorted, last);
    }
  }

  lemma RisingAt<D(!new)>(less: (Row<D>, Row<D>) -> bool, rows: seq<Row<D>>, r: Row<D>)
    requires StrictWeak(less) && Sorted(less, rows) && Rising(less, rows) && forall x <- rows :: x.id < r.id
    ensures Rising(less, At(rows, FirstGreater(less, rows, r), r))
  {
    hide StrictWeak;
    hide Rising;
    var k := FirstGreater(less, rows, r);
    forall i | k <= i < |rows| ensures less(r, rows[i]) {
      if i > k {
        LessBelow(less, r, rows[i], rows[k]);
      }
    }
    RisingBetween(less, rows, k, r);
  }

  lemma RisingBetween<D>(less: (Row<D>, Row<D>) -> bool, rows: seq<Row<D>>, k: nat, r: Row<D>)
    requires Rising(less, rows) && k <= |rows|
    requires forall i :: 0 <= i < k ==> !less(r, rows[i]) && rows[i].id < r.id
    requires forall i :: k <= i < |rows| ==> less(r, rows[i])
    ensures Rising(less, At(rows, k, r))
  {
  }

  lemma ArrangeInOrder<D(!new)>(order: Option<Order<D>>, rows: seq<Row<D>>)
    requires (order.Some? ==> StrictWeak(order.value.less)) && Table(rows)
    ensures InOrder(order, Arrange(order, rows))
  {
    hide Sort;
    hide StrictWeak;
    hide InOrder;
    match order
    case None => InOrderOfTable(order, rows);
    case Some(o) =>
      SortRising(o.less, rows);
      RisingInOrder(order, Sort(o.less, rows));
  }

  lemma InOrderOfTable<D>(order: Option<Order<D>>, rows: seq<Row<D>>)
    requires order == None && Table(rows)
    ensures InOrder(order, rows)
  {
  }

  lemma RisingInOrder<D>(order: Option<Order<D>>, rows: seq<Row<D>>)
    requires order.Some? && Rising(order.value.less, rows)
    ensures InOrder(order, if order.value.descending then Reversed(rows) else rows)
  {
    if order.value.descending {
      var back := Reversed(rows);
      forall i, j | 0 <= i < j < |back| ensures Before(order, back[j], back[i]) {
        assert back[j] == rows[|rows| - 1 - j] && back[i] == rows[|rows| - 1 - i];
      }
    }
  }

  lemma {:induction false} FilterTable<D>(where: Row<D> -> bool, rows: seq<Row<D>>)
    requires Table(rows)
    ensures Table(Filter(where, rows)) && forall r <- Filter(where, rows) :: r in rows
  {
    if rows != [] {
      TableHead(rows);
      FilterTable(where, rows[1..]);
      if where(rows[0]) {
        hide Filter;
        TableCons(rows[0], Filter(where, rows[1..]));
      }
    }
  }

  lemma TableHead<D>(rows: seq<Row<D>>)
    requires Table(rows) && rows != []
    ensures Table(rows[1..]) && forall r <- rows[1..] :: r in rows && r.id > rows[0].id
  {
  }

  lemma TableCons<D>(r: Row<D>, rows: seq<Row<D>>)
    requires Table(rows) && forall x <- rows :: r.id < x.id
    ensures Table([r] + rows)
  {
  }

  /** The place of `y` in a list is after exactly the rows that come before it. */
  ghost predicate PlacedAt<D>(order: Option<Order<D>>, found: seq<Row<D>>, k: nat, y: Row<D>) {
    k <= |found| && forall i :: 0 <= i < |found| ==> (Before(order, found[i], y) <==> if Descending(order) then i >= k else i < k)
  }

  lemma InOrderPlaced<D(!new)>(order: Option<Order<D>>, part: seq<Row<D>>, k: nat, y: Row<D>)
    requires (order.Some? ==> StrictWeak(order.value.less)) && k <= |part| && InOrder(order, At(part, k, y))
    ensures PlacedAt(order, part, k, y)
  {
    AtIndex(part, k, y);
    hide At;
    var whole := At(part, k, y);
    forall i | 0 <= i < |part| ensures Before(order, part[i], y) <==> if Descending(order) then i >= k else i < k {
      var m := if i < k then i else i + 1;
      assert part[i] == whole[m] && y == whole[k];
    }
  }

  /** A row among the others, in the table and in what a query finds. */
  lemma FindPlaced<D(!new)>(q: Query<D>, a: seq<Row<D>>, y: Row<D>, b: seq<Row<D>>) returns (k: nat)
    requires GoodQuery(q) && Table(a + [y] + b) && q.where(y)
    ensures PlacedAt(q.order, Find(q, a + b), k, y) && Find(q, a + [y] + b) == At(Find(q, a + b), k, y)
  {
    FilterAppend(q.where, a, b);
    FilterAppend(q.where, a, [y]);
    FilterAppend(q.where, a + [y], b);
    assert Filter(q.where, [y]) == [y];
    FilterTable(q.where, a + [y] + b);
    ArrangeOneMore(q.order, Filter(q.where, a), y, Filter(q.where, b));
    ArrangeInOrder(q.order, Filter(q.where, a + [y] + b));
    assert InOrder(q.order, Find(q, a + [y] + b));
    hide InOrder;
    hide Arrange;
    hide Filter;
    k :| k <= |Find(q, a + b)| && Find(q, a + [y] + b) == At(Find(q, a + b), k, y);
    InOrderPlaced(q.order, Find(q, a + b), k, y);
  }
  // ------------------------------------------------------------------- runs

  /** `Create` saves a record as new, under a free id or over a stored row; `Save` saves a record that
      has been saved before; `Destroy` also takes a record whose row is gone. */
  datatype Change<D> = Create(row: Row<D>) | Save(row: Row<D>) | Destroy(id: nat)

  /** A table and the ids of one synchronized result set. */
  datatype Synced<D> = Synced(rows: seq<Row<D>>, ids: seq<nat>)

  /** The table after a change. */
  function After<D>(rows: seq<Row<D>>, c: Change<D>): seq<Row<D>> {
    match c
    case Create(r) => Write(rows, r)
    case Save(r) => Write(rows, r)
    case Destroy(id) => Delete(rows, id)
  }

  /** A change puts its row in place of the one with its id, or takes that away, and leaves all others. */
  lemma AfterIs<D>(rows: seq<Row<D>>, c: Change<D>, x: Row<D>)
    requires Table(rows)
    ensures Table(After(rows, c))
    ensures var id := if c.Destroy? then c.id else c.row.id;
            x in After(rows, c) <==> (x in rows && x.id != id) || (!c.Destroy? && x == c.row)
  {
    hide *;
    var id := ChangedId(c);
    DeleteKeepsTable(rows, id);
    DeletedAre(rows, id, x);
    if !c.Destroy? {
      WriteTable(rows, c.row);
      WrittenAt(rows, c.row);
      InAt(Delete(rows, id), Place(rows, id), c.row, x);
    }
    AfterUnfolds(rows, c);
  }

  function ChangedId<D>(c: Change<D>): (id: nat)
    ensures id == if c.Destroy? then c.id else c.row.id
  {
    if c.Destroy? then c.id else c.row.id
  }

  lemma AfterUnfolds<D>(rows: seq<Row<D>>, c: Change<D>)
    ensures After(rows, c) == if c.Destroy? then Delete(rows, c.id) else Write(rows, c.row)
  {
    hide Write;
    hide Delete;
  }

  lemma DeletedAre<D>(rows: seq<Row<D>>, id: nat, x: Row<D>)
    requires Table(rows)
    ensures x in Delete(rows, id) <==> x in rows && x.id != id
  {
    if Has(rows, id) {
      OthersAre(rows, Place(rows, id));
    } else if x in rows {
      NotAmong(rows, id, x);
    }
  }

  lemma NotAmong<D>(rows: seq<Row<D>>, id: nat, x: Row<D>)
    requires Table(rows) && !Has(rows, id) && x in rows
    ensures x.id != id
  {
    var j :| 0 <= j < |rows| && rows[j] == x;
    if x.id == id {
      NotPlaced(rows, id, j);
    }
  }

  lemma InAt<T>(s: seq<T>, k: nat, x: T, y: T)
    requires k <= |s|
    ensures y in At(s, k, x) <==> y in s || y == x
  {
    assert s == s[..k] + s[k..];
  }

  lemma WrittenAt<D>(rows: seq<Row<D>>, r: Row<D>)
    requires Table(rows)
    ensures Place(rows, r.id) <= |Delete(rows, r.id)| && Write(rows, r) == At(Delete(rows, r.id), Place(rows, r.id), r)
  {
    if Has(rows, r.id) {
      PutBack(rows, Place(rows, r.id), r);
    }
  }

  /** The result set patched from the query's new result `found`, which only creates and destroys do. */
  function Patch<D>(ids: seq<nat>, found: seq<nat>, c: Change<D>): seq<nat> {
    match c
    case Create(_) => PatchCreate(ids, found)
    case Save(_) => ids
    case Destroy(_) => PatchDestroy(ids, found)
  }

  function Apply<D>(q: Query<D>, s: Synced<D>, c: Change<D>): Synced<D> {
    var rows := After(s.rows, c);
    Synced(rows, Patch(s.ids, Ids(Find(q, rows)), c))
  }

  /** No other row that the query finds is on one side of `old` and on the other of `r`. */
  predicate KeepsPlace<D>(q: Query<D>, rows: seq<Row<D>>, was: Row<D>, r: Row<D>) {
    forall i :: 0 <= i < |rows| && rows[i].id != r.id && q.where(rows[i]) ==>
      (Before(q.order, rows[i], was) <==> Before(q.order, rows[i], r))
  }

  /** Whether a result set can follow a change: always, except when a stored row is written over. Then
      creating can only follow if the old row was not found, or the new one is found in its place; and
      saving, which does not patch, only if neither is found, or the new one is found in place. */
  predicate Followed<D>(q: Query<D>, rows: seq<Row<D>>, c: Change<D>) {
    match c
    case Create(r) =>
      Has(rows, r.id) ==>
        var was := rows[Place(rows, r.id)];
        !q.where(was) || (q.where(r) && KeepsPlace(q, rows, was, r))
    case Save(r) =>
      if Has(rows, r.id) then
        var was := rows[Place(rows, r.id)];
        q.where(was) == q.where(r) && (q.where(r) ==> KeepsPlace(q, rows, was, r))
      else !q.where(r)
    case Destroy(_) => true
  }

  ghost predicate InSync<D>(q: Query<D>, s: Synced<D>) {
    Table(s.rows) && s.ids == Ids(Find(q, s.rows))
  }

  lemma FoundIn<D(!new)>(q: Query<D>, rows: seq<Row<D>>, r: Row<D>)
    requires GoodQuery(q)
    ensures r in Find(q, rows) <==> r in rows && q.where(r)
  {
    FilterIn(q.where, rows, r);
    if q.order.Some? {
      var filtered := Filter(q.where, rows);
      var sorted := Sort(q.order.value.less, filtered);
      SortSorted(q.order.value.less, filtered);
      assert r in sorted <==> r in multiset(sorted);
      assert r in filtered <==> r in multiset(filtered);
      ReversedIn(sorted, r);
    }
  }

  lemma NewIdNotFound<D(!new)>(q: Query<D>, rows: seq<Row<D>>, id: nat)
    requires GoodQuery(q) && Table(rows) && !Has(rows, id)
    ensures id !in Ids(Find(q, rows))
  {
    var found := Find(q, rows);
    if id in Ids(found) {
      var i :| 0 <= i < |found| && found[i].id == id;
      FoundIn(q, rows, found[i]);
      var j :| 0 <= j < |rows| && rows[j] == found[i];
      NotPlaced(rows, id, j);
    }
  }

  lemma NotPlaced<D>(rows: seq<Row<D>>, id: nat, j: nat)
    requires Table(rows) && j < |rows| && rows[j].id == id
    ensures Has(rows, id)
  {
    PlaceIs(rows, id, j);
  }

  lemma DeletedInsert<D>(rows: seq<Row<D>>, id: nat)
    requires Table(rows) && Has(rows, id)
    ensures Insert(Delete(rows, id), rows[Place(rows, id)]) == rows
  {
    var k := Place(rows, id);
    DeleteTable(rows, k);
    hide Table;
    var rest := Delete(rows, id);
    PlaceIs(rest, id, k);
    PutBack(rows, k, rows[k]);
  }

  lemma PutBack<T>(s: seq<T>, k: nat, x: T)
    requires k < |s|
    ensures At(s[..k] + s[k + 1..], k, x) == s[k := x]
  {
  }

  // Writing over a stored row: the table without it is `a + b`, and the row stands between.

  lemma AtPlaces<T>(s: seq<T>, i: nat, k: nat, x: T)
    requires i <= |s| && k <= |s| && x !in s
    ensures At(s, i, x) == At(s, k, x) <==> i == k
  {
    assert At(s, i, x)[i] == x;
    if i != k {
      assert At(s, k, x)[i] == s[if i < k then i else i - 1];
    }
  }

  lemma SamePlace<D>(order: Option<Order<D>>, part: seq<Row<D>>, i: nat, k: nat, x: Row<D>, y: Row<D>)
    requires PlacedAt(order, part, i, x) && PlacedAt(order, part, k, y)
    ensures i == k <==> forall r <- part :: Before(order, r, x) <==> Before(order, r, y)
  {
    hide Before;
    if i != k {
      var m := if i < k then i else k;
      assert Before(order, part[m], x) != Before(order, part[m], y);
    }
  }

  lemma IdsAt<D>(part: seq<Row<D>>, k: nat, r: Row<D>)
    requires k <= |part|
    ensures Ids(At(part, k, r)) == At(Ids(part), k, r.id)
  {
  }

  /** When both the old and the new row are found, the ids found are the same exactly if it keeps its place. */
  lemma FoundInPlaceIff<D(!new)>(q: Query<D>, rows: seq<Row<D>>, r: Row<D>)
    requires GoodQuery(q) && Table(rows) && Has(rows, r.id) && q.where(r) && q.where(rows[Place(rows, r.id)])
    ensures Ids(Find(q, Write(rows, r))) == Ids(Find(q, rows)) <==> KeepsPlace(q, rows, rows[Place(rows, r.id)], r)
  {
    hide *;
    var k := Place(rows, r.id);
    RowStands(rows, r);
    var a, x, b := rows[..k], rows[k], rows[k + 1..];
    NewIdNotFound(q, a + b, r.id);
    var i := FindPlaced(q, a, x, b);
    var j := FindPlaced(q, a, r, b);
    var part := Find(q, a + b);
    PlacedBounds(q.order, part, i, x);
    PlacedBounds(q.order, part, j, r);
    IdsAt(part, i, x);
    IdsAt(part, j, r);
    AtPlaces(Ids(part), i, j, r.id);
    SamePlace(q.order, part, i, j, x, r);
    OthersFound(q, rows, k, r);
  }

  lemma RowStands<D>(rows: seq<Row<D>>, r: Row<D>)
    requires Table(rows) && Has(rows, r.id)
    ensures var k := Place(rows, r.id);
            && k < |rows| && rows[k].id == r.id && rows == rows[..k] + [rows[k]] + rows[k + 1..]
            && Write(rows, r) == rows[..k] + [r] + rows[k + 1..] && Delete(rows, r.id) == rows[..k] + rows[k + 1..]
            && Table(Write(rows, r)) && Table(rows[..k] + rows[k + 1..]) && !Has(rows[..k] + rows[k + 1..], r.id)
  {
    hide Table;
    WriteTable(rows, r);
    DeleteKeepsTable(rows, r.id);
    Around(rows, Place(rows, r.id), r);
  }

  lemma Around<T>(s: seq<T>, k: nat, x: T)
    requires k < |s|
    ensures s == s[..k] + [s[k]] + s[k + 1..] && s[k := x] == s[..k] + [x] + s[k + 1..]
  {
  }

  lemma PlacedBounds<D>(order: Option<Order<D>>, found: seq<Row<D>>, k: nat, y: Row<D>)
    requires PlacedAt(order, found, k, y)
    ensures k <= |found|
  {
  }

  lemma OthersFound<D(!new)>(q: Query<D>, rows: seq<Row<D>>, k: nat, r: Row<D>)
    requires GoodQuery(q) && Table(rows) && k < |rows| && rows[k].id == r.id
    ensures var x, part := rows[k], Find(q, rows[..k] + rows[k + 1..]);
            KeepsPlace(q, rows, x, r) <==> forall y <- part :: Before(q.order, y, x) <==> Before(q.order, y, r)
  {
    FoundAre(q, rows[..k] + rows[k + 1..]);
    OthersAre(rows, k);
    hide Find;
    hide Before;
    hide Table;
  }

  lemma OthersAre<D>(rows: seq<Row<D>>, k: nat)
    requires Table(rows) && k < |rows|
    ensures forall y :: y in rows[..k] + rows[k + 1..] <==> y in rows && y.id != rows[k].id
  {
    forall y | y in rows && y.id != rows[k].id ensures y in rows[..k] + rows[k + 1..] {
      var i :| 0 <= i < |rows| && rows[i] == y;
      if i < k {
        assert y == rows[..k][i];
      } else {
        assert y == rows[k + 1..][i - k - 1];
      }
    }
  }

  lemma WriteTable<D>(rows: seq<Row<D>>, r: Row<D>)
    requires Table(rows)
    ensures Table(Write(rows, r))
  {
    if !Has(rows, r.id) {
      InsertKeepsTable(rows, r);
    }
  }

  lemma FoundAre<D(!new)>(q: Query<D>, rows: seq<Row<D>>)
    requires GoodQuery(q)
    ensures forall r :: r in Find(q, rows) <==> r in rows && q.where(r)
  {
    forall r ensures r in Find(q, rows) <==> r in rows && q.where(r) {
      FoundIn(q, rows, r);
    }
  }

  lemma CreateStaysInSyncIff<D(!new)>(q: Query<D>, s: Synced<D>, r: Row<D>)
    requires GoodQuery(q) && InSync(q, s)
    ensures InSync(q, Apply(q, s, Create(r))) <==> Followed(q, s.rows, Create(r))
  {
    WriteTable(s.rows, r);
    var found := Ids(Find(q, Write(s.rows, r)));
    if Has(s.rows, r.id) {
      OverwriteFound(q, s.rows, r);
      if q.where(s.rows[Place(s.rows, r.id)]) {
        PatchLength(s.ids, found);
      }
    } else {
      InsertFound(q, s.rows, r);
    }
  }

  lemma SaveStaysInSyncIff<D(!new)>(q: Query<D>, s: Synced<D>, r: Row<D>)
    requires GoodQuery(q) && InSync(q, s)
    ensures InSync(q, Apply(q, s, Save(r))) <==> Followed(q, s.rows, Save(r))
  {
    WriteTable(s.rows, r);
    if Has(s.rows, r.id) {
      OverwriteFound(q, s.rows, r);
    } else {
      InsertFound(q, s.rows, r);
    }
  }

  /** What a query finds after a row has been put under a free id. */
  lemma InsertFound<D(!new)>(q: Query<D>, rows: seq<Row<D>>, r: Row<D>)
    requires GoodQuery(q) && Table(rows) && !Has(rows, r.id)
    ensures var ids, found := Ids(Find(q, rows)), Ids(Find(q, Insert(rows, r)));
            PatchCreate(ids, found) == found && PatchDestroy(found, ids) == ids
            && if q.where(r) then |found| == |ids| + 1 else found == ids
  {
    var ids := Ids(Find(q, rows));
    FindInsert(q, rows, r);
    MismatchSame(ids);
    if q.where(r) {
      NewIdNotFound(q, rows, r.id);
      OneMoreIds(Find(q, rows), Find(q, Insert(rows, r)), r);
      PatchOneMore(ids, Ids(Find(q, Insert(rows, r))), r.id);
    }
  }

  /** What a query finds after a stored row has been written over. */
  lemma OverwriteFound<D(!new)>(q: Query<D>, rows: seq<Row<D>>, r: Row<D>)
    requires GoodQuery(q) && Table(rows) && Has(rows, r.id)
    ensures var ids, found, was := Ids(Find(q, rows)), Ids(Find(q, Write(rows, r))), rows[Place(rows, r.id)];
            && (q.where(was) && q.where(r) ==> |found| == |ids| && (found == ids <==> KeepsPlace(q, rows, was, r)))
            && (q.where(was) && !q.where(r) ==> |found| < |ids|)
            && (!q.where(was) ==> PatchCreate(ids, found) == found && if q.where(r) then |found| > |ids| else found == ids)
  {
    var k := Place(rows, r.id);
    var rest, x := Delete(rows, r.id), rows[k];
    DeleteKeepsTable(rows, r.id);
    DeletedInsert(rows, r.id);
    WrittenInsert(rows, r);
    InsertFound(q, rest, x);
    InsertFound(q, rest, r);
    if q.where(x) && q.where(r) {
      FoundInPlaceIff(q, rows, r);
    }
  }

  lemma WrittenInsert<D>(rows: seq<Row<D>>, r: Row<D>)
    requires Table(rows) && Has(rows, r.id)
    ensures Insert(Delete(rows, r.id), r) == Write(rows, r)
  {
    var k := Place(rows, r.id);
    DeleteTable(rows, k);
    hide Table;
    PlaceIs(Delete(rows, r.id), r.id, k);
    PutBack(rows, k, r);
  }

  /** A patch never makes a list shorter, and makes it longer when it is as long but not the same. */
  lemma PatchLength(a: seq<nat>, b: seq<nat>)
    requires |b| <= |a|
    ensures PatchCreate(a, b) == b <==> a == b
  {
    MismatchSame(a);
    if Mismatch(a, b) == |b| {
      MismatchNone(a, b);
    }
  }

  lemma DestroyStaysInSync<D(!new)>(q: Query<D>, s: Synced<D>, id: nat)
    requires GoodQuery(q) && InSync(q, s)
    ensures InSync(q, Apply(q, s, Destroy(id)))
  {
    DeleteKeepsTable(s.rows, id);
    if Has(s.rows, id) {
      DeletedInsert(s.rows, id);
      InsertFound(q, Delete(s.rows, id), s.rows[Place(s.rows, id)]);
    } else {
      MismatchSame(s.ids);
    }
  }

  /** A change leaves a synchronized result set equal to its query if and only if it can be followed. */
  lemma ApplyStaysInSyncIff<D(!new)>(q: Query<D>, s: Synced<D>, c: Change<D>)
    requires GoodQuery(q) && InSync(q, s)
    ensures InSync(q, Apply(q, s, c)) <==> Followed(q, s.rows, c)
  {
    match c
    case Create(r) => CreateStaysInSyncIff(q, s, r);
    case Save(r) => SaveStaysInSyncIff(q, s, r);
    case Destroy(id) => DestroyStaysInSync(q, s, id);
  }

  ghost function Run<D(!new)>(q: Query<D>, s: Synced<D>, changes: seq<Change<D>>): Synced<D>
    decreases |changes|
  {
    if changes == [] then s else Run(q, Apply(q, s, changes[0]), changes[1..])
  }

  /** Every change of the run can be followed. */
  ghost predicate FollowedRun<D(!new)>(q: Query<D>, s: Synced<D>, changes: seq<Change<D>>)
    decreases |changes|
  {
    changes == [] || (Followed(q, s.rows, changes[0]) && FollowedRun(q, Apply(q, s, changes[0]), changes[1..]))
  }

  /** The result set is right at the beginning and after every change. */
  ghost predicate AlwaysInSync<D(!new)>(q: Query<D>, s: Synced<D>, changes: seq<Change<D>>)
    decreases |changes|
  {
    InSync(q, s) && (changes == [] || AlwaysInSync(q, Apply(q, s, changes[0]), changes[1..]))
  }

  /** Over any run of creates, saves and destroys, a synchronized result set always holds exactly the
      ids, in order, that running its query again would find, if and only if every change can be
      followed. */
  lemma {:induction false} RunStaysInSyncIff<D(!new)>(q: Query<D>, s: Synced<D>, changes: seq<Change<D>>)
    requires GoodQuery(q) && InSync(q, s)
    ensures AlwaysInSync(q, s, changes) <==> FollowedRun(q, s, changes)
    ensures FollowedRun(q, s, changes) ==> InSync(q, Run(q, s, changes))
    decreases |changes|
  {
    hide InSync;
    if changes != [] {
      var next := Apply(q, s, changes[0]);
      ApplyStaysInSyncIff(q, s, changes[0]);
      if InSync(q, next) {
        RunStaysInSyncIff(q, next, changes[1..]);
      }
    }
  }

  /** Creates under free ids and destroys can always be followed; without an order, so can a create
      that writes over a row unless the old row is found and the new one is not. */
  lemma FollowedSimply<D(!new)>(q: Query<D>, rows: seq<Row<D>>, r: Row<D>)
    requires Table(rows)
    ensures !Has(rows, r.id) ==> Followed(q, rows, Create(r))
    ensures Has(rows, r.id) && q.order == None ==>
              (Followed(q, rows, Create(r)) <==> (q.where(rows[Place(rows, r.id)]) ==> q.where(r)))
  {
  }

  /** Creating a record under the id of a row that is found, with data that is not, leaves a stale id
      behind and puts another one in twice. */
  lemma OverwritingBreaksSync()
    ensures var q: Query<bool> := Query((r: Row<bool>) => r.data, None);
            var s := Synced([Row(1, true), Row(2, true)], [1, 2]);
            var s' := Apply(q, s, Create(Row(1, false)));
            && InSync(q, s) && !Followed(q, s.rows, Create(Row(1, false)))
            && Ids(Find(q, s'.rows)) == [2] && s'.ids == [2, 1, 2]
  {
    var q: Query<bool> := Query((r: Row<bool>) => r.data, None);
    var a, b, c := Row(1, true), Row(2, true), Row(1, false);
    assert [a, b][1..] == [b] && [b][1..] == [] && [c, b][1..] == [b];
    assert Place([a, b], 1) == 0;
    assert Write([a, b], c) == [c, b];
    assert Filter(q.where, [b]) == [b] + [] == [b];
    assert Filter(q.where, [a, b]) == [a] + [b];
    assert Filter(q.where, [c, b]) == [] + [b] == [b];
    assert Ids([a, b]) == [1, 2];
  }
}
