/** The in-memory adapter and the synchronized result sets as the objects that change: a table, and
    the result sets registered on it, each with the parameters of its query. */
module RecordStore {
  import opened Basics
  import opened RecordQuery

  /** The arguments of one `splice`: where, how many to drop, and what to put in. */
  datatype Splice = Splice(at: nat, drop: nat, put: seq<nat>)

  function Spliced(a: seq<nat>, s: Splice): seq<nat> {
    var at := Min(s.at, |a|);
    a[..at] + s.put + a[Min(at + s.drop, |a|)..]
  }

  function SplicedAll(a: seq<nat>, splices: seq<Splice>): seq<nat>
    decreases |splices|
  {
    if splices == [] then a else SplicedAll(Spliced(a, splices[0]), splices[1..])
  }

  lemma {:induction false} MismatchIs(a: seq<nat>, b: seq<nat>, k: nat)
    requires k <= |b| && k <= |a| && a[..k] == b[..k]
    requires k < |b| && k < |a| ==> a[k] != b[k]
    ensures Mismatch(a, b) == k
  {
    if k > 0 {
      assert a[0] == a[..k][0] == b[..k][0] == b[0];
      assert a[1..][..k - 1] == a[..k][1..] && b[1..][..k - 1] == b[..k][1..];
      MismatchIs(a[1..], b[1..], k - 1);
    }
  }

  /** `spliceArgumentsFromResultSetDiff` */
  method SpliceArguments(a: seq<nat>, b: seq<nat>, created: bool) returns (diffs: seq<Splice>)
    ensures SplicedAll(a, diffs) == if created then PatchCreate(a, b) else PatchDestroy(a, b)
  {
    diffs := [];
    if created {
      var i := 0;
      while i < |b|
        invariant i <= |b| && i <= |a| && a[..i] == b[..i]
      {
        if i >= |a| || a[i] != b[i] {
          diffs := [Splice(i, 0, [b[i]])];
          break;
        }
        i := i + 1;
      }
      MismatchIs(a, b, i);
      if diffs != [] {
        assert SplicedAll(a, diffs) == Spliced(a, diffs[0]);
      }
    } else {
      var i := 0;
      while i < |a|
        invariant i <= |a| && i <= |b| && a[..i] == b[..i]
      {
        if i >= |b| || b[i] != a[i] {
          diffs := [Splice(i, 1, [])];
          break;
        }
        i := i + 1;
      }
      MismatchIs(b, a, i);
      if diffs != [] {
        assert SplicedAll(a, diffs) == Spliced(a, diffs[0]);
        AppendNothing(a[..i]);
      }
    }
  }

  lemma InsertLast<D>(rows: seq<Row<D>>, r: Row<D>)
    requires Table(rows) && forall row <- rows :: row.id < r.id
    ensures !Has(rows, r.id) && Insert(rows, r) == rows + [r] && Table(rows + [r])
  {
    hide Table;
    PlaceIs(rows, r.id, |rows|);
    InsertTable(rows, |rows|, r);
    AppendNothing(rows + [r]);
  }

  /** A result set of `find` with `synchronize`: a list that the library keeps splicing. */
  class ResultSet<D(!new)> {
    const query: Query<D>
    var ids: seq<nat>

    constructor (query: Query<D>, ids: seq<nat>)
      ensures this.query == query && this.ids == ids
    {
      this.query := query;
      this.ids := ids;
    }

    method SpliceAll(splices: seq<Splice>)
      modifies this
      ensures ids == SplicedAll(old(ids), splices)
    {
      var x := 0;
      while x < |splices|
        invariant x <= |splices|
        invariant SplicedAll(ids, splices[x..]) == SplicedAll(old(ids), splices)
      {
        ids := Spliced(ids, splices[x]);
        x := x + 1;
      }
    }
  }

  class Store<D(!new)> {
    var rows: seq<Row<D>>
    var lastInsertId: nat
    var resultSets: seq<ResultSet<D>>

    /** The table is in order, no id is zero, and no result set is registered twice. */
    ghost predicate Valid()
      reads this, resultSets
    {
      && Table(rows) && (forall r <- rows :: r.id > 0)
      && (forall i, j :: 0 <= i < j < |resultSets| ==> resultSets[i] != resultSets[j])
      && forall s <- resultSets :: GoodQuery(s.query)
    }

    /** Every registered result set holds what its query would find now. */
    ghost predicate InSync()
      reads this, resultSets
    {
      forall s <- resultSets :: s.ids == Ids(Find(s.query, rows))
    }

    constructor ()
      ensures Valid() && InSync() && rows == [] && resultSets == []
    {
      rows, lastInsertId, resultSets := [], 0, [];
    }

    /** `findEntities`: collect the rows, then run them through the filters in turn. */
    method FindEntities(q: Query<D>) returns (found: seq<Row<D>>)
      ensures found == Find(q, rows)
    {
      var entities := [];
      var i := 0;
      while i < |rows|
        invariant i <= |rows| && entities == rows[..i]
      {
        entities := entities + [rows[i]];
        i := i + 1;
      }
      assert rows[..i] == rows;
      found := Where(q.where, entities);
      if q.order.Some? {
        found := Sort(q.order.value.less, found);
        if q.order.value.descending {
          found := Reversed(found);
        }
      }
    }

    static method Where(where: Row<D> -> bool, rows: seq<Row<D>>) returns (response: seq<Row<D>>)
      ensures response == Filter(where, rows)
    {
      response := [];
      var i := 0;
      while i < |rows|
        invariant i <= |rows| && response == Filter(where, rows[..i])
      {
        assert rows[..i + 1] == rows[..i] + [rows[i]];
        FilterAppend(where, rows[..i], [rows[i]]);
        if where(rows[i]) {
          response := response + [rows[i]];
        }
        i := i + 1;
      }
      assert rows[..i] == rows;
    }

    /** The id `insertEntity` picks: one, or one more than some id in the table, and above them all. */
    method NextId() returns (max: nat)
      ensures max >= 1 && (forall r <- rows :: r.id < max)
      ensures max == 1 || exists r <- rows :: r.id == max - 1
    {
      max := 1;
      var i := 0;
      while i < |rows|
        invariant i <= |rows| && max >= 1 && forall r <- rows[..i] :: r.id < max
        invariant max == 1 || exists r <- rows[..i] :: r.id == max - 1
      {
        if rows[i].id >= max {
          max := rows[i].id + 1;
        }
        i := i + 1;
      }
    }

    /** `insertEntity` under the given id, or under a new one when it is zero. */
    method InsertEntity(data: D, given: nat)
      requires Valid()
      modifies this
      ensures Valid() && resultSets == old(resultSets)
      ensures lastInsertId > 0 && rows == Write(old(rows), Row(lastInsertId, data))
      ensures if given > 0 then lastInsertId == given
              else !Has(old(rows), lastInsertId) && forall r <- old(rows) :: r.id < lastInsertId
    {
      var id := given;
      if id == 0 {
        id := NextId();
        InsertLast(rows, Row(id, data));
      }
      lastInsertId := id;
      Put(Row(id, data));
    }

    /** `storage[table][id] = data` */
    method Put(r: Row<D>)
      requires Valid() && r.id > 0
      modifies this`rows
      ensures Valid() && rows == Write(old(rows), r)
    {
      WriteTable(rows, r);
      hide Table;
      var k := Place(rows, r.id);
      if Has(rows, r.id) {
        rows := rows[k := r];
      } else {
        rows := rows[..k] + [r] + rows[k..];
      }
    }

    method DeleteEntity(id: nat) returns (deleted: bool)
      requires Valid()
      modifies this
      ensures Valid() && resultSets == old(resultSets) && lastInsertId == old(lastInsertId)
      ensures deleted == Has(old(rows), id) && rows == Delete(old(rows), id)
    {
      DeleteKeepsTable(rows, id);
      deleted := Has(rows, id);
      if deleted {
        var k := Place(rows, id);
        rows := rows[..k] + rows[k + 1..];
      }
    }

    /** `triggerSynchronizationNotifications`: every result set is compared with what its query finds
        now, and spliced. */
    method Trigger(created: bool)
      requires Valid()
      modifies resultSets
      ensures Valid()
      ensures forall s <- resultSets ::
                s.ids == if created then PatchCreate(old(s.ids), Ids(Find(s.query, rows)))
                         else PatchDestroy(old(s.ids), Ids(Find(s.query, rows)))
    {
      var i := 0;
      while i < |resultSets|
        invariant i <= |resultSets| && Valid()
        invariant forall s <- resultSets[..i] ::
                    s.ids == if created then PatchCreate(old(s.ids), Ids(Find(s.query, rows)))
                             else PatchDestroy(old(s.ids), Ids(Find(s.query, rows)))
        invariant forall s <- resultSets[i..] :: s.ids == old(s.ids)
      {
        var set_ := resultSets[i];
        var found := FindEntities(set_.query);
        var splices := SpliceArguments(set_.ids, Ids(found), created);
        assert set_ in resultSets[i..];
        set_.SpliceAll(splices);
        i := i + 1;
      }
    }

    /** `save` of a record as new: each synchronized result set stays right exactly if it can follow,
        and all do when the record goes under a free id. */
    method Create(data: D, given: nat) returns (id: nat)
      requires Valid() && InSync()
      modifies this, resultSets
      ensures Valid() && resultSets == old(resultSets)
      ensures id > 0 && rows == Write(old(rows), Row(id, data))
      ensures if given > 0 then id == given else !Has(old(rows), id)
      ensures forall s <- resultSets ::
                s.ids == Ids(Find(s.query, rows)) <==> Followed(s.query, old(rows), Change.Create(Row(id, data)))
      ensures !Has(old(rows), id) ==> InSync()
    {
      ghost var before := rows;
      InsertEntity(data, given);
      id := lastInsertId;
      Trigger(true);
      ghost var change := Change.Create(Row(id, data));
      forall s <- resultSets ensures s.ids == Ids(Find(s.query, rows)) <==> Followed(s.query, before, change) {
        ApplyStaysInSyncIff(s.query, Synced(before, old(s.ids)), change);
      }
    }

    /** `save` of a record that has been saved before: no result set is patched. */
    method Save(r: Row<D>)
      requires Valid() && InSync() && r.id > 0
      modifies this`rows
      ensures Valid() && rows == Write(old(rows), r)
      ensures forall s <- resultSets ::
                s.ids == Ids(Find(s.query, rows)) <==> Followed(s.query, old(rows), Change.Save(r))
    {
      ghost var before := rows;
      Put(r);
      forall s <- resultSets ensures s.ids == Ids(Find(s.query, rows)) <==> Followed(s.query, before, Change.Save(r)) {
        ApplyStaysInSyncIff(s.query, Synced(before, s.ids), Change.Save(r));
      }
    }

    /** `destroy`, also of a record whose row is gone already; refused for a record without an id. */
    method Destroy(id: nat) returns (destroyed: bool)
      requires Valid() && InSync()
      modifies this, resultSets
      ensures Valid() && InSync() && resultSets == old(resultSets)
      ensures rows == Delete(old(rows), id) && destroyed == (id > 0)
    {
      if id == 0 { return false; }
      ghost var before := rows;
      var deleted := DeleteEntity(id);
      Trigger(false);
      forall s <- resultSets ensures s.ids == Ids(Find(s.query, rows)) {
        ApplyStaysInSyncIff(s.query, Synced(before, old(s.ids)), Change.Destroy(id));
      }
      return true;
    }

    /** `find` with `synchronize`. */
    method Synchronize(q: Query<D>) returns (s: ResultSet<D>)
      requires Valid() && InSync() && GoodQuery(q)
      modifies this
      ensures Valid() && InSync() && rows == old(rows)
      ensures fresh(s) && resultSets == old(resultSets) + [s] && s.query == q && s.ids == Ids(Find(q, rows))
    {
      var found := FindEntities(q);
      s := new ResultSet(q, Ids(found));
      resultSets := resultSets + [s];
    }
  }
}
