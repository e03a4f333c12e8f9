/** Counter columns, kept by observers along with cascading destroys. */
module CounterCache {
  import opened Basics
  import opened DependentDestroy

  // A model that belongs to another one with a counter adds one to its parent's column when a record is
  // created and takes one off when it is destroyed. It may belong to several. Ids are given out as the
  // highest id in use plus one, so the id of a destroyed row can come back.

  /** `belongsTo(table, {counter: …, foreignKey: key})` */
  datatype Owner = Owner(table: string, key: string)

  /** What a model observes: a dependent `hasMany` cascades, a `belongsTo` with a counter counts. */
  datatype Observer = Dependents(rel: Relation) | Counter(owner: Owner)

  /** The observers of each model, in the order of their declaration. */
  type Models = map<string, seq<Observer>>

  function Observers(m: Models, table: string): seq<Observer> {
    if table in m then m[table] else []
  }

  function Cascades(obs: seq<Observer>): (rels: seq<Relation>)
    ensures forall rel :: rel in rels <==> Dependents(rel) in obs
  {
    if obs == [] then []
    else
      assert obs == [obs[0]] + obs[1..];
      (if obs[0].Dependents? then [obs[0].rel] else []) + Cascades(obs[1..])
  }

  function SchemaOf(m: Models): (schema: Schema)
    ensures forall t :: Relations(schema, t) == Cascades(Observers(m, t))
  {
    map t | t in m :: Cascades(m[t])
  }

  /** A counter column: that of the row `parent` for the children which refer to it by `rel`. */
  datatype Column = Column(parent: Ref, rel: Relation)

  /** The columns that are defined. */
  type Counts = map<Column, nat>

  datatype State = State(db: seq<Entry>, counts: Counts)

  function Count(counts: Counts, col: Column): nat {
    if col in counts then counts[col] else 0
  }

  /** The id a foreign key holds; zero counts as none. */
  function Parent(e: Entry, o: Owner): Option<Ref> {
    if o.key in e.keys && e.keys[o.key] != 0 then Some(Ref(o.table, e.keys[o.key])) else None
  }

  /** The related list as records, with the foreign keys they were read with. */
  function Records(db: seq<Entry>, rel: Relation, id: nat): (r: seq<Entry>)
    ensures forall e :: e in r <==> e in db && Refers(e, rel, id)
  {
    if db == [] then []
    else
      assert db == [db[0]] + db[1..];
      (if Refers(db[0], rel, id) then [db[0]] else []) + Records(db[1..], rel, id)
  }

  // -------------------------------------------------------------- operations

  function CountUp(s: State, record: Entry, o: Owner): (r: State)
    ensures r.db == s.db
  {
    var p := Parent(record, o);
    if p.Some? && p.value in Refs(s.db) then
      var col := Column(p.value, Relation(record.ref.table, o.key));
      s.(counts := s.counts[col := Count(s.counts, col) + 1])
    else s
  }

  function CountDown(s: State, record: Entry, o: Owner): (r: State)
    ensures r.db == s.db
  {
    var p := Parent(record, o);
    if p.Some? && p.value in Refs(s.db) then
      var col := Column(p.value, Relation(record.ref.table, o.key));
      var current := Count(s.counts, col);
      s.(counts := s.counts[col := if current == 0 then 0 else current - 1])
    else s
  }

  /** The row goes, and its columns with it. */
  function DeleteRow(s: State, ref: Ref): State {
    State(Delete(s.db, ref), map k | k in s.counts && k.parent != ref :: s.counts[k])
  }

  function DestroyRecord(m: Models, s: State, record: Entry): (r: State)
    ensures |r.db| <= |s.db| && (record.ref in Refs(s.db) ==> |r.db| < |s.db|)
    decreases |s.db|, if record.ref in Refs(s.db) then 0 else 3, 0
  {
    AfterDestroy(m, DeleteRow(s, record.ref), record, Observers(m, record.ref.table))
  }

  /** The observers of `afterDestroy`, in turn. */
  function AfterDestroy(m: Models, s: State, record: Entry, obs: seq<Observer>): (r: State)
    ensures |r.db| <= |s.db|
    decreases |s.db|, 2, |obs|
  {
    if obs == [] then s
    else
      match obs[0]
      case Counter(o) => AfterDestroy(m, CountDown(s, record, o), record, obs[1..])
      case Dependents(rel) =>
        var list := Records(s.db, rel, record.ref.id);
        assert list == [] || list[0] in list;
        AfterDestroy(m, DestroyRecords(m, s, list), record, obs[1..])
  }

  function DestroyRecords(m: Models, s: State, list: seq<Entry>): (r: State)
    ensures |r.db| <= |s.db|
    decreases |s.db|, if list == [] || list[0].ref in Refs(s.db) then 1 else 4, |list|
  {
    if list == [] then s else DestroyRecords(m, DestroyRecord(m, s, list[0]), list[1..])
  }

  /** The highest id in the table plus one, or one. */
  function NextId(db: seq<Entry>, table: string): (id: nat)
    ensures id >= 1 && forall e :: e in db && e.ref.table == table ==> e.ref.id < id
    ensures id == 1 || Ref(table, id - 1) in Refs(db)
  {
    if db == [] then 1
    else
      var front, last := db[..|db| - 1], db[|db| - 1];
      assert db == front + [last];
      var id := NextId(front, table);
      if last.ref.table == table && last.ref.id >= id then
        assert Ref(table, last.ref.id) == last.ref;
        last.ref.id + 1
      else id
  }

  /** The observers of `afterCreate`. */
  function AfterCreate(s: State, record: Entry, obs: seq<Observer>): (r: State)
    ensures r.db == s.db
    decreases |obs|
  {
    if obs == [] then s
    else AfterCreate(if obs[0].Counter? then CountUp(s, record, obs[0].owner) else s, record, obs[1..])
  }

  /** `save` of a new record. */
  function CreateRecord(m: Models, s: State, table: string, keys: map<string, nat>): (r: State)
    ensures r.db == s.db + [Entry(Ref(table, NextId(s.db, table)), keys)]
  {
    var record := Entry(Ref(table, NextId(s.db, table)), keys);
    AfterCreate(s.(db := s.db + [record]), record, Observers(m, table))
  }

  // -------------------------------------- the cascade is that of DependentDestroy

  function RefsOf(list: seq<Entry>): seq<Ref> {
    if list == [] then [] else [list[0].ref] + RefsOf(list[1..])
  }

  lemma {:induction false} RecordsAreListed(db: seq<Entry>, rel: Relation, id: nat)
    ensures RefsOf(Records(db, rel, id)) == List(db, rel, id)
  {
    if db != [] {
      RecordsAreListed(db[1..], rel, id);
      var rest := Records(db[1..], rel, id);
      if Refers(db[0], rel, id) {
        assert ([db[0]] + rest)[1..] == rest;
      } else {
        AppendNothing(rest);
        AppendNothing(List(db[1..], rel, id));
      }
    }
  }

  /** Counting does not change which rows a destroy removes. */
  lemma {:induction false} DestroyedRows(m: Models, s: State, record: Entry)
    ensures DestroyRecord(m, s, record).db == Destroy(SchemaOf(m), s.db, record.ref).db
    decreases |s.db|, if record.ref in Refs(s.db) then 0 else 3, 0
  {
    ObservedRows(m, DeleteRow(s, record.ref), record, Observers(m, record.ref.table));
  }

  lemma {:induction false} ObservedRows(m: Models, s: State, record: Entry, obs: seq<Observer>)
    ensures AfterDestroy(m, s, record, obs).db == DestroyRelated(SchemaOf(m), s.db, record.ref, Cascades(obs)).db
    decreases |s.db|, 2, |obs|
  {
    hide SchemaOf;
    if obs != [] {
      match obs[0]
      case Counter(o) =>
        AppendNothing(Cascades(obs[1..]));
        ObservedRows(m, CountDown(s, record, o), record, obs[1..]);
      case Dependents(rel) =>
        var list := Records(s.db, rel, record.ref.id);
        assert list == [] || list[0] in list;
        RecordsAreListed(s.db, rel, record.ref.id);
        DestroyedListRows(m, s, list);
        ObservedRows(m, DestroyRecords(m, s, list), record, obs[1..]);
        assert Cascades(obs)[0] == rel && Cascades(obs)[1..] == Cascades(obs[1..]);
    }
  }

  lemma {:induction false} DestroyedListRows(m: Models, s: State, list: seq<Entry>)
    ensures DestroyRecords(m, s, list).db == DestroyAll(SchemaOf(m), s.db, RefsOf(list)).db
    decreases |s.db|, if list == [] || list[0].ref in Refs(s.db) then 1 else 4, |list|
  {
    hide SchemaOf;
    if list != [] {
      DestroyedRows(m, s, list[0]);
      DestroyedListRows(m, DestroyRecord(m, s, list[0]), list[1..]);
      assert RefsOf(list)[1..] == RefsOf(list[1..]);
    }
  }

  lemma RecordKept(m: Models, s: State, record: Entry)
    ensures var db := DestroyRecord(m, s, record).db;
            Kept(s.db, db) && record.ref !in Refs(db) && forall r :: r in Refs(db) ==> r in Refs(s.db)
  {
    DestroyedRows(m, s, record);
    DestroyCascades(SchemaOf(m), s.db, record.ref);
    KeptAllRefs(s.db, DestroyRecord(m, s, record).db);
  }

  lemma RecordsKept(m: Models, s: State, list: seq<Entry>)
    ensures var db := DestroyRecords(m, s, list).db; Kept(s.db, db) && forall r :: r in Refs(db) ==> r in Refs(s.db)
  {
    DestroyedListRows(m, s, list);
    AllCascade(SchemaOf(m), s.db, RefsOf(list));
    KeptAllRefs(s.db, DestroyRecords(m, s, list).db);
  }

  lemma ObserversKept(m: Models, s: State, record: Entry, obs: seq<Observer>)
    ensures var db := AfterDestroy(m, s, record, obs).db; Kept(s.db, db) && forall r :: r in Refs(db) ==> r in Refs(s.db)
  {
    ObservedRows(m, s, record, obs);
    RelatedCascades(SchemaOf(m), s.db, record.ref, Cascades(obs));
    KeptAllRefs(s.db, AfterDestroy(m, s, record, obs).db);
  }

  lemma KeptAllRefs(db: seq<Entry>, db': seq<Entry>)
    requires Kept(db, db')
    ensures forall r :: r in Refs(db') ==> r in Refs(db)
  {
    forall r | r in Refs(db') ensures r in Refs(db) {
      KeptRefs(db, db', r);
    }
  }

  // ------------------------------------------------------------- the columns

  /** The column is one that is counted. */
  ghost predicate Counted(m: Models, col: Column) {
    col.parent.id > 0 && Counter(Owner(col.parent.table, col.rel.key)) in Observers(m, col.rel.child)
  }

  function Children(db: seq<Entry>, col: Column): seq<Ref> {
    List(db, col.rel, col.parent.id)
  }

  ghost predicate IsChild(e: Entry, col: Column) {
    Refers(e, col.rel, col.parent.id)
  }

  function NotNegative(n: int): nat {
    if n < 0 then 0 else n
  }

  /** The column is `d` too low; but it does not fall below zero. */
  ghost predicate Low(s: State, col: Column, d: int) {
    Count(s.counts, col) == NotNegative(|Children(s.db, col)| - d)
  }

  /** The column is at least `d` too low. */
  ghost predicate Lower(s: State, col: Column, d: int) {
    Count(s.counts, col) <= NotNegative(|Children(s.db, col)| - d)
  }

  ghost predicate Hits(record: Entry, x: Observer, col: Column) {
    x.Counter? && Parent(record, x.owner) == Some(col.parent) && Relation(record.ref.table, x.owner.key) == col.rel
  }

  /** How often the observers change the column on account of the record. */
  ghost function Due(record: Entry, obs: seq<Observer>, col: Column): nat {
    if obs == [] then 0 else (if Hits(record, obs[0], col) then 1 else 0) + Due(record, obs[1..], col)
  }

  ghost predicate CountsOnce(obs: seq<Observer>) {
    forall i, j :: 0 <= i < j < |obs| && obs[i].Counter? ==> obs[i] != obs[j]
  }

  lemma {:induction false} DueIs(record: Entry, obs: seq<Observer>, col: Column)
    requires CountsOnce(obs) && col.parent.id > 0
    ensures Due(record, obs, col) ==
            if IsChild(record, col) && Counter(Owner(col.parent.table, col.rel.key)) in obs then 1 else 0
  {
    if obs != [] {
      var rest := obs[1..];
      assert forall i :: 0 <= i < |rest| ==> rest[i] == obs[i + 1];
      DueIs(record, rest, col);
      var x := Counter(Owner(col.parent.table, col.rel.key));
      assert x in obs <==> x == obs[0] || x in rest;
      assert Hits(record, obs[0], col) <==> obs[0] == x && IsChild(record, col);
    }
  }

  /** The row that is stored under the reference is a child. */
  ghost function Was(db: seq<Entry>, ref: Ref, col: Column): nat {
    if ref in Children(db, col) then 1 else 0
  }

  lemma WasIs(db: seq<Entry>, e: Entry, col: Column)
    requires Distinct(db)
    ensures e in db ==> Was(db, e.ref, col) == if IsChild(e, col) then 1 else 0
    ensures e.ref !in Refs(db) ==> Was(db, e.ref, col) == 0
  {
    if e.ref in Children(db, col) {
      var x :| x in db && x.ref == e.ref && IsChild(x, col);
      if e in db {
        DistinctSame(db, e, x);
      }
    }
  }

  lemma {:induction false} DeleteMissing(db: seq<Entry>, ref: Ref)
    requires ref !in Refs(db)
    ensures Delete(db, ref) == db
  {
    if db != [] {
      assert db[0].ref in Refs(db);
      DeleteMissing(db[1..], ref);
      assert db == [db[0]] + db[1..];
    }
  }

  lemma {:induction false} ListDelete(db: seq<Entry>, rel: Relation, id: nat, e: Entry)
    requires Distinct(db) && e in db
    ensures |List(Delete(db, e.ref), rel, id)| == |List(db, rel, id)| - if Refers(e, rel, id) then 1 else 0
  {
    assert db == [db[0]] + db[1..];
    if db[0].ref == e.ref {
      DistinctSame(db, db[0], e);
      DeleteMissing(db[1..], e.ref);
      AppendNothing(db[1..]);
    } else {
      ListDelete(db[1..], rel, id, e);
      var rest := Delete(db[1..], e.ref);
      assert Delete(db, e.ref)[0] == db[0] && Delete(db, e.ref)[1..] == rest;
    }
  }

  lemma DeleteRefs(db: seq<Entry>, ref: Ref)
    ensures Refs(Delete(db, ref)) == Refs(db) - {ref}
  {
    forall r | r in Refs(db) - {ref} ensures r in Refs(Delete(db, ref)) {
      var e :| e in db && e.ref == r;
      assert e in Delete(db, ref);
    }
  }

  lemma DeletedChildren(db: seq<Entry>, ref: Ref, col: Column)
    requires Distinct(db)
    ensures |Children(Delete(db, ref), col)| == |Children(db, col)| - Was(db, ref, col)
  {
    if ref in Refs(db) {
      var e :| e in db && e.ref == ref;
      ListDelete(db, col.rel, col.parent.id, e);
      WasIs(db, e, col);
    } else {
      DeleteMissing(db, ref);
      assert ref !in Children(db, col);
    }
  }

  /** When a row goes, its parents' columns are one less too low. */
  lemma DeleteRowLow(s: State, ref: Ref, col: Column, d: int)
    requires Distinct(s.db) && col.parent != ref
    ensures Low(s, col, d) ==> Low(DeleteRow(s, ref), col, d - Was(s.db, ref, col))
    ensures Lower(s, col, d) ==> Lower(DeleteRow(s, ref), col, d - Was(s.db, ref, col))
  {
    DeletedChildren(s.db, ref, col);
    hide Delete;
    hide List;
  }

  lemma CountDownLow(s: State, record: Entry, o: Owner, col: Column, d: int)
    requires col.parent in Refs(s.db)
    ensures var more := if Hits(record, Counter(o), col) then 1 else 0;
            && (Low(s, col, d) ==> Low(CountDown(s, record, o), col, d + more))
            && (Lower(s, col, d) ==> Lower(CountDown(s, record, o), col, d + more))
  {
    hide List;
    hide Refs;
  }

  // --------------------------------------------- announcing a record twice

  /** A listed record is stored, or has gone together with every row that counts it. */
  ghost predicate Pending(m: Models, db: seq<Entry>, e: Entry) {
    e in db || (e.ref !in Refs(db) && Uncounted(m, db, e))
  }

  ghost predicate Uncounted(m: Models, db: seq<Entry>, e: Entry) {
    forall o :: Counter(o) in Observers(m, e.ref.table) && Parent(e, o).Some? ==> Parent(e, o).value !in Refs(db)
  }

  /** The child of two relations between which its own cascade leads is not counted by a third. */
  ghost predicate NoThirdOwner(m: Models) {
    forall t, r, u, s, o :: Entangled(SchemaOf(m), t, r, u, s) && Counter(o) in Observers(m, r.child) ==>
      o == Owner(t, r.key) || o == Owner(u, s.key)
  }

  /** What a destroy takes along, it takes along with one of its parents. */
  lemma GoneParent(schema: Schema, db: seq<Entry>, ref: Ref, e: Entry) returns (q: Ref, s: Relation)
    requires Distinct(db) && e in db && e.ref != ref && e !in Destroy(schema, db, ref).db
    ensures (q == ref || q in Refs(db)) && q !in Refs(Destroy(schema, db, ref).db)
    ensures s in Relations(schema, q.table) && Refers(e, s, q.id) && Leads(schema, ref.table, q.table)
  {
    var db' := Destroy(schema, db, ref).db;
    DestroyedReachable(schema, db, ref, e);
    var path :| PathTo(schema, db, ref, path, e);
    var rels;
    q, rels := PathParent(schema, db, ref, path);
    DestroyCascades(schema, db, ref);
    if q != ref {
      var front := path[..|path| - 1];
      PathFront(schema, db, ref, path);
      PathDestroyed(schema, db, ref, ref, front);
      var x := front[|front| - 1];
      assert x.ref == q;
      PathIn(schema, db, ref, front);
    }
    s :| s in Relations(schema, q.table) && Refers(e, s, q.id);
  }

  lemma {:induction false} PathFront(schema: Schema, db: seq<Entry>, p: Ref, path: seq<Entry>)
    requires path != [] && Path(schema, db, p, path)
    ensures Path(schema, db, p, path[..|path| - 1])
    decreases |path|
  {
    hide ChildOf;
    if |path| > 1 {
      PathFront(schema, db, path[0].ref, path[1..]);
      assert path[1..][..|path| - 2] == path[..|path| - 1][1..];
    }
  }

  lemma {:induction false} PathIn(schema: Schema, db: seq<Entry>, p: Ref, path: seq<Entry>)
    requires path != [] && Path(schema, db, p, path)
    ensures path[|path| - 1] in db
    decreases |path|
  {
    hide ChildOf;
    if |path| > 1 {
      PathIn(schema, db, path[0].ref, path[1..]);
    }
  }

  /** While the children of `p` are destroyed in turn, those that are left stay pending. */
  lemma PendingKept(m: Models, db: seq<Entry>, x: Entry, e: Entry, p: Ref, rel: Relation)
    requires NoThirdOwner(m) && Distinct(db) && p !in Refs(db) && rel in Relations(SchemaOf(m), p.table)
    requires Refers(x, rel, p.id) && Refers(e, rel, p.id) && x.ref != e.ref && x.ref != p
    requires Pending(m, db, e)
    ensures Pending(m, Destroy(SchemaOf(m), db, x.ref).db, e)
  {
    var db' := Destroy(SchemaOf(m), db, x.ref).db;
    DestroyCascades(SchemaOf(m), db, x.ref);
    KeptAllRefs(db, db');
    hide *;
    if e in db && e !in db' {
      var q, s := GoneParent(SchemaOf(m), db, x.ref, e);
      GoneRef(db, db', e);
      TwoParents(m, db, db', e, p, rel, q, s, x);
    } else {
      PendingLess(m, db, db', e);
    }
  }

  lemma GoneRef(db: seq<Entry>, db': seq<Entry>, e: Entry)
    requires Kept(db, db') && e in db && e !in db'
    ensures e.ref !in Refs(db')
  {
  }

  lemma PendingLess(m: Models, db: seq<Entry>, db': seq<Entry>, e: Entry)
    requires Pending(m, db, e) && (e in db ==> e in db') && forall r :: r in Refs(db') ==> r in Refs(db)
    ensures Pending(m, db', e)
  {
    hide Refs;
  }

  lemma TwoParents(m: Models, db: seq<Entry>, db': seq<Entry>, e: Entry, p: Ref, rel: Relation, q: Ref, s: Relation, x: Entry)
    requires NoThirdOwner(m) && rel in Relations(SchemaOf(m), p.table) && s in Relations(SchemaOf(m), q.table)
    requires Refers(x, rel, p.id) && Refers(e, rel, p.id) && Refers(e, s, q.id) && Leads(SchemaOf(m), x.ref.table, q.table)
    requires p !in Refs(db) && x.ref != p && (q == x.ref || q in Refs(db)) && q !in Refs(db')
    requires e.ref !in Refs(db') && forall r :: r in Refs(db') ==> r in Refs(db)
    ensures Pending(m, db', e)
  {
    hide Refs;
    hide Leads;
    hide SchemaOf;
    hide Relations;
    if (p.table, rel.key) == (q.table, s.key) {
      assert false;
    }
    assert Entangled(SchemaOf(m), p.table, rel, q.table, s);
    hide Entangled;
  }

  // ------------------------------------------------------ what a destroy counts

  ghost predicate CountsEachOnce(m: Models) {
    forall t :: CountsOnce(Observers(m, t))
  }

  /** Destroying a record leaves every column of the rows that stay as much too low as it was: one more if
      the record is a child, one less if the row that goes is. All that goes along takes exactly one off
      each of its parents' columns, unless the parent goes too. */
  lemma {:induction false} DestroyLow(m: Models, s: State, record: Entry, col: Column, d: int)
    requires CountsEachOnce(m) && NoThirdOwner(m) && Distinct(s.db) && Counted(m, col) && Low(s, col, d)
    requires col.parent in Refs(DestroyRecord(m, s, record).db)
    ensures Low(DestroyRecord(m, s, record), col,
                d + Due(record, Observers(m, record.ref.table), col) - Was(s.db, record.ref, col))
    decreases |s.db|, if record.ref in Refs(s.db) then 0 else 3, 0
  {
    hide *;
    var ref, obs := record.ref, Observers(m, record.ref.table);
    var s1 := DeleteRow(s, ref);
    RowFirst(m, s, record);
    ObserversKept(m, s1, record, obs);
    DeleteRowLow(s, ref, col, d);
    ObserversLow(m, s1, record, obs, col, d - Was(s.db, ref, col));
  }

  lemma RowFirst(m: Models, s: State, record: Entry)
    ensures var s1 := DeleteRow(s, record.ref);
            && DestroyRecord(m, s, record) == AfterDestroy(m, s1, record, Observers(m, record.ref.table))
            && Refs(s1.db) == Refs(s.db) - {record.ref} && (Distinct(s.db) ==> Distinct(s1.db))
            && |s1.db| <= |s.db| && (record.ref in Refs(s.db) ==> |s1.db| < |s.db|)
  {
    DeleteRefs(s.db, record.ref);
    DeleteKeeps(s.db, record.ref);
  }

  lemma {:induction false} ObserversLow(m: Models, s: State, record: Entry, obs: seq<Observer>, col: Column, d: int)
    requires CountsEachOnce(m) && NoThirdOwner(m) && Distinct(s.db) && Counted(m, col) && Low(s, col, d)
    requires record.ref !in Refs(s.db) && forall x :: x in obs ==> x in Observers(m, record.ref.table)
    requires col.parent in Refs(AfterDestroy(m, s, record, obs).db)
    ensures Low(AfterDestroy(m, s, record, obs), col, d + Due(record, obs, col))
    decreases |s.db|, 2, |obs|
  {
    hide Low;
    hide NoThirdOwner;
    hide CountsEachOnce;
    hide Counted;
    hide Hits;
    hide Refs;
    hide Distinct;
    hide Pending;
    hide Waiting;
    hide Observers;
    hide DestroyRecords;
    hide CountDown;
    hide Records;
    if obs != [] {
      ObserversKept(m, s, record, obs);
      match obs[0]
      case Counter(o) =>
        CountDownLow(s, record, o, col, d);
        ObserversLow(m, CountDown(s, record, o), record, obs[1..], col, d + if Hits(record, obs[0], col) then 1 else 0);
      case Dependents(rel) =>
        var list := Records(s.db, rel, record.ref.id);
        ListPending(m, s.db, rel, record.ref);
        NoHit(record, obs[0], col);
        var s' := DestroyRecords(m, s, list);
        RecordsKept(m, s, list);
        ObserversKept(m, s', record, obs[1..]);
        RecordsLow(m, s, list, record.ref, rel, col, d);
        ObserversLow(m, s', record, obs[1..], col, d);
    }
  }

  lemma NoHit(record: Entry, x: Observer, col: Column)
    requires x.Dependents?
    ensures !Hits(record, x, col)
  {
  }

  /** What the loop over the children of `p` knows of the records it has still to destroy. */
  ghost predicate Waiting(m: Models, db: seq<Entry>, list: seq<Entry>, p: Ref, rel: Relation) {
    NoDuplicates(RefsOf(list)) && forall e :: e in list ==> Refers(e, rel, p.id) && e.ref != p && Pending(m, db, e)
  }

  lemma ListPending(m: Models, db: seq<Entry>, rel: Relation, p: Ref)
    requires Distinct(db) && p !in Refs(db) && Dependents(rel) in Observers(m, p.table)
    ensures var list := Records(db, rel, p.id);
            Waiting(m, db, list, p, rel) && (list == [] || (list[0] in list && list[0].ref in Refs(db)))
  {
    RecordsAreListed(db, rel, p.id);
    ListSiblings(SchemaOf(m), db, rel, p);
    var list := Records(db, rel, p.id);
    assert list == [] || list[0] in list;
  }

  lemma {:induction false} RecordsLow(m: Models, s: State, list: seq<Entry>, p: Ref, rel: Relation, col: Column, d: int)
    requires CountsEachOnce(m) && NoThirdOwner(m) && Distinct(s.db) && Counted(m, col) && Low(s, col, d)
    requires p !in Refs(s.db) && Dependents(rel) in Observers(m, p.table) && Waiting(m, s.db, list, p, rel)
    requires col.parent in Refs(DestroyRecords(m, s, list).db)
    ensures Low(DestroyRecords(m, s, list), col, d)
    decreases |s.db|, if list == [] || list[0].ref in Refs(s.db) then 1 else 4, |list|
  {
    hide Low;
    hide NoThirdOwner;
    hide Refs;
    hide Distinct;
    hide Waiting;
    hide Due;
    hide Was;
    if list != [] {
      var s' := DestroyRecord(m, s, list[0]);
      RecordKept(m, s, list[0]);
      RecordsKept(m, s', list[1..]);
      FirstCounts(m, s.db, list, p, rel, col);
      DestroyLow(m, s, list[0], col, d);
      StillWaiting(m, s, list, p, rel);
      RecordsLow(m, s', list[1..], p, rel, col, d);
    }
  }

  /** A pending record counts down what its going has left too high, and nothing else. */
  lemma FirstCounts(m: Models, db: seq<Entry>, list: seq<Entry>, p: Ref, rel: Relation, col: Column)
    requires CountsEachOnce(m) && Distinct(db) && Counted(m, col) && col.parent in Refs(db)
    requires list != [] && Waiting(m, db, list, p, rel)
    ensures Due(list[0], Observers(m, list[0].ref.table), col) == Was(db, list[0].ref, col)
  {
    var e := list[0];
    assert e in list;
    WasIs(db, e, col);
    DueIs(e, Observers(m, e.ref.table), col);
    assert IsChild(e, col) ==> Parent(e, Owner(col.parent.table, col.rel.key)) == Some(col.parent);
  }

  lemma StillWaiting(m: Models, s: State, list: seq<Entry>, p: Ref, rel: Relation)
    requires NoThirdOwner(m) && Distinct(s.db) && p !in Refs(s.db) && Dependents(rel) in Observers(m, p.table)
    requires list != [] && Waiting(m, s.db, list, p, rel)
    ensures Waiting(m, DestroyRecord(m, s, list[0]).db, list[1..], p, rel)
  {
    DestroyedRows(m, s, list[0]);
    assert RefsOf(list)[1..] == RefsOf(list[1..]) && list[0] in list;
    hide NoThirdOwner;
    hide Destroy;
    hide DestroyRecord;
    hide Refs;
    hide Pending;
    hide Distinct;
    forall e | e in list[1..] ensures Pending(m, DestroyRecord(m, s, list[0]).db, e) {
      assert e in list;
      RefsOfIn(list[1..], e);
      PendingKept(m, s.db, list[0], e, p, rel);
    }
  }

  lemma {:induction false} RefsOfIn(list: seq<Entry>, e: Entry)
    requires e in list
    ensures e.ref in RefsOf(list)
  {
    if e != list[0] {
      RefsOfIn(list[1..], e);
    }
  }

  // --------------------------------------------------------------- exactness

  /** The key of the model is meant for the table: a dependent relation says so, or a counted one. */
  ghost predicate Names(m: Models, child: string, table: string, key: string) {
    Dependents(Relation(child, key)) in Observers(m, table) || Counter(Owner(table, key)) in Observers(m, child)
  }

  ghost predicate Live(m: Models, db: seq<Entry>, e: Entry) {
    forall t, k :: Names(m, e.ref.table, t, k) && k in e.keys && e.keys[k] != 0 ==> Ref(t, e.keys[k]) in Refs(db)
  }

  /** Columns are defined for stored rows only. */
  ghost predicate NotStale(s: State) {
    forall col :: col in s.counts ==> col.parent in Refs(s.db)
  }

  ghost predicate Exact(s: State, col: Column) {
    Count(s.counts, col) == |Children(s.db, col)|
  }

  /** Every foreign key points at a stored row and every counter is the number of children. */
  ghost predicate Good(m: Models, s: State) {
    && Distinct(s.db) && NotStale(s)
    && (forall r :: r in Refs(s.db) ==> r.id > 0)
    && (forall e :: e in s.db ==> Live(m, s.db, e))
    && (forall col :: Counted(m, col) && col.parent in Refs(s.db) ==> Exact(s, col))
  }

  /** Whatever is counted is dependent. */
  ghost predicate CountedCascade(m: Models) {
    forall child, table, key :: Counter(Owner(table, key)) in Observers(m, child) ==>
      Dependents(Relation(child, key)) in Observers(m, table)
  }

  ghost predicate Sound(m: Models) {
    CountsEachOnce(m) && CountedCascade(m) && NoThirdOwner(m)
  }

  lemma DeleteNotStale(s: State, ref: Ref)
    requires NotStale(s)
    ensures NotStale(DeleteRow(s, ref))
  {
    DeleteRefs(s.db, ref);
  }

  lemma {:induction false} DestroyNotStale(m: Models, s: State, record: Entry)
    requires NotStale(s)
    ensures NotStale(DestroyRecord(m, s, record))
    decreases |s.db|, if record.ref in Refs(s.db) then 0 else 3, 0
  {
    DeleteNotStale(s, record.ref);
    hide NotStale;
    ObserversNotStale(m, DeleteRow(s, record.ref), record, Observers(m, record.ref.table));
  }

  lemma CountDownNotStale(s: State, record: Entry, o: Owner)
    requires NotStale(s)
    ensures NotStale(CountDown(s, record, o))
  {
  }

  lemma {:induction false} ObserversNotStale(m: Models, s: State, record: Entry, obs: seq<Observer>)
    requires NotStale(s)
    ensures NotStale(AfterDestroy(m, s, record, obs))
    decreases |s.db|, 2, |obs|
  {
    hide NotStale;
    if obs != [] {
      match obs[0]
      case Counter(o) =>
        CountDownNotStale(s, record, o);
        ObserversNotStale(m, CountDown(s, record, o), record, obs[1..]);
      case Dependents(rel) =>
        var list := Records(s.db, rel, record.ref.id);
        assert list == [] || list[0] in list;
        RecordsNotStale(m, s, list);
        ObserversNotStale(m, DestroyRecords(m, s, list), record, obs[1..]);
    }
  }

  lemma {:induction false} RecordsNotStale(m: Models, s: State, list: seq<Entry>)
    requires NotStale(s)
    ensures NotStale(DestroyRecords(m, s, list))
    decreases |s.db|, if list == [] || list[0].ref in Refs(s.db) then 1 else 4, |list|
  {
    hide NotStale;
    if list != [] {
      DestroyNotStale(m, s, list[0]);
      RecordsNotStale(m, DestroyRecord(m, s, list[0]), list[1..]);
    }
  }

  /** A destroy leaves nothing but live rows. */
  lemma DestroyLive(m: Models, s: State, record: Entry)
    requires CountedCascade(m) && Good(m, s)
    ensures var s' := DestroyRecord(m, s, record);
            && Distinct(s'.db) && NotStale(s') && (forall r :: r in Refs(s'.db) ==> r.id > 0)
            && forall e :: e in s'.db ==> Live(m, s'.db, e)
  {
    var s' := DestroyRecord(m, s, record);
    DestroyNotStale(m, s, record);
    RecordKept(m, s, record);
    DestroyedRows(m, s, record);
    DestroyCascades(SchemaOf(m), s.db, record.ref);
    hide DestroyRecord;
    hide Destroy;
    forall e | e in s'.db ensures Live(m, s'.db, e) {
      assert e in s.db;
      ParentStays(m, s.db, s'.db, e);
    }
  }

  lemma ParentStays(m: Models, db: seq<Entry>, db': seq<Entry>, e: Entry)
    requires CountedCascade(m) && NoOrphans(SchemaOf(m), db, db') && e in db' && Live(m, db, e)
    ensures Live(m, db', e)
  {
    forall t, k | Names(m, e.ref.table, t, k) && k in e.keys && e.keys[k] != 0 ensures Ref(t, e.keys[k]) in Refs(db') {
      var rel := Relation(e.ref.table, k);
      assert rel in Relations(SchemaOf(m), t) && Refers(e, rel, e.keys[k]);
      assert ChildOf(SchemaOf(m), e, Ref(t, e.keys[k]));
    }
  }

  /** The counting of a destroyed record agrees with the row that goes: both are children or neither is,
      or only the record is and no child is left. */
  ghost predicate Agrees(db: seq<Entry>, db': seq<Entry>, record: Entry, col: Column) {
    if record.ref in Children(db, col) then IsChild(record, col) else IsChild(record, col) ==> Children(db', col) == []
  }

  /** Destroying any record, whether its row is stored as the record has it, has gone, or has had its id
      given out again, keeps everything exact if and only if, for each counted column of the rows that
      stay, the record agrees with the row. */
  lemma DestroyKeepsGoodIff(m: Models, s: State, record: Entry)
    requires Sound(m) && Good(m, s)
    ensures var db' := Destroy(SchemaOf(m), s.db, record.ref).db;
            Good(m, DestroyRecord(m, s, record)) <==>
              forall col :: Counted(m, col) && col.parent in Refs(db') ==> Agrees(s.db, db', record, col)
  {
    var s' := DestroyRecord(m, s, record);
    assert CountedCascade(m);
    DestroyLive(m, s, record);
    DestroyedRows(m, s, record);
    RecordKept(m, s, record);
    hide DestroyRecord;
    hide Destroy;
    hide Live;
    hide Distinct;
    hide NotStale;
    hide Sound;
    hide Counted;
    hide Refs;
    hide Exact;
    hide Agrees;
    forall col | Counted(m, col) && col.parent in Refs(s'.db)
      ensures Exact(s', col) <==> Agrees(s.db, s'.db, record, col)
    {
      AgreesExact(m, s, record, col);
    }
  }

  lemma AgreesExact(m: Models, s: State, record: Entry, col: Column)
    requires Sound(m) && Distinct(s.db) && Counted(m, col) && Exact(s, col)
    requires col.parent in Refs(DestroyRecord(m, s, record).db)
    ensures var s' := DestroyRecord(m, s, record); Exact(s', col) <==> Agrees(s.db, s'.db, record, col)
  {
    hide *;
    ExactLow(m, s, record, col);
    DestroyLow(m, s, record, col, 0);
    DueIs(record, Observers(m, record.ref.table), col);
    LowAgrees(m, s.db, DestroyRecord(m, s, record), record, col);
  }

  lemma ExactLow(m: Models, s: State, record: Entry, col: Column)
    requires Sound(m) && Counted(m, col) && Exact(s, col)
    ensures CountsEachOnce(m) && NoThirdOwner(m) && Low(s, col, 0)
    ensures CountsOnce(Observers(m, record.ref.table)) && col.parent.id > 0
  {
    hide NoThirdOwner;
  }

  lemma LowAgrees(m: Models, db: seq<Entry>, s': State, record: Entry, col: Column)
    requires Counted(m, col)
    requires Low(s', col, (if IsChild(record, col) && Counter(Owner(col.parent.table, col.rel.key)) in Observers(m, record.ref.table) then 1 else 0)
                          - Was(db, record.ref, col))
    ensures Exact(s', col) <==> Agrees(db, s'.db, record, col)
  {
    hide List;
  }

  lemma DestroyKeepsGood(m: Models, s: State, record: Entry)
    requires Sound(m) && Good(m, s) && record in s.db
    ensures Good(m, DestroyRecord(m, s, record))
  {
    hide Sound;
    var db' := Destroy(SchemaOf(m), s.db, record.ref).db;
    DestroyKeepsGoodIff(m, s, record);
    forall col | Counted(m, col) && col.parent in Refs(db') ensures Agrees(s.db, db', record, col) {
      WasIs(s.db, record, col);
    }
    hide *;
  }

  // ---------------------------------------------------------------- creating

  lemma {:induction false} ListAppend(db: seq<Entry>, e: Entry, rel: Relation, id: nat)
    ensures List(db + [e], rel, id) == List(db, rel, id) + if Refers(e, rel, id) then [e.ref] else []
  {
    if db == [] {
      assert db + [e] == [e] && [e][1..] == [];
    } else {
      assert (db + [e])[0] == db[0] && (db + [e])[1..] == db[1..] + [e];
      ListAppend(db[1..], e, rel, id);
      AppendAssociates(if Refers(db[0], rel, id) then [db[0].ref] else [], List(db[1..], rel, id),
                       if Refers(e, rel, id) then [e.ref] else []);
    }
  }

  lemma {:induction false} DistinctAppend(db: seq<Entry>, e: Entry)
    requires Distinct(db) && e.ref !in Refs(db)
    ensures Distinct(db + [e])
  {
    if db == [] {
      assert db + [e] == [e];
    } else {
      var more := db[1..] + [e];
      assert db[0] in db && e.ref != db[0].ref;
      assert (db + [e])[0] == db[0] && (db + [e])[1..] == more;
      forall r | r in Refs(db[1..]) ensures r in Refs(db) {
      }
      DistinctAppend(db[1..], e);
      AppendRefs(db[1..], e);
    }
  }

  lemma AppendRefs(db: seq<Entry>, e: Entry)
    ensures Refs(db + [e]) == Refs(db) + {e.ref}
  {
    forall r | r in Refs(db) + {e.ref} ensures r in Refs(db + [e]) {
      if r != e.ref {
        var x :| x in db && x.ref == r;
        assert x in db + [e];
      } else {
        assert e in db + [e];
      }
    }
  }

  lemma NoneListed(db: seq<Entry>, rel: Relation, id: nat)
    requires forall e :: e in db ==> !Refers(e, rel, id)
    ensures List(db, rel, id) == []
  {
    var list := List(db, rel, id);
    assert forall k :: 0 <= k < |list| ==> list[k] !in list;
  }

  /** A new id starts without children: nothing can refer to an id that is not stored. */
  lemma NewIdHasNoChildren(m: Models, s: State, col: Column)
    requires Good(m, s) && col.parent !in Refs(s.db) && Counted(m, col)
    ensures Count(s.counts, col) == 0 && Children(s.db, col) == []
  {
    assert col !in s.counts;
    forall e | e in s.db ensures !IsChild(e, col) {
      assert Live(m, s.db, e);
      assert Names(m, col.rel.child, col.parent.table, col.rel.key);
    }
    NoneListed(s.db, col.rel, col.parent.id);
  }

  lemma {:induction false} AfterCreateCounts(s: State, record: Entry, obs: seq<Observer>, col: Column)
    requires col.parent in Refs(s.db)
    ensures Count(AfterCreate(s, record, obs).counts, col) == Count(s.counts, col) + Due(record, obs, col)
    decreases |obs|
  {
    if obs != [] {
      var s1 := if obs[0].Counter? then CountUp(s, record, obs[0].owner) else s;
      AfterCreateCounts(s1, record, obs[1..], col);
    }
  }

  lemma {:induction false} AfterCreateNotStale(s: State, record: Entry, obs: seq<Observer>)
    requires NotStale(s)
    ensures NotStale(AfterCreate(s, record, obs))
    decreases |obs|
  {
    if obs != [] {
      AfterCreateNotStale(if obs[0].Counter? then CountUp(s, record, obs[0].owner) else s, record, obs[1..]);
    }
  }

  /** Saving a new record keeps everything exact if and only if its foreign keys are empty or point at
      stored rows: then the id may be any that was used before. */
  lemma CreateKeepsGoodIff(m: Models, s: State, table: string, keys: map<string, nat>)
    requires CountsEachOnce(m) && Good(m, s)
    ensures var record := Entry(Ref(table, NextId(s.db, table)), keys);
            Good(m, CreateRecord(m, s, table, keys)) <==> Live(m, s.db + [record], record)
  {
    var record := Entry(Ref(table, NextId(s.db, table)), keys);
    var s' := CreateRecord(m, s, table, keys);
    assert record in s'.db;
    if Live(m, s'.db, record) {
      assert record.ref !in Refs(s.db);
      DistinctAppend(s.db, record);
      AppendRefs(s.db, record);
      CreatedNotStale(s, record, Observers(m, table));
      forall col | Counted(m, col) && col.parent in Refs(s'.db) ensures Exact(s', col) {
        CreatedCount(m, s, record, col);
        CreatedChildren(m, s, record, col);
      }
      forall e | e in s'.db ensures Live(m, s'.db, e) {
        assert e in s.db || e == record;
      }
    }
  }

  lemma CreatedNotStale(s: State, record: Entry, obs: seq<Observer>)
    requires NotStale(s) && Refs(s.db + [record]) == Refs(s.db) + {record.ref}
    ensures NotStale(AfterCreate(s.(db := s.db + [record]), record, obs))
  {
    AfterCreateNotStale(s.(db := s.db + [record]), record, obs);
  }

  lemma CreatedCount(m: Models, s: State, record: Entry, col: Column)
    requires CountsEachOnce(m) && Counted(m, col) && col.parent in Refs(s.db + [record])
    ensures Count(AfterCreate(s.(db := s.db + [record]), record, Observers(m, record.ref.table)).counts, col) ==
            Count(s.counts, col) + if IsChild(record, col) then 1 else 0
  {
    var obs := Observers(m, record.ref.table);
    AfterCreateCounts(s.(db := s.db + [record]), record, obs, col);
    DueIs(record, obs, col);
  }

  lemma CreatedChildren(m: Models, s: State, record: Entry, col: Column)
    requires Good(m, s) && Counted(m, col)
    requires Refs(s.db + [record]) == Refs(s.db) + {record.ref} && col.parent in Refs(s.db + [record])
    ensures |Children(s.db + [record], col)| == Count(s.counts, col) + if IsChild(record, col) then 1 else 0
  {
    ListAppend(s.db, record, col.rel, col.parent.id);
    hide Refs;
    if col.parent !in Refs(s.db) {
      NewIdHasNoChildren(m, s, col);
    }
  }

  // -------------------------------------------------------------------- runs

  datatype Op = Create(table: string, keys: map<string, nat>) | DestroyRow(record: Entry)

  function Apply(m: Models, s: State, op: Op): State {
    match op
    case Create(table, keys) => CreateRecord(m, s, table, keys)
    case DestroyRow(record) => DestroyRecord(m, s, record)
  }

  /** Creates under stored parents, destroys of stored rows. */
  ghost predicate Legal(m: Models, s: State, op: Op) {
    match op
    case Create(table, keys) =>
      var record := Entry(Ref(table, NextId(s.db, table)), keys);
      Live(m, s.db + [record], record)
    case DestroyRow(record) => record in s.db
  }

  ghost predicate LegalRun(m: Models, s: State, ops: seq<Op>)
    decreases |ops|
  {
    ops == [] || (Legal(m, s, ops[0]) && LegalRun(m, Apply(m, s, ops[0]), ops[1..]))
  }

  ghost function Run(m: Models, s: State, ops: seq<Op>): State
    decreases |ops|
  {
    if ops == [] then s else Run(m, Apply(m, s, ops[0]), ops[1..])
  }

  function Empty(): State {
    State([], map[])
  }

  /** Over every run of creates under stored parents and destroys of stored rows, every foreign key
      points at a stored row and every counter equals the number of child rows. */
  lemma {:induction false} RunKeepsGood(m: Models, s: State, ops: seq<Op>)
    requires Sound(m) && Good(m, s) && LegalRun(m, s, ops)
    ensures Good(m, Run(m, s, ops))
    decreases |ops|
  {
    hide Good;
    hide Live;
    hide NoThirdOwner;
    hide DestroyRecord;
    hide CreateRecord;
    if ops != [] {
      match ops[0] {
        case Create(table, keys) => CreateKeepsGoodIff(m, s, table, keys);
        case DestroyRow(record) => DestroyKeepsGood(m, s, record);
      }
      RunKeepsGood(m, Apply(m, s, ops[0]), ops[1..]);
    }
  }

  lemma CountersStayExact(m: Models, ops: seq<Op>, col: Column)
    requires Sound(m) && LegalRun(m, Empty(), ops)
    ensures var s := Run(m, Empty(), ops);
            && (forall e :: e in s.db ==> Live(m, s.db, e))
            && (col.parent in Refs(s.db) && Counted(m, col) ==> Count(s.counts, col) == |Children(s.db, col)|)
  {
    RunKeepsGood(m, Empty(), ops);
  }

  // ------------------------------------------------------------- the objects

  /** One turn of the loop over the related list. */
  lemma RecordsTurn(m: Models, s: State, list: seq<Entry>, i: nat)
    requires i < |list|
    ensures DestroyRecords(m, s, list[i..]) == DestroyRecords(m, DestroyRecord(m, s, list[i]), list[i + 1..])
  {
    assert list[i..][0] == list[i] && list[i..][1..] == list[i + 1..];
  }

  lemma LoopBounds(m: Models, s: State, list: seq<Entry>)
    ensures DestroyRecords(m, s, list[0..]) == DestroyRecords(m, s, list) && DestroyRecords(m, s, list[|list|..]) == s
  {
    assert list[0..] == list;
  }

  /** One turn of the loop over the observers. */
  lemma ObserversTurn(m: Models, s: State, record: Entry, obs: seq<Observer>, i: nat)
    requires i < |obs|
    ensures AfterDestroy(m, s, record, obs[i..]) ==
            var s' := if obs[i].Counter? then CountDown(s, record, obs[i].owner)
                      else DestroyRecords(m, s, Records(s.db, obs[i].rel, record.ref.id));
            AfterDestroy(m, s', record, obs[i + 1..])
  {
    assert obs[i..][0] == obs[i] && obs[i..][1..] == obs[i + 1..];
  }

  lemma ObserversBounds(m: Models, s: State, record: Entry, obs: seq<Observer>)
    ensures AfterDestroy(m, s, record, obs[0..]) == AfterDestroy(m, s, record, obs)
    ensures AfterDestroy(m, s, record, obs[|obs|..]) == s
  {
    assert obs[0..] == obs;
  }

  lemma CreateTurn(s: State, record: Entry, obs: seq<Observer>, i: nat)
    requires i < |obs|
    ensures AfterCreate(s, record, obs[i..]) ==
            AfterCreate(if obs[i].Counter? then CountUp(s, record, obs[i].owner) else s, record, obs[i + 1..])
  {
    assert obs[i..][0] == obs[i] && obs[i..][1..] == obs[i + 1..];
  }

  lemma CreateBounds(s: State, record: Entry, obs: seq<Observer>)
    ensures AfterCreate(s, record, obs[0..]) == AfterCreate(s, record, obs) && AfterCreate(s, record, obs[|obs|..]) == s
  {
    assert obs[0..] == obs;
  }

  class CountedStorage {
    const models: Models
    var db: seq<Entry>
    var counts: Counts

    constructor (models: Models)
      ensures this.models == models && Now() == Empty()
    {
      this.models, db, counts := models, [], map[];
    }

    function Now(): State
      reads this
    {
      State(db, counts)
    }

    method HighestId(table: string) returns (max: nat)
      ensures max == NextId(db, table)
    {
      max := 1;
      var i := 0;
      while i < |db|
        invariant i <= |db| && max == NextId(db[..i], table)
      {
        var rows := db[..i + 1];
        assert rows[..i] == db[..i] && rows[i] == db[i];
        if db[i].ref.table == table && db[i].ref.id >= max {
          max := db[i].ref.id + 1;
        }
        i := i + 1;
      }
      assert db[..i] == db;
    }

    /** `insertEntity` and the observers of `afterCreate`. */
    method Create(table: string, keys: map<string, nat>) returns (id: nat)
      modifies this
      ensures id == NextId(old(db), table) && Now() == CreateRecord(models, old(Now()), table, keys)
    {
      hide AfterCreate;
      hide CountUp;
      id := HighestId(table);
      var record, obs := Entry(Ref(table, id), keys), Observers(models, table);
      db := db + [record];
      CreateBounds(Now(), record, obs);
      var i := 0;
      while i < |obs|
        invariant i <= |obs| && AfterCreate(Now(), record, obs[i..]) == CreateRecord(models, old(Now()), table, keys)
      {
        CreateTurn(Now(), record, obs, i);
        if obs[i].Counter? {
          Increment(record, obs[i].owner);
        }
        i := i + 1;
      }
      CreateBounds(Now(), record, obs);
    }

    /** The observer of `afterCreate` that adds one. */
    method Increment(record: Entry, o: Owner)
      modifies this`counts
      ensures Now() == CountUp(old(Now()), record, o)
    {
      var p := Parent(record, o);
      if p.Some? && p.value in Refs(db) {
        var col := Column(p.value, Relation(record.ref.table, o.key));
        counts := counts[col := Count(counts, col) + 1];
      }
    }

    /** The observer of `afterDestroy` that takes one off. */
    method Decrement(record: Entry, o: Owner)
      modifies this`counts
      ensures Now() == CountDown(old(Now()), record, o)
    {
      var p := Parent(record, o);
      if p.Some? && p.value in Refs(db) {
        var col := Column(p.value, Relation(record.ref.table, o.key));
        var current := Count(counts, col);
        counts := counts[col := if current == 0 then 0 else current - 1];
      }
    }

    method Destroy(record: Entry)
      modifies this
      ensures Now() == DestroyRecord(models, old(Now()), record)
      ensures |db| <= old(|db|) && (record.ref in Refs(old(db)) ==> |db| < old(|db|))
      decreases |db|, if record.ref in Refs(db) then 0 else 3, 0
    {
      hide AfterDestroy;
      hide DestroyRecords;
      var ref := record.ref;
      db, counts := Delete(db, ref), map k | k in counts && k.parent != ref :: counts[k];
      Notify(record, Observers(models, ref.table));
    }

    /** The observers of `afterDestroy`, in turn. */
    method Notify(record: Entry, obs: seq<Observer>)
      modifies this
      ensures Now() == AfterDestroy(models, old(Now()), record, obs)
      ensures |db| <= old(|db|)
      decreases |db|, 2, 1
    {
      hide AfterDestroy;
      hide DestroyRecords;
      hide CountDown;
      hide Records;
      hide Refs;
      ObserversBounds(models, Now(), record, obs);
      var i := 0;
      while i < |obs|
        invariant i <= |obs| && |db| <= |old(db)|
        invariant AfterDestroy(models, Now(), record, obs[i..]) == AfterDestroy(models, old(Now()), record, obs)
      {
        ObserversTurn(models, Now(), record, obs, i);
        if obs[i].Counter? {
          Decrement(record, obs[i].owner);
        } else {
          DestroyChildren(record.ref, obs[i].rel);
        }
        i := i + 1;
      }
      ObserversBounds(models, Now(), record, obs);
    }

    method DestroyChildren(ref: Ref, rel: Relation)
      modifies this
      ensures Now() == DestroyRecords(models, old(Now()), Records(old(db), rel, ref.id))
      ensures |db| <= old(|db|)
      decreases |db|, 2, 0
    {
      var list := Records(db, rel, ref.id);
      assert list != [] ==> list[0] in list;
      DestroyList(list);
    }

    method DestroyList(list: seq<Entry>)
      requires list != [] ==> list[0].ref in Refs(db)
      modifies this
      ensures Now() == DestroyRecords(models, old(Now()), list)
      ensures |db| <= old(|db|)
      decreases |db|, 1, 0
    {
      hide DestroyRecord;
      hide DestroyRecords;
      hide Refs;
      LoopBounds(models, Now(), list);
      var i := 0;
      while i < |list|
        invariant i <= |list| && |db| <= |old(db)| && (if i > 0 then |db| < |old(db)| else list != [] ==> list[0].ref in Refs(db))
        invariant DestroyRecords(models, Now(), list[i..]) == DestroyRecords(models, old(Now()), list)
      {
        RecordsTurn(models, Now(), list, i);
        Destroy(list[i]);
        i := i + 1;
      }
      LoopBounds(models, Now(), list);
    }
  }
}
