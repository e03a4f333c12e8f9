/** Which models keep their counters exact and leave no foreign key of a destroyed row behind, whatever is
    created and destroyed. */
module CounterLimits {
  import Announcements
  import opened CounterCache
  import opened DependentDestroy

  // A record that is announced twice is counted down twice. The parents by which it came into the cascade
  // are gone by then, but a third one need not be.

  // ----------------------------------------------------- columns only get lower

  /** Every record is the one that is stored, or none is. */
  ghost predicate Current(db: seq<Entry>, list: seq<Entry>) {
    forall e :: e in list ==> e in db || e.ref !in Refs(db)
  }

  lemma LowerLess(s: State, col: Column, d: int, e: int)
    requires Lower(s, col, d) && e <= d
    ensures Lower(s, col, e)
  {
    hide List;
  }

  lemma {:induction false} DestroyLower(m: Models, s: State, record: Entry, col: Column, d: int)
    requires CountsEachOnce(m) && Distinct(s.db) && Counted(m, col) && Lower(s, col, d)
    requires Current(s.db, [record]) && col.parent in Refs(DestroyRecord(m, s, record).db)
    ensures Lower(DestroyRecord(m, s, record), col,
                  d + if record in s.db then 0 else Due(record, Observers(m, record.ref.table), col))
    decreases |s.db|, if record.ref in Refs(s.db) then 0 else 3, 0
  {
    hide *;
    var obs := Observers(m, record.ref.table);
    var s1 := DeleteRow(s, record.ref);
    RowFirst(m, s, record);
    ObserversKept(m, s1, record, obs);
    DeleteRowLow(s, record.ref, col, d);
    CurrentCounts(m, s.db, record, col);
    ObserversLower(m, s1, record, obs, col, d - Was(s.db, record.ref, col));
  }

  lemma CurrentCounts(m: Models, db: seq<Entry>, record: Entry, col: Column)
    requires CountsEachOnce(m) && Distinct(db) && Counted(m, col) && Current(db, [record])
    ensures Was(db, record.ref, col) == if record in db then Due(record, Observers(m, record.ref.table), col) else 0
  {
    assert record in [record];
    WasIs(db, record, col);
    DueIs(record, Observers(m, record.ref.table), col);
  }

  lemma {:induction false} ObserversLower(m: Models, s: State, record: Entry, obs: seq<Observer>, col: Column, d: int)
    requires CountsEachOnce(m) && Distinct(s.db) && Counted(m, col) && Lower(s, col, d)
    requires col.parent in Refs(AfterDestroy(m, s, record, obs).db)
    ensures Lower(AfterDestroy(m, s, record, obs), col, d + Due(record, obs, col))
    decreases |s.db|, 2, |obs|
  {
    hide Lower;
    hide CountsEachOnce;
    hide Counted;
    hide Hits;
    hide Refs;
    hide Distinct;
    hide DestroyRecords;
    hide CountDown;
    hide Current;
    if obs != [] {
      ObserversKept(m, s, record, obs);
      match obs[0]
      case Counter(o) =>
        CountDownLow(s, record, o, col, d);
        ObserversLower(m, CountDown(s, record, o), record, obs[1..], col, d + if Hits(record, obs[0], col) then 1 else 0);
      case Dependents(rel) =>
        var list := Records(s.db, rel, record.ref.id);
        ListCurrent(s.db, rel, record.ref.id);
        NoHit(record, obs[0], col);
        var s' := DestroyRecords(m, s, list);
        RecordsKept(m, s, list);
        ObserversKept(m, s', record, obs[1..]);
        RecordsLower(m, s, list, col, d);
        ObserversLower(m, s', record, obs[1..], col, d);
    }
  }

  lemma ListCurrent(db: seq<Entry>, rel: Relation, id: nat)
    ensures var list := Records(db, rel, id); Current(db, list) && (list == [] || list[0].ref in Refs(db))
  {
    var list := Records(db, rel, id);
    assert list == [] || list[0] in list;
  }

  lemma {:induction false} RecordsLower(m: Models, s: State, list: seq<Entry>, col: Column, d: int)
    requires CountsEachOnce(m) && Distinct(s.db) && Counted(m, col) && Lower(s, col, d)
    requires Current(s.db, list) && col.parent in Refs(DestroyRecords(m, s, list).db)
    ensures Lower(DestroyRecords(m, s, list), col, d)
    decreases |s.db|, if list == [] || list[0].ref in Refs(s.db) then 1 else 4, |list|
  {
    hide Lower;
    hide Refs;
    hide Distinct;
    hide Due;
    hide Counted;
    hide CountsEachOnce;
    hide DestroyRecord;
    if list != [] {
      var s' := DestroyRecord(m, s, list[0]);
      RecordKept(m, s, list[0]);
      RecordsKept(m, s', list[1..]);
      StillCurrent(s.db, s'.db, list);
      DestroyLower(m, s, list[0], col, d);
      LowerLess(s', col, d + if list[0] in s.db then 0 else Due(list[0], Observers(m, list[0].ref.table), col), d);
      RecordsLower(m, s', list[1..], col, d);
    }
  }

  lemma StillCurrent(db: seq<Entry>, db': seq<Entry>, list: seq<Entry>)
    requires Kept(db, db') && Current(db, list) && list != []
    ensures Current(db, [list[0]]) && Current(db', list[1..])
  {
    KeptAllRefs(db, db');
    hide Distinct;
    forall e | e in list[1..] ensures e in db' || e.ref !in Refs(db') {
      assert e in list;
    }
    assert list[0] in list;
  }

  /** A child that goes with the first of two listed records, and is the second, is counted down twice. */
  lemma TwiceLower(m: Models, s: State, a: Entry, b: Entry, col: Column, d: int)
    requires CountsEachOnce(m) && Distinct(s.db) && Counted(m, col) && Lower(s, col, d) && a in s.db && IsChild(b, col)
    requires b.ref !in Refs(DestroyRecord(m, s, a).db) && col.parent in Refs(DestroyRecords(m, s, [a, b]).db)
    ensures Lower(DestroyRecords(m, s, [a, b]), col, d + 1)
  {
    var s1 := DestroyRecord(m, s, a);
    var s2 := DestroyRecord(m, s1, b);
    TwoRecords(m, s, a, b);
    RecordKept(m, s, a);
    RecordKept(m, s1, b);
    hide DestroyRecord;
    hide DestroyRecords;
    hide Lower;
    DestroyLower(m, s, a, col, d);
    DestroyLower(m, s1, b, col, d);
    DueIs(b, Observers(m, b.ref.table), col);
    assert b !in s1.db;
  }

  lemma TwoRecords(m: Models, s: State, a: Entry, b: Entry)
    ensures DestroyRecords(m, s, [a, b]) == DestroyRecord(m, DestroyRecord(m, s, a), b)
  {
    assert [a, b][1..] == [b] && [b][1..] == [];
    var s1 := DestroyRecord(m, s, a);
    hide DestroyRecord;
    assert DestroyRecords(m, s1, [b]) == DestroyRecords(m, DestroyRecord(m, s1, b), []);
  }

  // --------------------------------------------------------------- the table

  /** A foreign key of a model is meant for one table. */
  ghost predicate OneTable(m: Models) {
    forall child, t, u, k :: Names(m, child, t, k) && Names(m, child, u, k) ==> t == u
  }

  /** `t` owns the child by the key `k1`, `u` owns it by `k2`, the relations `rels` lead from the child to
      `u`, and `w` counts it by `kw`. */
  datatype Tie = Tie(t: string, k1: string, child: string, rels: seq<Relation>, u: string, k2: string, w: string, kw: string)

  ghost predicate Third(m: Models, x: Tie) {
    && Dependents(Relation(x.child, x.k1)) in Observers(m, x.t) && Dependents(Relation(x.child, x.k2)) in Observers(m, x.u)
    && (x.t, x.k1) != (x.u, x.k2) && Steps(SchemaOf(m), x.child, x.rels, x.u)
    && Counter(Owner(x.w, x.kw)) in Observers(m, x.child) && (x.w, x.kw) != (x.t, x.k1) && (x.w, x.kw) != (x.u, x.k2)
  }

  // The rows, in the order of their creation: a row of `t`; one of `w`; a child of the first, and the chain
  // behind it; a child of the first, of the last of the chain and of the one of `w`; another of the one of `w`.

  function Height(x: Tie): nat {
    |x.rels| + 5
  }

  function TableOf(x: Tie, n: nat): string {
    if n == 0 then x.t else if n == 1 then x.w else if n <= |x.rels| + 2 then TableAt(x.child, x.rels, n - 2) else x.child
  }

  /** The keys of a row, and which of the rows before it they refer to. */
  function Parents(x: Tie, n: nat): (r: map<string, nat>)
    ensures forall k :: k in r ==> r[k] < n
  {
    if n < 2 then map[]
    else if n == 2 then map[x.k1 := 0]
    else if n <= |x.rels| + 2 then map[x.rels[n - 3].key := n - 1]
    else if n == |x.rels| + 3 then map[x.k1 := 0][x.k2 := n - 1][x.kw := 1]
    else map[x.kw := 1]
  }

  function Keys(x: Tie, n: nat, db: seq<Entry>): map<string, nat>
    requires n <= |db|
  {
    map k | k in Parents(x, n) :: db[Parents(x, n)[k]].ref.id
  }

  function Rows(x: Tie, n: nat): (db: seq<Entry>)
    ensures |db| == n
  {
    if n == 0 then []
    else
      var db := Rows(x, n - 1);
      db + [Entry(Ref(TableOf(x, n - 1), NextId(db, TableOf(x, n - 1))), Keys(x, n - 1, db))]
  }

  lemma {:induction false} RowsFront(x: Tie, n: nat, i: nat)
    requires i <= n
    ensures Rows(x, n)[..i] == Rows(x, i)
    decreases n
  {
    hide *;
    if i < n {
      LastRow(x, n - 1);
      RowsFront(x, n - 1, i);
      assert Rows(x, n)[..i] == Rows(x, n)[..n - 1][..i];
    }
  }

  lemma LastRow(x: Tie, n: nat)
    ensures Rows(x, n + 1)[..n] == Rows(x, n)
  {
    hide Keys;
    hide TableOf;
  }

  lemma RowsAre(x: Tie, n: nat, i: nat)
    requires i < n
    ensures Rows(x, n)[i].ref.table == TableOf(x, i) && Rows(x, n)[i].keys == Keys(x, i, Rows(x, n))
  {
    hide Keys;
    hide TableOf;
    var db := Rows(x, n);
    RowsFront(x, n, i);
    RowsFront(x, n, i + 1);
    assert db[..i + 1][i] == db[i];
    assert Rows(x, i + 1)[i].keys == Keys(x, i, Rows(x, i));
    KeysOfFront(x, i, db);
  }

  lemma KeysOfFront(x: Tie, n: nat, db: seq<Entry>)
    requires n <= |db|
    ensures Keys(x, n, db[..n]) == Keys(x, n, db)
  {
  }

  /** The keys of a row are meant for the tables of the rows they refer to. */
  lemma ParentsNamed(m: Models, x: Tie, n: nat, k: string)
    requires Third(m, x) && OneTable(m) && n < Height(x) && k in Parents(x, n)
    ensures Names(m, TableOf(x, n), TableOf(x, Parents(x, n)[k]), k)
  {
    hide Third;
    hide OneTable;
    hide Names;
    KeysDiffer(m, x);
    if 2 < n <= |x.rels| + 2 {
      ChainNamed(m, x, n - 3);
    }
  }

  lemma ChainCascades(m: Models, x: Tie, i: nat)
    requires Third(m, x) && i < |x.rels|
    ensures Dependents(x.rels[i]) in Observers(m, TableAt(x.child, x.rels, i))
  {
    assert x.rels[i] in Relations(SchemaOf(m), TableAt(x.child, x.rels, i));
    hide Steps;
  }

  lemma ChainNamed(m: Models, x: Tie, i: nat)
    requires Third(m, x) && i < |x.rels|
    ensures Names(m, TableAt(x.child, x.rels, i + 1), TableAt(x.child, x.rels, i), x.rels[i].key)
  {
    hide Third;
    ChainCascades(m, x, i);
    CascadeNames(m, x.rels[i], TableAt(x.child, x.rels, i));
  }

  lemma CascadeNames(m: Models, rel: Relation, t: string)
    requires Dependents(rel) in Observers(m, t)
    ensures Names(m, rel.child, t, rel.key)
  {
    assert rel == Relation(rel.child, rel.key);
  }

  lemma KeysDiffer(m: Models, x: Tie)
    requires Third(m, x) && OneTable(m)
    ensures x.k1 != x.k2 && x.kw != x.k1 && x.kw != x.k2 && TableAt(x.child, x.rels, |x.rels|) == x.u
    ensures Names(m, x.child, x.t, x.k1) && Names(m, x.child, x.u, x.k2) && Names(m, x.child, x.w, x.kw)
  {
    assert Names(m, x.child, x.t, x.k1) && Names(m, x.child, x.u, x.k2) && Names(m, x.child, x.w, x.kw);
  }

  // -------------------------------------------------------------- creating it

  lemma {:induction false} RunSnoc(m: Models, s: State, ops: seq<Op>, op: Op)
    requires LegalRun(m, s, ops) && Legal(m, Run(m, s, ops), op)
    ensures LegalRun(m, s, ops + [op]) && Run(m, s, ops + [op]) == Apply(m, Run(m, s, ops), op)
    decreases |ops|
  {
    hide Legal;
    hide Apply;
    if ops == [] {
      assert ops + [op] == [op] && [op][1..] == [];
    } else {
      assert (ops + [op])[0] == ops[0] && (ops + [op])[1..] == ops[1..] + [op];
      RunSnoc(m, Apply(m, s, ops[0]), ops[1..], op);
    }
  }

  lemma {:induction false} Build(m: Models, x: Tie, n: nat) returns (ops: seq<Op>)
    requires Third(m, x) && OneTable(m) && CountsEachOnce(m) && n <= Height(x)
    ensures LegalRun(m, Empty(), ops) && Good(m, Run(m, Empty(), ops)) && Run(m, Empty(), ops).db == Rows(x, n)
    decreases n
  {
    hide *;
    if n == 0 {
      ops := [];
      NothingBuilt(m, x);
    } else {
      var front := Build(m, x, n - 1);
      var s := Run(m, Empty(), front);
      var op := Create(TableOf(x, n - 1), Keys(x, n - 1, s.db));
      RowLive(m, x, n - 1);
      RowsNext(x, n - 1);
      Created(m, s, op.table, op.keys);
      RunSnoc(m, Empty(), front, op);
      ops := front + [op];
    }
  }

  lemma NothingBuilt(m: Models, x: Tie)
    ensures LegalRun(m, Empty(), []) && Good(m, Run(m, Empty(), [])) && Run(m, Empty(), []).db == Rows(x, 0)
  {
  }

  lemma RowsNext(x: Tie, n: nat)
    ensures var db, t := Rows(x, n), TableOf(x, n);
            var e := Entry(Ref(t, NextId(db, t)), Keys(x, n, db));
            Rows(x, n + 1) == db + [e] && Rows(x, n + 1)[n] == e
  {
    hide Keys;
    hide TableOf;
  }

  lemma Created(m: Models, s: State, table: string, keys: map<string, nat>)
    requires CountsEachOnce(m) && Good(m, s)
    requires var record := Entry(Ref(table, NextId(s.db, table)), keys); Live(m, s.db + [record], record)
    ensures Legal(m, s, Create(table, keys)) && Good(m, Apply(m, s, Create(table, keys)))
    ensures Apply(m, s, Create(table, keys)).db == s.db + [Entry(Ref(table, NextId(s.db, table)), keys)]
  {
    CreateIsLegal(m, s, table, keys);
    CreateKeepsGoodIff(m, s, table, keys);
    hide Good;
    hide Live;
  }

  lemma RowLive(m: Models, x: Tie, n: nat)
    requires Third(m, x) && OneTable(m) && n < Height(x)
    ensures var db := Rows(x, n + 1); Live(m, db, db[n])
  {
    hide Third;
    hide OneTable;
    hide Names;
    hide Rows;
    hide Parents;
    hide TableOf;
    var db := Rows(x, n + 1);
    var e := db[n];
    RowsAre(x, n + 1, n);
    forall t, k | Names(m, e.ref.table, t, k) && k in e.keys && e.keys[k] != 0 ensures Ref(t, e.keys[k]) in Refs(db) {
      var i := Parents(x, n)[k];
      ParentsNamed(m, x, n, k);
      SameTable(m, e.ref.table, t, TableOf(x, i), k);
      RowsAre(x, n + 1, i);
      assert db[i] in db && db[i].ref == Ref(t, e.keys[k]);
    }
  }

  lemma SameTable(m: Models, child: string, t: string, u: string, k: string)
    requires OneTable(m) && Names(m, child, t, k) && Names(m, child, u, k)
    ensures t == u
  {
    hide Names;
  }

  // ---------------------------------------------------------- who refers to whom

  lemma {:induction false} DistinctRows(db: seq<Entry>, i: nat, j: nat)
    requires Distinct(db) && i < j < |db|
    ensures db[i].ref != db[j].ref
  {
    if i > 0 {
      DistinctRows(db[1..], i - 1, j - 1);
    } else {
      assert db[j] == db[1..][j - 1];
    }
  }

  /** A row refers to another one by the keys that say so only. */
  lemma WhoRefers(m: Models, x: Tie, i: nat, j: nat, rel: Relation)
    requires Third(m, x) && OneTable(m) && Distinct(Rows(x, Height(x))) && i < Height(x) && j < Height(x)
    requires Names(m, rel.child, TableOf(x, j), rel.key)
    ensures var db := Rows(x, Height(x));
            Refers(db[i], rel, db[j].ref.id) <==>
              rel.child == TableOf(x, i) && rel.key in Parents(x, i) && Parents(x, i)[rel.key] == j
  {
    var db := Rows(x, Height(x));
    hide Third;
    hide Rows;
    hide Parents;
    hide TableOf;
    hide Distinct;
    hide Names;
    hide OneTable;
    RowsAre(x, Height(x), i);
    RowsAre(x, Height(x), j);
    if rel.child == TableOf(x, i) && rel.key in Parents(x, i) && db[i].keys[rel.key] == db[j].ref.id {
      ParentsNamed(m, x, i, rel.key);
      var k := Parents(x, i)[rel.key];
      SameTable(m, rel.child, TableOf(x, j), TableOf(x, k), rel.key);
      RowsAre(x, Height(x), k);
      if k < j {
        DistinctRows(db, k, j);
      } else if j < k {
        DistinctRows(db, j, k);
      }
    }
  }

  // -------------------------------------------------------------- destroying it

  lemma {:induction false} RecordsNone(db: seq<Entry>, rel: Relation, id: nat)
    requires forall i :: 0 <= i < |db| ==> !Refers(db[i], rel, id)
    ensures Records(db, rel, id) == []
  {
    if db != [] {
      RecordsNone(db[1..], rel, id);
    }
  }

  lemma {:induction false} RecordsOne(db: seq<Entry>, rel: Relation, id: nat, a: nat)
    requires a < |db| && forall i :: 0 <= i < |db| ==> (Refers(db[i], rel, id) <==> i == a)
    ensures Records(db, rel, id) == [db[a]]
  {
    if a == 0 {
      RecordsNone(db[1..], rel, id);
    } else {
      RecordsOne(db[1..], rel, id, a - 1);
    }
  }

  lemma {:induction false} RecordsTwo(db: seq<Entry>, rel: Relation, id: nat, a: nat, b: nat)
    requires a < b < |db| && forall i :: 0 <= i < |db| ==> (Refers(db[i], rel, id) <==> i == a || i == b)
    ensures Records(db, rel, id) == [db[a], db[b]]
  {
    if a == 0 {
      RecordsOne(db[1..], rel, id, b - 1);
    } else {
      RecordsTwo(db[1..], rel, id, a - 1, b - 1);
    }
  }

  /** The table is there, in a state in which all is exact. */
  ghost predicate Built(m: Models, x: Tie) {
    Third(m, x) && OneTable(m) && CountsEachOnce(m) && Distinct(Rows(x, Height(x)))
  }

  function Row(x: Tie, i: nat): Entry
    requires i < Height(x)
  {
    Rows(x, Height(x))[i]
  }

  lemma RootDeleted(m: Models, x: Tie)
    requires Built(m, x)
    ensures Delete(Rows(x, Height(x)), Row(x, 0).ref) == Rows(x, Height(x))[1..]
  {
    var db := Rows(x, Height(x));
    hide Rows;
    forall i | 0 <= i < |db[1..]| ensures db[1..][i].ref != db[0].ref {
      DistinctRows(db, 0, i + 1);
    }
    Announcements.DeleteNone(db[1..], db[0].ref);
  }

  lemma BuiltIs(m: Models, x: Tie)
    requires Built(m, x)
    ensures Third(m, x) && OneTable(m) && CountsEachOnce(m) && Distinct(Rows(x, Height(x)))
    ensures Dependents(Relation(x.child, x.k1)) in Observers(m, x.t) && Dependents(Relation(x.child, x.k2)) in Observers(m, x.u)
  {
    hide Rows;
    hide Distinct;
    hide OneTable;
    hide Steps;
  }

  lemma RefersToRoot(m: Models, x: Tie, rel: Relation, i: nat)
    requires Built(m, x) && Dependents(rel) in Observers(m, x.t) && i < Height(x)
    ensures Refers(Row(x, i), rel, Row(x, 0).ref.id) <==>
            rel == Relation(x.child, x.k1) && (i == 2 || i == |x.rels| + 3)
  {
    hide *;
    BuiltIs(m, x);
    KeysDiffer(m, x);
    RootsChildren(x, rel, i);
    CascadeNames(m, rel, TableOf(x, 0));
    WhoRefers(m, x, i, 0, rel);
    RowsOf(x);
  }

  lemma RowsOf(x: Tie)
    ensures TableOf(x, 0) == x.t && Height(x) == |x.rels| + 5
    ensures forall i: nat :: i < Height(x) ==> Row(x, i) == Rows(x, Height(x))[i]
  {
    hide Rows;
  }

  lemma RootsChildren(x: Tie, rel: Relation, i: nat)
    requires x.k1 != x.k2 && x.kw != x.k1 && x.kw != x.k2 && i < Height(x)
    ensures TableOf(x, 0) == x.t
    ensures rel.child == TableOf(x, i) && rel.key in Parents(x, i) && Parents(x, i)[rel.key] == 0 <==>
            rel == Relation(x.child, x.k1) && (i == 2 || i == |x.rels| + 3)
  {
  }

  lemma ListedBelow(m: Models, x: Tie, rel: Relation)
    requires Built(m, x) && Dependents(rel) in Observers(m, x.t)
    ensures Records(Rows(x, Height(x))[1..], rel, Row(x, 0).ref.id) ==
            if rel == Relation(x.child, x.k1) then [Row(x, 2), Row(x, |x.rels| + 3)] else []
  {
    hide *;
    RowsOf(x);
    var db, id := Rows(x, Height(x)), Row(x, 0).ref.id;
    forall i | 0 <= i < |db[1..]|
      ensures Refers(db[1..][i], rel, id) <==> rel == Relation(x.child, x.k1) && (i == 1 || i == |x.rels| + 2)
    {
      RefersToRoot(m, x, rel, i + 1);
    }
    if rel == Relation(x.child, x.k1) {
      RecordsTwo(db[1..], rel, id, 1, |x.rels| + 2);
    } else {
      RecordsNone(db[1..], rel, id);
    }
  }

  lemma NextIsChild(m: Models, x: Tie, n: nat)
    requires Built(m, x) && 2 <= n <= |x.rels| + 2
    ensures ChildOf(SchemaOf(m), Row(x, n + 1), Row(x, n).ref)
  {
    hide *;
    RowsOf(x);
    BuiltIs(m, x);
    KeysDiffer(m, x);
    var rel := if n <= |x.rels| + 1 then x.rels[n - 2] else Relation(x.child, x.k2);
    if n <= |x.rels| + 1 {
      ChainCascades(m, x, n - 2);
    }
    LinkTable(x, n, rel);
    CascadeNames(m, rel, TableOf(x, n));
    WhoRefers(m, x, n + 1, n, rel);
    RowsAre(x, Height(x), n);
    IsChildOf(m, Row(x, n + 1), Row(x, n).ref, rel);
  }

  lemma LinkTable(x: Tie, n: nat, rel: Relation)
    requires 2 <= n <= |x.rels| + 2 && TableAt(x.child, x.rels, |x.rels|) == x.u && x.k1 != x.k2 && x.kw != x.k2
    requires rel == if n <= |x.rels| + 1 then x.rels[n - 2] else Relation(x.child, x.k2)
    ensures TableOf(x, n) == TableAt(x.child, x.rels, n - 2)
    ensures rel.child == TableOf(x, n + 1) && rel.key in Parents(x, n + 1) && Parents(x, n + 1)[rel.key] == n
  {
  }

  lemma IsChildOf(m: Models, e: Entry, p: Ref, rel: Relation)
    requires Dependents(rel) in Observers(m, p.table) && Refers(e, rel, p.id)
    ensures ChildOf(SchemaOf(m), e, p)
  {
    assert rel in Relations(SchemaOf(m), p.table);
  }

  /** The second child goes with the first. */
  lemma SecondGone(m: Models, x: Tie)
    requires Built(m, x)
    ensures Row(x, |x.rels| + 3).ref !in Refs(Destroy(SchemaOf(m), Rows(x, Height(x))[1..], Row(x, 2).ref).db)
  {
    hide *;
    RowsOf(x);
    var schema, db := SchemaOf(m), Rows(x, Height(x))[1..];
    var path, p := Rows(x, Height(x))[3..|x.rels| + 4], Row(x, 2).ref;
    assert db[|x.rels| + 2] == Row(x, |x.rels| + 3);
    forall i | 0 <= i < |path| ensures path[i] in db && ChildOf(schema, path[i], Announcements.Prior(p, path, i)) {
      NextIsChild(m, x, i + 2);
      assert path[i] == Row(x, i + 3) == db[i + 2];
      assert i > 0 ==> path[i - 1] == Row(x, i + 2);
      PriorIs(p, path, i);
    }
    Announcements.PathIs(schema, db, p, path);
    PathDestroyed(schema, db, p, p, path);
    DestroyCascades(schema, db, p);
    assert path[|x.rels|] == Row(x, |x.rels| + 3);
    CascadeKept(schema, db, Destroy(schema, db, p));
    GoneRef(db, Destroy(schema, db, p).db, Row(x, |x.rels| + 3));
  }

  lemma PriorIs(p: Ref, path: seq<Entry>, i: nat)
    requires i <= |path|
    ensures Announcements.Prior(p, path, i) == if i == 0 then p else path[i - 1].ref
  {
  }

  lemma CascadeKept(schema: Schema, db: seq<Entry>, o: Outcome)
    requires DependentDestroy.Cascade(schema, db, o)
    ensures Kept(db, o.db)
  {
    hide Distinct;
  }


  /** The row of `w` and its other child stay. */
  lemma OthersStay(m: Models, x: Tie)
    requires Built(m, x)
    ensures var db' := Destroy(SchemaOf(m), Rows(x, Height(x)), Row(x, 0).ref).db;
            Row(x, 1) in db' && Row(x, |x.rels| + 4) in db'
  {
    hide *;
    RowsOf(x);
    BuiltIs(m, x);
    var db, schema, w, z := Rows(x, Height(x)), SchemaOf(m), Row(x, 1), Row(x, |x.rels| + 4);
    var db' := Destroy(schema, db, Row(x, 0).ref).db;
    DistinctRows(db, 0, 1);
    DistinctRows(db, 0, |x.rels| + 4);
    NoKeys(x);
    if w !in db' {
      var q, s := GoneParent(schema, db, Row(x, 0).ref, w);
      NotChild(w, s, q.id);
      assert false;
    }
    if z !in db' {
      var q, s := GoneParent(schema, db, Row(x, 0).ref, z);
      OnlyParent(m, x, q, s);
      StoredRef(db', w);
      assert false;
    }
  }

  lemma StoredRef(db: seq<Entry>, e: Entry)
    requires e in db
    ensures e.ref in Refs(db)
  {
  }

  lemma NotChild(e: Entry, rel: Relation, id: nat)
    requires e.keys == map[]
    ensures !Refers(e, rel, id)
  {
  }

  lemma NoKeys(x: Tie)
    ensures Row(x, 0).keys == map[] && Row(x, 1).keys == map[]
  {
    RowsAre(x, Height(x), 0);
    RowsAre(x, Height(x), 1);
    hide Rows;
  }

  lemma OnlyParent(m: Models, x: Tie, q: Ref, s: Relation)
    requires Built(m, x) && s in Relations(SchemaOf(m), q.table) && Refers(Row(x, |x.rels| + 4), s, q.id)
    ensures q == Row(x, 1).ref
  {
    RowsAre(x, Height(x), |x.rels| + 4);
    RowsAre(x, Height(x), 1);
    assert Dependents(s) in Observers(m, q.table);
    CascadeNames(m, s, q.table);
    BuiltIs(m, x);
    KeysDiffer(m, x);
    hide Third;
    hide Built;
    hide OneTable;
    hide Names;
    hide Rows;
    hide Distinct;
    assert s.child == x.child && s.key == x.kw;
    SameTable(m, x.child, q.table, x.w, x.kw);
  }

  /** The column that gets too low. */
  function ThirdColumn(x: Tie): Column {
    Column(Row(x, 1).ref, Relation(x.child, x.kw))
  }

  lemma RootCountsNothing(s: State, record: Entry, o: Owner)
    requires record.keys == map[]
    ensures CountDown(s, record, o) == s
  {
  }

  /** The observers of the first row: until its children by `k1` are listed nothing happens, and then the
      second of them is counted down twice. */
  lemma {:induction false} RootObservers(m: Models, x: Tie, s: State, obs: seq<Observer>)
    requires Built(m, x) && s.db == Rows(x, Height(x))[1..] && Lower(s, ThirdColumn(x), 0)
    requires Dependents(Relation(x.child, x.k1)) in obs && forall o :: o in obs ==> o in Observers(m, x.t)
    requires Row(x, 1).ref in Refs(AfterDestroy(m, s, Row(x, 0), obs).db)
    ensures Lower(AfterDestroy(m, s, Row(x, 0), obs), ThirdColumn(x), 1)
    decreases |obs|
  {
    hide Built;
    hide Rows;
    hide Row;
    hide Lower;
    hide Refs;
    hide DestroyRecords;
    hide CountDown;
    hide ThirdColumn;
    var root := Row(x, 0);
    if obs[0].Counter? {
      NoKeys(x);
      RootCountsNothing(s, root, obs[0].owner);
      RootObservers(m, x, s, obs[1..]);
    } else {
      ListedBelow(m, x, obs[0].rel);
      if obs[0].rel == Relation(x.child, x.k1) {
        var s' := DestroyRecords(m, s, [Row(x, 2), Row(x, |x.rels| + 3)]);
        ObserversKept(m, s', root, obs[1..]);
        BothDestroyed(m, x, s);
        RestLower(m, x, s', obs[1..]);
      } else {
        assert DestroyRecords(m, s, []) == s by { NothingDestroyed(m, s); }
        RootObservers(m, x, s, obs[1..]);
      }
    }
  }

  lemma NothingDestroyed(m: Models, s: State)
    ensures DestroyRecords(m, s, []) == s
  {
  }

  lemma BothDestroyed(m: Models, x: Tie, s: State)
    requires Built(m, x) && s.db == Rows(x, Height(x))[1..] && Lower(s, ThirdColumn(x), 0)
    requires Row(x, 1).ref in Refs(DestroyRecords(m, s, [Row(x, 2), Row(x, |x.rels| + 3)]).db)
    ensures Lower(DestroyRecords(m, s, [Row(x, 2), Row(x, |x.rels| + 3)]), ThirdColumn(x), 1)
    ensures Distinct(DestroyRecords(m, s, [Row(x, 2), Row(x, |x.rels| + 3)]).db)
  {
    hide *;
    BuiltIs(m, x);
    RowsOf(x);
    DistinctTail(Rows(x, Height(x)));
    assert Row(x, 2) == s.db[1];
    SecondGone(m, x);
    DestroyedRows(m, s, Row(x, 2));
    SecondCounted(m, x);
    TwiceLower(m, s, Row(x, 2), Row(x, |x.rels| + 3), ThirdColumn(x), 0);
    RecordsKept(m, s, [Row(x, 2), Row(x, |x.rels| + 3)]);
    KeptDistinct(s.db, DestroyRecords(m, s, [Row(x, 2), Row(x, |x.rels| + 3)]).db);
  }

  lemma DistinctTail(db: seq<Entry>)
    requires Distinct(db) && db != []
    ensures Distinct(db[1..])
  {
  }

  lemma KeptDistinct(db: seq<Entry>, db': seq<Entry>)
    requires Kept(db, db') && Distinct(db)
    ensures Distinct(db')
  {
  }

  lemma RestLower(m: Models, x: Tie, s: State, obs: seq<Observer>)
    requires Built(m, x) && Distinct(s.db) && Lower(s, ThirdColumn(x), 1)
    requires Row(x, 1).ref in Refs(AfterDestroy(m, s, Row(x, 0), obs).db)
    ensures Lower(AfterDestroy(m, s, Row(x, 0), obs), ThirdColumn(x), 1)
  {
    hide *;
    RowsOf(x);
    BuiltIs(m, x);
    SecondCounted(m, x);
    ObserversLower(m, s, Row(x, 0), obs, ThirdColumn(x), 1);
    LowerLess(AfterDestroy(m, s, Row(x, 0), obs), ThirdColumn(x), 1 + Due(Row(x, 0), obs, ThirdColumn(x)), 1);
  }

  /** The column is counted, and the last two rows are children in it. */
  lemma SecondCounted(m: Models, x: Tie)
    requires Built(m, x)
    ensures var col := ThirdColumn(x);
            Counted(m, col) && IsChild(Row(x, |x.rels| + 3), col) && IsChild(Row(x, |x.rels| + 4), col)
            && col.parent == Row(x, 1).ref
  {
    hide *;
    RowsOf(x);
    BuiltIs(m, x);
    KeysDiffer(m, x);
    RowsAre(x, Height(x), 1);
    PositiveId(x, Height(x), 1);
    LastTwo(x);
    var rel := Relation(x.child, x.kw);
    WhoRefers(m, x, |x.rels| + 3, 1, rel);
    WhoRefers(m, x, |x.rels| + 4, 1, rel);
    ThirdCounted(m, x);
  }

  lemma LastTwo(x: Tie)
    requires x.kw != x.k1 && x.kw != x.k2
    ensures TableOf(x, 1) == x.w && TableOf(x, |x.rels| + 3) == x.child && TableOf(x, |x.rels| + 4) == x.child
    ensures forall i :: |x.rels| + 3 <= i <= |x.rels| + 4 ==> x.kw in Parents(x, i) && Parents(x, i)[x.kw] == 1
  {
  }

  lemma ThirdCounted(m: Models, x: Tie)
    requires Built(m, x) && Row(x, 1).ref.table == x.w && Row(x, 1).ref.id > 0
    ensures var col := ThirdColumn(x);
            && Counted(m, col) && col == Column(Row(x, 1).ref, Relation(x.child, x.kw))
            && forall e :: Refers(e, Relation(x.child, x.kw), Row(x, 1).ref.id) <==> IsChild(e, col)
  {
    hide Rows;
    hide Distinct;
    hide OneTable;
    hide Steps;
  }

  lemma {:induction false} PositiveId(x: Tie, n: nat, i: nat)
    requires i < n
    ensures Rows(x, n)[i].ref.id > 0
    decreases n
  {
    hide Keys;
    hide TableOf;
    if i < n - 1 {
      PositiveId(x, n - 1, i);
    }
  }

  /** Destroying the first row leaves the column of the row of `w` below the number of its children. */
  lemma RootMiscounts(m: Models, x: Tie, s: State)
    requires Built(m, x) && Good(m, s) && s.db == Rows(x, Height(x))
    ensures var s', col := DestroyRecord(m, s, Row(x, 0)), ThirdColumn(x);
            col.parent in Refs(s'.db) && Counted(m, col) && Count(s'.counts, col) < |Children(s'.db, col)|
  {
    hide *;
    RowsOf(x);
    BuiltIs(m, x);
    SecondCounted(m, x);
    var root, col := Row(x, 0), ThirdColumn(x);
    var s1, obs := DeleteRow(s, root.ref), Observers(m, x.t);
    var s' := DestroyRecord(m, s, root);
    OthersStay(m, x);
    DestroyedRows(m, s, root);
    StoredRef(s'.db, Row(x, 1));
    RowFirst(m, s, root);
    ObserversKept(m, s1, root, Observers(m, root.ref.table));
    RowsAre(x, Height(x), 0);
    GoodLower(m, x, s);
    RootObservers(m, x, s1, obs);
    ChildLeft(s', Row(x, |x.rels| + 4), col);
  }

  lemma ChildLeft(s: State, e: Entry, col: Column)
    requires Lower(s, col, 1) && e in s.db && IsChild(e, col)
    ensures Count(s.counts, col) < |Children(s.db, col)|
  {
    assert e.ref in Children(s.db, col);
    hide List;
  }

  lemma GoodLower(m: Models, x: Tie, s: State)
    requires Built(m, x) && Good(m, s) && s.db == Rows(x, Height(x))
    ensures TableOf(x, 0) == x.t && Lower(DeleteRow(s, Row(x, 0).ref), ThirdColumn(x), 0)
    ensures DeleteRow(s, Row(x, 0).ref).db == Rows(x, Height(x))[1..]
  {
    var root, col := Row(x, 0), ThirdColumn(x);
    BuiltIs(m, x);
    SecondCounted(m, x);
    RootDeleted(m, x);
    assert Row(x, 1) in s.db;
    assert Exact(s, col);
    DistinctRows(s.db, 0, 1);
    NoKeys(x);
    WasIs(s.db, root, col);
    hide Rows;
    hide Good;
    hide Built;
    hide Third;
    hide OneTable;
    hide Distinct;
    DeleteRowLow(s, root.ref, col, 0);
  }

  /** A third counted owner of such a child is miscounted: a run of creates and one destroy, all legal, at the
      end of which its column is below the number of its children. */
  lemma ThirdOwnerMiscounts(m: Models, x: Tie) returns (ops: seq<Op>)
    requires OneTable(m) && CountsEachOnce(m) && Third(m, x)
    ensures LegalRun(m, Empty(), ops)
    ensures var s, col := Run(m, Empty(), ops), ThirdColumn(x);
            col.parent in Refs(s.db) && Counted(m, col) && Count(s.counts, col) < |Children(s.db, col)|
  {
    var front := Build(m, x, Height(x));
    var s := Run(m, Empty(), front);
    assert Built(m, x);
    hide Third;
    hide OneTable;
    hide CountsEachOnce;
    hide Rows;
    hide Good;
    hide Run;
    hide LegalRun;
    hide DestroyRecord;
    hide Refs;
    hide List;
    RootMiscounts(m, x, s);
    var op := DestroyRow(Row(x, 0));
    RunSnoc(m, Empty(), front, op);
    ops := front + [op];
  }

  // ----------------------------------------------------- counted, not dependent

  lemma TwoCreated(m: Models, child: string, t: string, k: string) returns (s: State)
    requires OneTable(m) && CountsEachOnce(m) && Names(m, child, t, k)
    ensures var p, keys := Entry(Ref(t, 1), map[]), map[k := 1];
            var ops := [Create(t, map[]), Create(child, keys)];
            LegalRun(m, Empty(), ops) && Run(m, Empty(), ops) == s
            && s.db == [p, Entry(Ref(child, NextId([p], child)), keys)]
  {
    var p, keys := Entry(Ref(t, 1), map[]), map[k := 1];
    var e := Entry(Ref(child, NextId([p], child)), keys);
    var op1, op2 := Create(t, map[]), Create(child, keys);
    TwoLive(m, p, e, k);
    Start(m, t);
    hide *;
    assert [] + [p] == [p] && [p] + [e] == [p, e] && [] + [op1] == [op1] && [op1] + [op2] == [op1, op2];
    CreateIsLegal(m, Empty(), t, map[]);
    RunSnoc(m, Empty(), [], op1);
    CreateIsLegal(m, Run(m, Empty(), [op1]), child, keys);
    RunSnoc(m, Empty(), [op1], op2);
    s := Run(m, Empty(), [op1, op2]);
  }

  lemma Start(m: Models, t: string)
    ensures LegalRun(m, Empty(), []) && Run(m, Empty(), []) == Empty() && Empty().db == [] && NextId([], t) == 1
  {
  }

  lemma CreateIsLegal(m: Models, s: State, table: string, keys: map<string, nat>)
    requires var e := Entry(Ref(table, NextId(s.db, table)), keys); Live(m, s.db + [e], e)
    ensures Legal(m, s, Create(table, keys))
    ensures Apply(m, s, Create(table, keys)).db == s.db + [Entry(Ref(table, NextId(s.db, table)), keys)]
  {
    hide Live;
  }

  lemma TwoLive(m: Models, p: Entry, e: Entry, k: string)
    requires OneTable(m) && Names(m, e.ref.table, p.ref.table, k) && p.keys == map[] && p.ref.id == 1 && e.keys == map[k := 1]
    ensures Live(m, [p], p) && Live(m, [p, e], e)
  {
    hide OneTable;
    hide Names;
    assert p in [p, e];
    forall u, k' | Names(m, e.ref.table, u, k') && k' in e.keys ensures Ref(u, e.keys[k']) in Refs([p, e]) {
      SameTable(m, e.ref.table, p.ref.table, u, k);
    }
  }

  lemma OrphanStays(m: Models, p: Entry, e: Entry, k: string)
    requires OneTable(m) && Names(m, e.ref.table, p.ref.table, k) && e.keys == map[k := 1] && e.ref != p.ref
    requires Dependents(Relation(e.ref.table, k)) !in Observers(m, p.ref.table)
    ensures e in Destroy(SchemaOf(m), [p, e], p.ref).db
  {
    if e !in Destroy(SchemaOf(m), [p, e], p.ref).db {
      assert [p, e][1..] == [e] && [e][1..] == [];
      assert p.ref !in Refs([e]) && Distinct([e]);
      var q, s := GoneParent(SchemaOf(m), [p, e], p.ref, e);
      hide Destroy;
      assert s.key == k && s.child == e.ref.table;
      CascadeNames(m, s, q.table);
      SameTable(m, e.ref.table, q.table, p.ref.table, k);
      assert false;
    }
  }

  /** Where a counted relation is not dependent, destroying the parent leaves a foreign key without a row. */
  lemma OrphanLeft(m: Models, child: string, t: string, k: string) returns (ops: seq<Op>)
    requires OneTable(m) && CountsEachOnce(m)
    requires Counter(Owner(t, k)) in Observers(m, child) && Dependents(Relation(child, k)) !in Observers(m, t)
    ensures LegalRun(m, Empty(), ops) && !Good(m, Run(m, Empty(), ops))
  {
    var p := Entry(Ref(t, 1), map[]);
    var e := Entry(Ref(child, NextId([p], child)), map[k := 1]);
    var front := [Create(t, map[]), Create(child, map[k := 1])];
    var s := TwoCreated(m, child, t, k);
    assert p in [p, e] && e in [p, e] && p.ref in Refs([p, e]);
    OrphanStays(m, p, e, k);
    DestroyedRows(m, s, p);
    DestroyCascades(SchemaOf(m), s.db, p.ref);
    hide DestroyRecord;
    hide Destroy;
    hide Run;
    hide LegalRun;
    hide OneTable;
    hide CountsEachOnce;
    RunSnoc(m, Empty(), front, DestroyRow(p));
    ops := front + [DestroyRow(p)];
    var s' := DestroyRecord(m, s, p);
    assert Names(m, child, t, k) && Ref(t, e.keys[k]) == p.ref;
    assert !Live(m, s'.db, e);
  }

  // ---------------------------------------------------------------- the limits

  /** From nothing, every run of creates under stored parents and destroys of stored rows keeps all foreign
      keys live and all counters exact if and only if whatever is counted is dependent, and no child of two
      relations between which its own cascade leads is counted by a third owner. */
  lemma CountersExactIff(m: Models)
    requires OneTable(m) && CountsEachOnce(m)
    ensures (forall ops :: LegalRun(m, Empty(), ops) ==> Good(m, Run(m, Empty(), ops)))
        <==> CountedCascade(m) && NoThirdOwner(m)
  {
    if !CountedCascade(m) {
      var child, t, k :| Counter(Owner(t, k)) in Observers(m, child) && Dependents(Relation(child, k)) !in Observers(m, t);
      var ops := OrphanLeft(m, child, t, k);
    } else if !NoThirdOwner(m) {
      var t, r, u, s, o :| Entangled(SchemaOf(m), t, r, u, s) && Counter(o) in Observers(m, r.child)
                           && o != Owner(t, r.key) && o != Owner(u, s.key);
      var rels :| Steps(SchemaOf(m), r.child, rels, u);
      var x := Tie(t, r.key, r.child, rels, u, s.key, o.table, o.key);
      assert Third(m, x);
      var ops := ThirdOwnerMiscounts(m, x);
      assert !Exact(Run(m, Empty(), ops), ThirdColumn(x));
    } else {
      forall ops | LegalRun(m, Empty(), ops) ensures Good(m, Run(m, Empty(), ops)) {
        RunKeepsGood(m, Empty(), ops);
      }
    }
  }

  /** Such models: `a` has many `c`, which have many `b`, which have many `c`; and `w` has many `c`. */
  function ExampleModels(): Models {
    map["a" := [Dependents(Relation("c", "a_id"))],
        "b" := [Dependents(Relation("c", "b_id")), Counter(Owner("c", "c_id"))],
        "c" := [Dependents(Relation("b", "c_id")), Counter(Owner("a", "a_id")), Counter(Owner("b", "b_id")), Counter(Owner("w", "w_id"))],
        "w" := [Dependents(Relation("c", "w_id"))]]
  }

  function ExampleTie(): Tie {
    Tie("a", "a_id", "c", [Relation("b", "c_id")], "b", "b_id", "w", "w_id")
  }

  lemma ExampleObservers(t: string)
    ensures var obs := Observers(ExampleModels(), t);
            if t == "a" then obs == [Dependents(Relation("c", "a_id"))]
            else if t == "b" then obs == [Dependents(Relation("c", "b_id")), Counter(Owner("c", "c_id"))]
            else if t == "c" then
              obs == [Dependents(Relation("b", "c_id")), Counter(Owner("a", "a_id")), Counter(Owner("b", "b_id")), Counter(Owner("w", "w_id"))]
            else if t == "w" then obs == [Dependents(Relation("c", "w_id"))]
            else obs == []
  {
  }

  lemma ExampleNames(child: string, t: string, k: string)
    ensures Names(ExampleModels(), child, t, k) ==>
              t == if k == "a_id" then "a" else if k == "b_id" then "b" else if k == "c_id" then "c" else "w"
  {
    hide ExampleModels;
    ExampleObservers(child);
    ExampleObservers(t);
  }

  lemma ExampleOneTable()
    ensures OneTable(ExampleModels())
  {
    forall child, t, u, k | Names(ExampleModels(), child, t, k) && Names(ExampleModels(), child, u, k) ensures t == u {
      ExampleNames(child, t, k);
      ExampleNames(child, u, k);
    }
  }

  lemma ExampleCounts()
    ensures CountsEachOnce(ExampleModels())
  {
    forall t ensures CountsOnce(Observers(ExampleModels(), t)) {
      ExampleObservers(t);
      hide ExampleModels;
      hide Observers;
    }
  }

  lemma ExampleCascades()
    ensures CountedCascade(ExampleModels())
  {
    forall child, t, k | Counter(Owner(t, k)) in Observers(ExampleModels(), child)
      ensures Dependents(Relation(child, k)) in Observers(ExampleModels(), t)
    {
      ExampleObservers(child);
      ExampleObservers(t);
      hide ExampleModels;
      hide Observers;
    }
  }

  lemma ExampleTied()
    ensures Third(ExampleModels(), ExampleTie())
  {
    hide Steps;
    hide SchemaOf;
    hide ExampleModels;
    hide Observers;
    var m, rel := ExampleModels(), Relation("b", "c_id");
    ExampleObservers("a");
    ExampleObservers("b");
    ExampleObservers("c");
    NoSteps(SchemaOf(m), "b");
    StepsVia(SchemaOf(m), "c", rel, [], "b");
    assert [rel] + [] == [rel];
  }

  lemma ExampleMiscounts() returns (ops: seq<Op>)
    ensures var m := ExampleModels(); OneTable(m) && CountsEachOnce(m) && CountedCascade(m) && Third(m, ExampleTie())
    ensures var m, col := ExampleModels(), ThirdColumn(ExampleTie());
            var s := Run(m, Empty(), ops);
            && LegalRun(m, Empty(), ops) && col.parent in Refs(s.db) && Counted(m, col)
            && Count(s.counts, col) < |Children(s.db, col)|
  {
    hide *;
    ExampleOneTable();
    ExampleCounts();
    ExampleCascades();
    ExampleTied();
    ops := ThirdOwnerMiscounts(ExampleModels(), ExampleTie());
  }
}
