/** Destroying a record whose `hasMany` relations are dependent. */
module DependentDestroy {
  import opened Basics

  // The row goes first; then, relation by relation, the rows that refer to it are listed and destroyed in
  // turn, which cascades.

  datatype Ref = Ref(table: string, id: nat)

  /** A stored row: its id and its foreign keys. */
  datatype Entry = Entry(ref: Ref, keys: map<string, nat>)

  /** `hasMany(child, {dependent: true, foreignKey: key})` */
  datatype Relation = Relation(child: string, key: string)

  /** The dependent relations of each model, in the order of their declaration. */
  type Schema = map<string, seq<Relation>>

  function Relations(schema: Schema, table: string): seq<Relation> {
    if table in schema then schema[table] else []
  }

  /** What a destroy leaves: the rows, the rows it deleted and the records whose `afterDestroy` it
      announced, both in order. */
  datatype Outcome = Outcome(db: seq<Entry>, deleted: seq<Ref>, notified: seq<Ref>)

  function Refs(db: seq<Entry>): set<Ref> {
    set e | e in db :: e.ref
  }

  function Delete(db: seq<Entry>, ref: Ref): (r: seq<Entry>)
    ensures forall e :: e in r <==> e in db && e.ref != ref
    ensures |r| <= |db| && (ref in Refs(db) ==> |r| < |db|)
  {
    if db == [] then []
    else
      assert db == [db[0]] + db[1..];
      (if db[0].ref == ref then [] else [db[0]]) + Delete(db[1..], ref)
  }

  predicate Refers(e: Entry, rel: Relation, id: nat) {
    e.ref.table == rel.child && rel.key in e.keys && e.keys[rel.key] == id
  }

  /** The related list of a record: the rows that refer to it, in order. */
  function List(db: seq<Entry>, rel: Relation, id: nat): (r: seq<Ref>)
    ensures forall e :: e in db && Refers(e, rel, id) ==> e.ref in r
    ensures forall x :: x in r ==> exists e :: e in db && e.ref == x && Refers(e, rel, id)
  {
    if db == [] then []
    else
      assert db == [db[0]] + db[1..];
      (if Refers(db[0], rel, id) then [db[0].ref] else []) + List(db[1..], rel, id)
  }

  // ------------------------------------------------------------- the cascade

  /** `destroy`, also of a record whose row is gone already. */
  function Destroy(schema: Schema, db: seq<Entry>, ref: Ref): (o: Outcome)
    ensures |o.db| <= |db| && (ref in Refs(db) ==> |o.db| < |db|)
    decreases |db|, if ref in Refs(db) then 0 else 3, 0
  {
    var o := DestroyRelated(schema, Delete(db, ref), ref, Relations(schema, ref.table));
    Outcome(o.db, (if ref in Refs(db) then [ref] else []) + o.deleted, [ref] + o.notified)
  }

  /** The observers of `afterDestroy`, one for each dependent relation. */
  function DestroyRelated(schema: Schema, db: seq<Entry>, ref: Ref, rels: seq<Relation>): (o: Outcome)
    ensures |o.db| <= |db|
    decreases |db|, 2, |rels|
  {
    if rels == [] then Outcome(db, [], [])
    else
      var list := List(db, rels[0], ref.id);
      assert list == [] || list[0] in list;
      var first := DestroyAll(schema, db, list);
      var rest := DestroyRelated(schema, first.db, ref, rels[1..]);
      Outcome(rest.db, first.deleted + rest.deleted, first.notified + rest.notified)
  }

  function DestroyAll(schema: Schema, db: seq<Entry>, list: seq<Ref>): (o: Outcome)
    ensures |o.db| <= |db|
    decreases |db|, if list == [] || list[0] in Refs(db) then 1 else 4, |list|
  {
    if list == [] then Outcome(db, [], [])
    else
      var first := Destroy(schema, db, list[0]);
      var rest := DestroyAll(schema, first.db, list[1..]);
      Outcome(rest.db, first.deleted + rest.deleted, first.notified + rest.notified)
  }

  // -------------------------------------------------------------- what remains

  ghost predicate ChildVia(e: Entry, p: Ref, rels: seq<Relation>) {
    exists rel <- rels :: Refers(e, rel, p.id)
  }

  ghost predicate ChildOf(schema: Schema, e: Entry, p: Ref) {
    ChildVia(e, p, Relations(schema, p.table))
  }

  /** Every row has its own id. */
  ghost predicate Distinct(db: seq<Entry>) {
    db == [] || (db[0].ref !in Refs(db[1..]) && Distinct(db[1..]))
  }

  ghost predicate NoDuplicates(s: seq<Ref>) {
    s == [] || (s[0] !in s[1..] && NoDuplicates(s[1..]))
  }

  /** No remaining row refers to a row that was stored before and is not any more. */
  ghost predicate NoOrphans(schema: Schema, db: seq<Entry>, db': seq<Entry>) {
    forall e, p :: e in db' && ChildOf(schema, e, p) && p in Refs(db) ==> p in Refs(db')
  }

  ghost predicate Kept(db: seq<Entry>, db': seq<Entry>) {
    && (forall e :: e in db' ==> e in db)
    && (forall e :: e in db && e.ref in Refs(db') ==> e in db')
    && (Distinct(db) ==> Distinct(db'))
  }

  /** The deleted rows, each once, are the rows that were stored and are not any more. */
  ghost predicate Accounted(db: seq<Entry>, db': seq<Entry>, deleted: seq<Ref>) {
    && NoDuplicates(deleted)
    && forall r :: r in deleted <==> r in Refs(db) && r !in Refs(db')
  }

  ghost predicate Cascade(schema: Schema, db: seq<Entry>, o: Outcome) {
    Kept(db, o.db) && NoOrphans(schema, db, o.db) && Accounted(db, o.db, o.deleted)
  }

  lemma {:induction false} NoDuplicatesAppend(a: seq<Ref>, b: seq<Ref>)
    requires NoDuplicates(a) && NoDuplicates(b) && forall r :: r in a ==> r !in b
    ensures NoDuplicates(a + b)
  {
    if a == [] {
      AppendNothing(b);
    } else {
      assert (a + b)[0] == a[0] && (a + b)[1..] == a[1..] + b;
      NoDuplicatesAppend(a[1..], b);
    }
  }

  lemma KeptRefs(db: seq<Entry>, db': seq<Entry>, r: Ref)
    requires Kept(db, db') && r in Refs(db')
    ensures r in Refs(db)
  {
  }

  lemma CascadeNothing(schema: Schema, db: seq<Entry>)
    ensures Cascade(schema, db, Outcome(db, [], []))
  {
  }

  lemma CascadeThen(schema: Schema, db: seq<Entry>, a: Outcome, b: Outcome, notified: seq<Ref>)
    requires Cascade(schema, db, a) && Cascade(schema, a.db, b)
    ensures Cascade(schema, db, Outcome(b.db, a.deleted + b.deleted, notified))
  {
    hide ChildOf;
    hide Distinct;
    hide NoDuplicates;
    hide Refs;
    forall r | r in Refs(a.db) ensures r in Refs(db) {
      KeptRefs(db, a.db, r);
    }
    forall r | r in Refs(b.db) ensures r in Refs(a.db) {
      KeptRefs(a.db, b.db, r);
    }
    NoDuplicatesAppend(a.deleted, b.deleted);
  }

  lemma {:induction false} DeleteKeeps(db: seq<Entry>, ref: Ref)
    ensures Kept(db, Delete(db, ref))
  {
    if db != [] {
      assert db == [db[0]] + db[1..];
      DeleteKeeps(db[1..], ref);
      var rest := Delete(db[1..], ref);
      if db[0].ref == ref {
        AppendNothing(rest);
      } else {
        assert Delete(db, ref)[1..] == rest;
        if db[0].ref in Refs(rest) {
          KeptRefs(db[1..], rest, db[0].ref);
        }
      }
    }
  }

  /** Destroying a record removes its row and leaves no row that refers to it or to any other row
      that went with it. */
  lemma {:induction false} DestroyCascades(schema: Schema, db: seq<Entry>, ref: Ref)
    ensures var o := Destroy(schema, db, ref);
            && Cascade(schema, db, o) && ref !in Refs(o.db)
            && forall e :: e in o.db ==> !ChildOf(schema, e, ref)
    decreases |db|, if ref in Refs(db) then 0 else 3, 0
  {
    var without := Delete(db, ref);
    var o := DestroyRelated(schema, without, ref, Relations(schema, ref.table));
    DeleteKeeps(db, ref);
    RelatedCascades(schema, without, ref, Relations(schema, ref.table));
    RowCascades(schema, db, ref, o);
  }

  lemma RowCascades(schema: Schema, db: seq<Entry>, ref: Ref, o: Outcome)
    requires var without := Delete(db, ref); Kept(db, without) && Cascade(schema, without, o)
    requires forall e :: e in o.db ==> !ChildOf(schema, e, ref)
    ensures Cascade(schema, db, Outcome(o.db, (if ref in Refs(db) then [ref] else []) + o.deleted, [ref] + o.notified))
    ensures ref !in Refs(o.db)
  {
    hide ChildOf;
    hide Distinct;
    hide NoDuplicates;
    hide Accounted;
    RowOrphans(schema, db, ref, o);
    RowAccounted(db, ref, o);
  }

  lemma RowOrphans(schema: Schema, db: seq<Entry>, ref: Ref, o: Outcome)
    requires NoOrphans(schema, Delete(db, ref), o.db) && forall e :: e in o.db ==> !ChildOf(schema, e, ref)
    ensures NoOrphans(schema, db, o.db)
  {
    hide ChildOf;
    forall e, p | e in o.db && ChildOf(schema, e, p) && p in Refs(db) ensures p in Refs(o.db) {
      assert p != ref;
      var x :| x in db && x.ref == p;
      assert x in Delete(db, ref);
      assert p in Refs(Delete(db, ref));
    }
  }

  lemma RowAccounted(db: seq<Entry>, ref: Ref, o: Outcome)
    requires Kept(Delete(db, ref), o.db) && Accounted(Delete(db, ref), o.db, o.deleted)
    ensures Accounted(db, o.db, (if ref in Refs(db) then [ref] else []) + o.deleted)
  {
    hide Distinct;
    hide NoDuplicates;
    NoDuplicatesInOne(ref);
    NoDuplicatesAppend(if ref in Refs(db) then [ref] else [], o.deleted);
  }

  lemma NoDuplicatesInOne(ref: Ref)
    ensures NoDuplicates([ref]) && NoDuplicates([])
  {
  }

  lemma {:induction false} RelatedCascades(schema: Schema, db: seq<Entry>, ref: Ref, rels: seq<Relation>)
    ensures var o := DestroyRelated(schema, db, ref, rels);
            Cascade(schema, db, o) && forall e :: e in o.db ==> !ChildVia(e, ref, rels)
    decreases |db|, 2, |rels|
  {
    var o := DestroyRelated(schema, db, ref, rels);
    if rels == [] {
      CascadeNothing(schema, db);
    } else {
      hide NoDuplicates;
      hide Distinct;
      hide NoOrphans;
      hide Accounted;
      hide ChildVia;
      var list := List(db, rels[0], ref.id);
      assert list == [] || list[0] in list;
      var first := DestroyAll(schema, db, list);
      AllCascade(schema, db, list);
      RelatedCascades(schema, first.db, ref, rels[1..]);
      var rest := DestroyRelated(schema, first.db, ref, rels[1..]);
      CascadeThen(schema, db, first, rest, first.notified + rest.notified);
      forall e | e in o.db ensures !ChildVia(e, ref, rels) {
        NotChildVia(db, e, ref, rels, first.db);
      }
    }
  }

  lemma NotChildVia(db: seq<Entry>, e: Entry, ref: Ref, rels: seq<Relation>, left: seq<Entry>)
    requires rels != [] && e in left && e in db && !ChildVia(e, ref, rels[1..])
    requires forall x :: x in List(db, rels[0], ref.id) ==> x !in Refs(left)
    ensures !ChildVia(e, ref, rels)
  {
    assert e.ref in Refs(left);
    assert rels == [rels[0]] + rels[1..];
  }

  lemma {:induction false} AllCascade(schema: Schema, db: seq<Entry>, list: seq<Ref>)
    ensures var o := DestroyAll(schema, db, list);
            Cascade(schema, db, o) && forall x :: x in list ==> x !in Refs(o.db)
    decreases |db|, if list == [] || list[0] in Refs(db) then 1 else 4, |list|
  {
    if list == [] {
      CascadeNothing(schema, db);
    } else {
      var first := Destroy(schema, db, list[0]);
      DestroyCascades(schema, db, list[0]);
      AllCascade(schema, first.db, list[1..]);
      var rest := DestroyAll(schema, first.db, list[1..]);
      CascadeThen(schema, db, first, rest, first.notified + rest.notified);
    }
  }

  // -------------------------------------------------------------- reachability

  /** Rows that each refer to the one before, the first to `p`. */
  ghost predicate Path(schema: Schema, db: seq<Entry>, p: Ref, path: seq<Entry>)
    decreases |path|
  {
    path == [] || (path[0] in db && ChildOf(schema, path[0], p) && Path(schema, db, path[0].ref, path[1..]))
  }

  ghost predicate PathTo(schema: Schema, db: seq<Entry>, p: Ref, path: seq<Entry>, e: Entry) {
    path != [] && path[|path| - 1] == e && Path(schema, db, p, path)
  }

  /** The row is a child of `p`, or a child of a child, and so on. */
  ghost predicate Reaches(schema: Schema, db: seq<Entry>, p: Ref, e: Entry) {
    exists path :: PathTo(schema, db, p, path, e)
  }

  lemma {:induction false} PathGrows(schema: Schema, db: seq<Entry>, more: seq<Entry>, p: Ref, path: seq<Entry>)
    requires Path(schema, db, p, path) && forall e :: e in db ==> e in more
    ensures Path(schema, more, p, path)
    decreases |path|
  {
    if path != [] {
      PathGrows(schema, db, more, path[0].ref, path[1..]);
    }
  }

  lemma ReachesGrows(schema: Schema, db: seq<Entry>, more: seq<Entry>, p: Ref, e: Entry)
    requires Reaches(schema, db, p, e) && forall x :: x in db ==> x in more
    ensures Reaches(schema, more, p, e)
  {
    var path :| PathTo(schema, db, p, path, e);
    PathGrows(schema, db, more, p, path);
    assert PathTo(schema, more, p, path, e);
  }

  lemma ReachesChild(schema: Schema, db: seq<Entry>, p: Ref, e: Entry)
    requires e in db && ChildOf(schema, e, p)
    ensures Reaches(schema, db, p, e)
  {
    assert PathTo(schema, db, p, [e], e);
  }

  lemma ReachesVia(schema: Schema, db: seq<Entry>, p: Ref, y: Entry, e: Entry)
    requires y in db && ChildOf(schema, y, p) && Reaches(schema, db, y.ref, e)
    ensures Reaches(schema, db, p, e)
  {
    var path :| PathTo(schema, db, y.ref, path, e);
    assert ([y] + path)[1..] == path;
    assert PathTo(schema, db, p, [y] + path, e);
  }

  /** Whatever a destroy removes was reachable from the record. */
  lemma {:induction false} DestroyedReachable(schema: Schema, db: seq<Entry>, ref: Ref, e: Entry)
    requires Distinct(db) && e in db && e !in Destroy(schema, db, ref).db
    ensures e.ref == ref || Reaches(schema, db, ref, e)
    decreases |db|, if ref in Refs(db) then 0 else 3, 0
  {
    if e.ref != ref {
      var without := Delete(db, ref);
      DeleteKeeps(db, ref);
      RelatedReachable(schema, without, ref, Relations(schema, ref.table), e);
      ReachesGrows(schema, without, db, ref, e);
    }
  }

  lemma {:induction false} RelatedReachable(schema: Schema, db: seq<Entry>, ref: Ref, rels: seq<Relation>, e: Entry)
    requires Distinct(db) && e in db && e !in DestroyRelated(schema, db, ref, rels).db
    requires forall rel :: rel in rels ==> rel in Relations(schema, ref.table)
    ensures Reaches(schema, db, ref, e)
    decreases |db|, 2, |rels|
  {
    var list := List(db, rels[0], ref.id);
    assert list == [] || list[0] in list;
    var first := DestroyAll(schema, db, list);
    AllCascade(schema, db, list);
    if e in first.db {
      RelatedReachable(schema, first.db, ref, rels[1..], e);
      ReachesGrows(schema, first.db, db, ref, e);
    } else {
      AllReachable(schema, db, list, e);
      var x :| x in list && (e.ref == x || Reaches(schema, db, x, e));
      var y :| y in db && y.ref == x && Refers(y, rels[0], ref.id);
      assert rels[0] in Relations(schema, ref.table);
      if e.ref == x {
        DistinctSame(db, e, y);
        ReachesChild(schema, db, ref, e);
      } else {
        ReachesVia(schema, db, ref, y, e);
      }
    }
  }

  lemma {:induction false} AllReachable(schema: Schema, db: seq<Entry>, list: seq<Ref>, e: Entry)
    requires Distinct(db) && e in db && e !in DestroyAll(schema, db, list).db
    ensures exists x :: x in list && (e.ref == x || Reaches(schema, db, x, e))
    decreases |db|, if list == [] || list[0] in Refs(db) then 1 else 4, |list|
  {
    var first := Destroy(schema, db, list[0]);
    DestroyCascades(schema, db, list[0]);
    if e in first.db {
      AllReachable(schema, first.db, list[1..], e);
      var x :| x in list[1..] && (e.ref == x || Reaches(schema, first.db, x, e));
      assert x in list;
      if e.ref != x {
        ReachesGrows(schema, first.db, db, x, e);
      }
    } else {
      DestroyedReachable(schema, db, list[0], e);
      assert list[0] in list;
    }
  }

  // -------------------------------------------------------------- parents first

  /** The record refers to one of `before`. */
  ghost predicate HasParent(schema: Schema, db: seq<Entry>, x: Ref, before: set<Ref>) {
    exists e, p :: e in db && e.ref == x && p in before && ChildOf(schema, e, p)
  }

  /** Each of these records refers to one of `before`, or to one that comes earlier. */
  ghost predicate AfterParents(schema: Schema, db: seq<Entry>, before: set<Ref>, s: seq<Ref>)
    decreases |s|
  {
    s == [] || (HasParent(schema, db, s[0], before) && AfterParents(schema, db, before + {s[0]}, s[1..]))
  }

  lemma {:induction false} AfterMore(schema: Schema, db: seq<Entry>, before: set<Ref>, more: set<Ref>, s: seq<Ref>)
    requires AfterParents(schema, db, before, s) && before <= more
    ensures AfterParents(schema, db, more, s)
    decreases |s|
  {
    hide ChildOf;
    if s != [] {
      AfterMore(schema, db, before + {s[0]}, more + {s[0]}, s[1..]);
    }
  }

  lemma {:induction false} AfterBoth(schema: Schema, db: seq<Entry>, before: set<Ref>, a: seq<Ref>, b: seq<Ref>)
    requires AfterParents(schema, db, before, a) && AfterParents(schema, db, before + (set x | x in a), b)
    ensures AfterParents(schema, db, before, a + b)
    decreases |a|
  {
    hide HasParent;
    if a == [] {
      assert a + b == b && before + (set x | x in a) == before;
    } else {
      assert (a + b)[0] == a[0] && (a + b)[1..] == a[1..] + b && a == [a[0]] + a[1..];
      assert before + (set x | x in a) == before + {a[0]} + (set x | x in a[1..]);
      AfterBoth(schema, db, before + {a[0]}, a[1..], b);
    }
  }

  /** What was stored at first and is not any more. */
  ghost function Gone(all: seq<Entry>, db: seq<Entry>): set<Ref> {
    Refs(all) - Refs(db)
  }

  /** A part of the destruction, its records coming after their parents, from `before` on. */
  ghost predicate InOrder(schema: Schema, all: seq<Entry>, before: set<Ref>, o: Outcome) {
    && AfterParents(schema, all, before, o.notified) && AfterParents(schema, all, before, o.deleted)
    && forall x :: x in o.deleted ==> x in o.notified
  }

  /** A row goes, and is announced, before those that refer to it. */
  lemma ParentsFirst(schema: Schema, db: seq<Entry>, ref: Ref)
    ensures var o := Destroy(schema, db, ref);
            && o.notified != [] && o.notified[0] == ref && AfterParents(schema, db, {ref}, o.notified[1..])
            && (if ref in Refs(db) then o.deleted != [] && o.deleted[0] == ref && AfterParents(schema, db, {ref}, o.deleted[1..])
                else AfterParents(schema, db, {ref}, o.deleted))
  {
    var without := Delete(db, ref);
    DeleteKeeps(db, ref);
    assert Gone(db, without) <= {ref};
    RelatedInOrder(schema, db, {ref}, without, ref, Relations(schema, ref.table));
    var rest := DestroyRelated(schema, without, ref, Relations(schema, ref.table));
    AppendNothing(rest.deleted);
    assert ([ref] + rest.deleted)[1..] == rest.deleted && ([ref] + rest.notified)[1..] == rest.notified;
  }

  lemma {:induction false} RecordInOrder(schema: Schema, all: seq<Entry>, before: set<Ref>, db: seq<Entry>, ref: Ref)
    requires Kept(all, db) && Gone(all, db) <= before && HasParent(schema, all, ref, before) && ref in Refs(all)
    ensures InOrder(schema, all, before, Destroy(schema, db, ref))
    decreases |db|, if ref in Refs(db) then 0 else 3, 0
  {
    var without, rels := Delete(db, ref), Relations(schema, ref.table);
    DeleteKeeps(db, ref);
    KeptTwice(all, db, without);
    assert Gone(db, without) <= {ref} && (ref !in Refs(db) ==> ref in before);
    hide Kept;
    hide Gone;
    hide InOrder;
    hide HasParent;
    hide Refs;
    RelatedInOrder(schema, all, before + {ref}, without, ref, rels);
    OneFirst(schema, all, before, ref, ref in Refs(db), DestroyRelated(schema, without, ref, rels));
  }

  lemma OneFirst(schema: Schema, all: seq<Entry>, before: set<Ref>, ref: Ref, stored: bool, rest: Outcome)
    requires HasParent(schema, all, ref, before) && InOrder(schema, all, before + {ref}, rest) && (stored || ref in before)
    ensures InOrder(schema, all, before, Outcome(rest.db, (if stored then [ref] else []) + rest.deleted, [ref] + rest.notified))
  {
    hide HasParent;
    assert ([ref] + rest.notified)[1..] == rest.notified && ([ref] + rest.deleted)[1..] == rest.deleted;
    if !stored {
      assert before + {ref} == before;
      AppendNothing(rest.deleted);
    }
  }

  lemma KeptTwice(a: seq<Entry>, b: seq<Entry>, c: seq<Entry>)
    requires Kept(a, b) && Kept(b, c)
    ensures Kept(a, c) && Gone(a, c) == Gone(a, b) + Gone(b, c)
  {
    hide Distinct;
    forall r | r in Refs(c) ensures r in Refs(b) {
      KeptRefs(b, c, r);
    }
    forall r | r in Refs(b) ensures r in Refs(a) {
      KeptRefs(a, b, r);
    }
  }

  lemma {:induction false} RelatedInOrder(schema: Schema, all: seq<Entry>, before: set<Ref>, db: seq<Entry>, ref: Ref, rels: seq<Relation>)
    requires Kept(all, db) && Gone(all, db) <= before && ref in before
    requires forall rel :: rel in rels ==> rel in Relations(schema, ref.table)
    ensures InOrder(schema, all, before, DestroyRelated(schema, db, ref, rels))
    decreases |db|, 2, |rels|
  {
    if rels != [] {
      var list := List(db, rels[0], ref.id);
      assert list == [] || list[0] in list;
      ListHasParents(schema, all, before, db, rels[0], ref);
      ListInOrder(schema, all, before, db, list);
      var first := DestroyAll(schema, db, list);
      PartDone(schema, all, before, db, list);
      hide Kept;
      hide Gone;
      hide InOrder;
      hide HasParent;
      RelatedInOrder(schema, all, before + (set x | x in first.deleted), first.db, ref, rels[1..]);
      var rest := DestroyRelated(schema, first.db, ref, rels[1..]);
      PartThen(schema, all, before, first, rest);
    }
  }

  /** The list is read from what is left: its records refer to `ref`. */
  lemma ListHasParents(schema: Schema, all: seq<Entry>, before: set<Ref>, db: seq<Entry>, rel: Relation, ref: Ref)
    requires Kept(all, db) && ref in before && rel in Relations(schema, ref.table)
    ensures forall x :: x in List(db, rel, ref.id) ==> x in Refs(all) && HasParent(schema, all, x, before)
  {
    forall x | x in List(db, rel, ref.id) ensures x in Refs(all) && HasParent(schema, all, x, before) {
      var e :| e in db && e.ref == x && Refers(e, rel, ref.id);
      assert e in all && ChildOf(schema, e, ref);
    }
  }

  /** After a part, what has gone is `before` and what the part deleted. */
  lemma PartDone(schema: Schema, all: seq<Entry>, before: set<Ref>, db: seq<Entry>, list: seq<Ref>)
    requires Kept(all, db) && Gone(all, db) <= before
    ensures var o := DestroyAll(schema, db, list); Kept(all, o.db) && Gone(all, o.db) <= before + (set x | x in o.deleted)
  {
    var o := DestroyAll(schema, db, list);
    AllCascade(schema, db, list);
    KeptTwice(all, db, o.db);
    assert Gone(db, o.db) == (set x | x in o.deleted);
  }

  /** One part and the rest, which may take more to have gone. */
  lemma PartThen(schema: Schema, all: seq<Entry>, before: set<Ref>, a: Outcome, b: Outcome)
    requires InOrder(schema, all, before, a)
    requires InOrder(schema, all, before + (set x | x in a.deleted), b)
    ensures InOrder(schema, all, before, Then(a, b))
  {
    AfterMore(schema, all, before + (set x | x in a.deleted), before + (set x | x in a.notified), b.notified);
    AfterBoth(schema, all, before, a.notified, b.notified);
    AfterBoth(schema, all, before, a.deleted, b.deleted);
  }

  /** The same after one record. */
  lemma RecordDone(schema: Schema, all: seq<Entry>, before: set<Ref>, db: seq<Entry>, ref: Ref)
    requires Kept(all, db) && Gone(all, db) <= before
    ensures var o := Destroy(schema, db, ref); Kept(all, o.db) && Gone(all, o.db) <= before + (set x | x in o.deleted)
  {
    var o := Destroy(schema, db, ref);
    DestroyCascades(schema, db, ref);
    KeptTwice(all, db, o.db);
    assert Gone(db, o.db) == (set x | x in o.deleted);
  }

  lemma {:induction false} ListInOrder(schema: Schema, all: seq<Entry>, before: set<Ref>, db: seq<Entry>, list: seq<Ref>)
    requires Kept(all, db) && Gone(all, db) <= before
    requires forall x :: x in list ==> x in Refs(all) && HasParent(schema, all, x, before)
    ensures InOrder(schema, all, before, DestroyAll(schema, db, list))
    decreases |db|, if list == [] || list[0] in Refs(db) then 1 else 4, |list|
  {
    if list != [] {
      RecordInOrder(schema, all, before, db, list[0]);
      var first := Destroy(schema, db, list[0]);
      RecordDone(schema, all, before, db, list[0]);
      hide Kept;
      hide Gone;
      hide InOrder;
      hide HasParent;
      hide Refs;
      var after := before + (set x | x in first.deleted);
      forall x | x in list[1..] ensures HasParent(schema, all, x, after) {
        ParentStill(schema, all, x, before, after);
      }
      ListInOrder(schema, all, after, first.db, list[1..]);
      PartThen(schema, all, before, first, DestroyAll(schema, first.db, list[1..]));
    }
  }

  lemma ParentStill(schema: Schema, db: seq<Entry>, x: Ref, before: set<Ref>, more: set<Ref>)
    requires HasParent(schema, db, x, before) && before <= more
    ensures HasParent(schema, db, x, more)
  {
    hide ChildOf;
  }

  /** The records of `a` stand in `b` in their order. */
  ghost predicate Subsequence(a: seq<Ref>, b: seq<Ref>)
    decreases |a|
  {
    a == [] || exists k :: 0 <= k < |b| && b[k] == a[0] && Subsequence(a[1..], b[k + 1..])
  }

  lemma SubsequenceLater(a: seq<Ref>, before: seq<Ref>, b: seq<Ref>)
    requires Subsequence(a, b)
    ensures Subsequence(a, before + b)
  {
    if a != [] {
      var k :| 0 <= k < |b| && b[k] == a[0] && Subsequence(a[1..], b[k + 1..]);
      assert (before + b)[|before| + k] == a[0] && (before + b)[|before| + k + 1..] == b[k + 1..];
    }
  }

  /** The listed records are destroyed in turn. */
  lemma {:induction false} ListedInTurn(schema: Schema, db: seq<Entry>, list: seq<Ref>)
    ensures Subsequence(list, DestroyAll(schema, db, list).notified)
    decreases |list|
  {
    if list != [] {
      var first := Destroy(schema, db, list[0]);
      var rest := DestroyAll(schema, first.db, list[1..]);
      ListedInTurn(schema, first.db, list[1..]);
      SubsequenceLater(list[1..], first.notified[1..], rest.notified);
      var all := first.notified + rest.notified;
      assert all[0] == list[0] && all[0 + 1..] == first.notified[1..] + rest.notified;
    }
  }

  /** Records are listed in the order of the table. */
  lemma {:induction false} ListAppend(a: seq<Entry>, b: seq<Entry>, rel: Relation, id: nat)
    ensures List(a + b, rel, id) == List(a, rel, id) + List(b, rel, id)
  {
    if a == [] {
      assert a + b == b;
    } else {
      assert (a + b)[0] == a[0] && (a + b)[1..] == a[1..] + b;
      ListAppend(a[1..], b, rel, id);
      AppendAssociates(if Refers(a[0], rel, id) then [a[0].ref] else [], List(a[1..], rel, id), List(b, rel, id));
    }
  }

  /** The relation declared first comes first: after the record itself, its first child goes. */
  lemma FirstRelationFirst(schema: Schema, db: seq<Entry>, ref: Ref)
    requires var rels := Relations(schema, ref.table); rels != [] && List(Delete(db, ref), rels[0], ref.id) != []
    ensures var o := Destroy(schema, db, ref);
            |o.notified| > 1 && o.notified[1] == List(Delete(db, ref), Relations(schema, ref.table)[0], ref.id)[0]
  {
    var rels, without := Relations(schema, ref.table), Delete(db, ref);
    var list := List(without, rels[0], ref.id);
    var first := Destroy(schema, without, list[0]);
    assert DestroyAll(schema, without, list).notified == first.notified + DestroyAll(schema, first.db, list[1..]).notified;
    assert first.notified[0] == list[0];
  }

  lemma {:induction false} DistinctSame(db: seq<Entry>, a: Entry, b: Entry)
    requires Distinct(db) && a in db && b in db && a.ref == b.ref
    ensures a == b
  {
    if a != db[0] && b != db[0] {
      DistinctSame(db[1..], a, b);
    }
  }

  /** Along a path from something destroyed, everything is destroyed. */
  lemma {:induction false} PathDestroyed(schema: Schema, db: seq<Entry>, ref: Ref, p: Ref, path: seq<Entry>)
    requires Path(schema, db, p, path) && path != []
    requires p == ref || (p in Refs(db) && p !in Refs(Destroy(schema, db, ref).db))
    ensures path[|path| - 1] !in Destroy(schema, db, ref).db
    decreases |path|
  {
    DestroyCascades(schema, db, ref);
    hide ChildOf;
    assert path[0] !in Destroy(schema, db, ref).db;
    if |path| > 1 {
      PathDestroyed(schema, db, ref, path[0].ref, path[1..]);
    }
  }

  /** A destroy always ends, and the rows it removes are the record's own row and exactly the rows
      reachable from it along the foreign keys, however the relations loop. */
  lemma DestroysExactlyReachable(schema: Schema, db: seq<Entry>, ref: Ref, e: Entry)
    requires Distinct(db) && e in db
    ensures e !in Destroy(schema, db, ref).db <==> e.ref == ref || Reaches(schema, db, ref, e)
  {
    DestroyCascades(schema, db, ref);
    if e !in Destroy(schema, db, ref).db {
      DestroyedReachable(schema, db, ref, e);
    } else if Reaches(schema, db, ref, e) {
      var path :| PathTo(schema, db, ref, path, e);
      PathDestroyed(schema, db, ref, ref, path);
    }
  }

  /** The deletions, each once: the record itself if it was stored, and the rows reachable from it. */
  lemma DeletesEachOnce(schema: Schema, db: seq<Entry>, ref: Ref)
    requires Distinct(db)
    ensures NoDuplicates(Destroy(schema, db, ref).deleted)
    ensures forall e :: e in db ==> (e.ref in Destroy(schema, db, ref).deleted <==> e.ref == ref || Reaches(schema, db, ref, e))
    ensures forall r :: r in Destroy(schema, db, ref).deleted ==> r in Refs(db)
  {
    DestroyCascades(schema, db, ref);
    hide Reaches;
    forall e | e in db
      ensures e.ref in Destroy(schema, db, ref).deleted <==> e.ref == ref || Reaches(schema, db, ref, e)
    {
      DestroysExactlyReachable(schema, db, ref, e);
    }
  }

  // ------------------------------------------------------------ announcements

  /** The table that the first `i` relations lead to, from table `t`. */
  function TableAt(t: string, rels: seq<Relation>, i: nat): string
    requires i <= |rels|
  {
    if i == 0 then t else rels[i - 1].child
  }

  ghost predicate Steps(schema: Schema, t: string, rels: seq<Relation>, u: string) {
    (forall i :: 0 <= i < |rels| ==> rels[i] in Relations(schema, TableAt(t, rels, i))) && TableAt(t, rels, |rels|) == u
  }

  /** The dependent relations lead from one table to the other, perhaps in no step at all. */
  ghost predicate Leads(schema: Schema, t: string, u: string) {
    exists rels :: Steps(schema, t, rels, u)
  }

  /** Two different relations have the same child, and from the child one comes back to the second. */
  ghost predicate Entangled(schema: Schema, t: string, r: Relation, u: string, s: Relation) {
    && r in Relations(schema, t) && s in Relations(schema, u) && r.child == s.child
    && (t, r.key) != (u, s.key) && Leads(schema, r.child, u)
  }

  /** No child model has two owners one of which its own cascade can reach. */
  ghost predicate Untangled(schema: Schema) {
    forall t, r, u, s :: !Entangled(schema, t, r, u, s)
  }

  /** The last parent on a path, and how the relations lead to its table. */
  lemma {:induction false} PathParent(schema: Schema, db: seq<Entry>, p: Ref, path: seq<Entry>)
      returns (q: Ref, rels: seq<Relation>)
    requires path != [] && Path(schema, db, p, path)
    ensures ChildOf(schema, path[|path| - 1], q) && (q == p || q in Refs(db))
    ensures q == if |path| == 1 then p else path[|path| - 2].ref
    ensures Steps(schema, p.table, rels, q.table)
    decreases |path|
  {
    hide *;
    PathBegins(schema, db, p, path);
    if |path| == 1 {
      q, rels := p, [];
      NoSteps(schema, p.table);
    } else {
      var more;
      q, more := PathParent(schema, db, path[0].ref, path[1..]);
      assert path[1..][|path| - 2] == path[|path| - 1];
      assert |path| > 2 ==> path[1..][|path| - 3] == path[|path| - 2];
      rels := StepsFrom(schema, path[0], p, more, q.table);
    }
  }

  lemma NoSteps(schema: Schema, t: string)
    ensures Steps(schema, t, [], t)
  {
  }

  lemma PathBegins(schema: Schema, db: seq<Entry>, p: Ref, path: seq<Entry>)
    requires path != [] && Path(schema, db, p, path)
    ensures ChildOf(schema, path[0], p) && path[0].ref in Refs(db) && Path(schema, db, path[0].ref, path[1..])
  {
    hide ChildOf;
  }

  lemma StepsFrom(schema: Schema, e: Entry, p: Ref, more: seq<Relation>, u: string) returns (rels: seq<Relation>)
    requires ChildOf(schema, e, p) && Steps(schema, e.ref.table, more, u)
    ensures Steps(schema, p.table, rels, u)
  {
    hide Steps;
    var rel :| rel in Relations(schema, p.table) && Refers(e, rel, p.id);
    rels := [rel] + more;
    StepsVia(schema, p.table, rel, more, u);
  }

  lemma StepsVia(schema: Schema, t: string, rel: Relation, rels: seq<Relation>, u: string)
    requires rel in Relations(schema, t) && Steps(schema, rel.child, rels, u)
    ensures Steps(schema, t, [rel] + rels, u)
  {
    hide TableAt;
    hide Relations;
    var all := [rel] + rels;
    TableVia(t, rel, rels, 0);
    TableVia(t, rel, rels, |all|);
    forall i | 0 <= i < |all| ensures all[i] in Relations(schema, TableAt(t, all, i)) {
      TableVia(t, rel, rels, i);
      assert i > 0 ==> all[i] == rels[i - 1];
    }
  }

  lemma TableVia(t: string, rel: Relation, rels: seq<Relation>, i: nat)
    requires i <= |rels| + 1
    ensures TableAt(t, [rel] + rels, i) == if i == 0 then t else TableAt(rel.child, rels, i - 1)
  {
  }

  /** A listed row survives the destruction of another one of the list. */
  lemma SiblingSurvives(schema: Schema, db: seq<Entry>, ref: Ref, e: Entry, p: Ref)
    requires Untangled(schema) && Distinct(db) && e in db && ChildOf(schema, e, p) && p !in Refs(db)
    requires e.ref != ref && p != ref && e.ref.table == ref.table
    ensures e in Destroy(schema, db, ref).db
  {
    if e !in Destroy(schema, db, ref).db {
      DestroyedReachable(schema, db, ref, e);
      var path :| PathTo(schema, db, ref, path, e);
      var q, rels := PathParent(schema, db, ref, path);
      OneParent(schema, e, p, q, rels);
    }
  }

  lemma OneParent(schema: Schema, e: Entry, p: Ref, q: Ref, rels: seq<Relation>)
    requires Untangled(schema) && ChildOf(schema, e, p) && ChildOf(schema, e, q)
    requires Steps(schema, e.ref.table, rels, q.table)
    ensures p == q
  {
    var r :| r in Relations(schema, p.table) && Refers(e, r, p.id);
    var s :| s in Relations(schema, q.table) && Refers(e, s, q.id);
    assert Leads(schema, r.child, q.table);
    if (p.table, r.key) != (q.table, s.key) {
      assert Entangled(schema, p.table, r, q.table, s);
    }
  }

  ghost predicate Siblings(schema: Schema, db: seq<Entry>, list: seq<Ref>, p: Ref) {
    && NoDuplicates(list) && (forall x, y :: x in list && y in list ==> x.table == y.table)
    && forall x :: x in list ==> exists e :: e in db && e.ref == x && ChildOf(schema, e, p)
  }

  lemma {:induction false} ListSiblings(schema: Schema, db: seq<Entry>, rel: Relation, p: Ref)
    requires Distinct(db) && rel in Relations(schema, p.table)
    ensures Siblings(schema, db, List(db, rel, p.id), p)
  {
    if db != [] {
      ListSiblings(schema, db[1..], rel, p);
      var rest := List(db[1..], rel, p.id);
      assert db == [db[0]] + db[1..];
      if Refers(db[0], rel, p.id) {
        assert ([db[0].ref] + rest)[1..] == rest;
      } else {
        AppendNothing(rest);
      }
    }
  }

  lemma SiblingsSurvive(schema: Schema, db: seq<Entry>, list: seq<Ref>, p: Ref)
    requires Untangled(schema) && Distinct(db) && list != [] && Siblings(schema, db, list, p) && p !in Refs(db)
    requires p != list[0]
    ensures Siblings(schema, Destroy(schema, db, list[0]).db, list[1..], p)
  {
    var left := Destroy(schema, db, list[0]).db;
    hide Untangled;
    hide ChildOf;
    forall x | x in list[1..] ensures exists e :: e in left && e.ref == x && ChildOf(schema, e, p) {
      assert x in list && x != list[0];
      var e :| e in db && e.ref == x && ChildOf(schema, e, p);
      SiblingSurvives(schema, db, list[0], e, p);
    }
  }

  /** In an untangled schema every deleted row is announced once, in the order of deletion, and nothing
      else is announced, except a record that was gone from the start. */
  lemma {:induction false} AnnouncesEachOnce(schema: Schema, db: seq<Entry>, ref: Ref)
    requires Untangled(schema) && Distinct(db)
    ensures var o := Destroy(schema, db, ref);
            o.notified == if ref in Refs(db) then o.deleted else [ref] + o.deleted
    decreases |db|, if ref in Refs(db) then 0 else 3, 0
  {
    DeleteKeeps(db, ref);
    RelatedOnce(schema, Delete(db, ref), ref, Relations(schema, ref.table));
  }

  lemma {:induction false} RelatedOnce(schema: Schema, db: seq<Entry>, ref: Ref, rels: seq<Relation>)
    requires Untangled(schema) && Distinct(db) && ref !in Refs(db)
    requires forall rel :: rel in rels ==> rel in Relations(schema, ref.table)
    ensures var o := DestroyRelated(schema, db, ref, rels); o.notified == o.deleted
    decreases |db|, 2, |rels|
  {
    hide Untangled;
    hide ChildOf;
    if rels != [] {
      var list := List(db, rels[0], ref.id);
      assert list == [] || list[0] in list;
      ListSiblings(schema, db, rels[0], ref);
      AllOnce(schema, db, list, ref);
      AllCascade(schema, db, list);
      RelatedOnce(schema, DestroyAll(schema, db, list).db, ref, rels[1..]);
    }
  }

  lemma {:induction false} AllOnce(schema: Schema, db: seq<Entry>, list: seq<Ref>, p: Ref)
    requires Untangled(schema) && Distinct(db) && Siblings(schema, db, list, p) && p !in Refs(db)
    ensures var o := DestroyAll(schema, db, list); o.notified == o.deleted
    decreases |db|, if list == [] || list[0] in Refs(db) then 1 else 4, |list|
  {
    hide Untangled;
    hide ChildOf;
    if list != [] {
      assert list[0] in list;
      AnnouncesEachOnce(schema, db, list[0]);
      DestroyCascades(schema, db, list[0]);
      SiblingsSurvive(schema, db, list, p);
      AllOnce(schema, Destroy(schema, db, list[0]).db, list[1..], p);
    }
  }

  // ------------------------------------------------------------ the objects

  function Then(a: Outcome, b: Outcome): Outcome {
    Outcome(b.db, a.deleted + b.deleted, a.notified + b.notified)
  }

  lemma ThenAssociates(a: Outcome, b: Outcome, c: Outcome)
    ensures Then(Then(a, b), c) == Then(a, Then(b, c))
  {
    AppendAssociates(a.deleted, b.deleted, c.deleted);
    AppendAssociates(a.notified, b.notified, c.notified);
  }

  lemma LoopsDone(schema: Schema, a: Outcome, ref: Ref)
    ensures Then(a, DestroyAll(schema, a.db, [])) == a
    ensures Then(a, DestroyRelated(schema, a.db, ref, [])) == a
  {
    AppendNothing(a.deleted);
    AppendNothing(a.notified);
  }

  /** One turn of the loop over the related list. */
  lemma AllTurn(schema: Schema, a: Outcome, list: seq<Ref>, i: nat)
    requires i < |list|
    ensures var b := Then(a, Destroy(schema, a.db, list[i]));
            Then(b, DestroyAll(schema, b.db, list[i + 1..])) == Then(a, DestroyAll(schema, a.db, list[i..]))
  {
    var first := Destroy(schema, a.db, list[i]);
    assert list[i..][0] == list[i] && list[i..][1..] == list[i + 1..];
    ThenAssociates(a, first, DestroyAll(schema, first.db, list[i + 1..]));
  }

  /** One turn of the loop over the relations. */
  lemma RelatedTurn(schema: Schema, a: Outcome, ref: Ref, rels: seq<Relation>, i: nat)
    requires i < |rels|
    ensures var b := Then(a, DestroyAll(schema, a.db, List(a.db, rels[i], ref.id)));
            Then(b, DestroyRelated(schema, b.db, ref, rels[i + 1..])) == Then(a, DestroyRelated(schema, a.db, ref, rels[i..]))
  {
    var first := DestroyAll(schema, a.db, List(a.db, rels[i], ref.id));
    assert rels[i..][0] == rels[i] && rels[i..][1..] == rels[i + 1..];
    ThenAssociates(a, first, DestroyRelated(schema, first.db, ref, rels[i + 1..]));
  }

  lemma DestroyBegins(schema: Schema, a: Outcome, ref: Ref)
    ensures var row := if ref in Refs(a.db) then [ref] else [];
            var b := Outcome(Delete(a.db, ref), a.deleted + row, a.notified + [ref]);
            Then(b, DestroyRelated(schema, b.db, ref, Relations(schema, ref.table))) == Then(a, Destroy(schema, a.db, ref))
  {
    var row := if ref in Refs(a.db) then [ref] else [];
    var without := Delete(a.db, ref);
    ThenAssociates(a, Outcome(without, row, [ref]), DestroyRelated(schema, without, ref, Relations(schema, ref.table)));
  }

  /** The storage, with the adapter's record of deletions and the announcements of `afterDestroy`. */
  class Storage {
    const schema: Schema
    var db: seq<Entry>
    var deleted: seq<Ref>
    var notified: seq<Ref>

    constructor (schema: Schema, db: seq<Entry>)
      ensures this.schema == schema && Now() == Outcome(db, [], [])
    {
      this.schema, this.db, deleted, notified := schema, db, [], [];
    }

    function Now(): Outcome
      reads this
    {
      Outcome(db, deleted, notified)
    }

    method DestroyRecord(ref: Ref)
      modifies this
      ensures Now() == Then(old(Now()), Destroy(schema, old(db), ref))
      ensures |db| <= old(|db|) && (ref in Refs(old(db)) ==> |db| < old(|db|))
      decreases |db|, if ref in Refs(db) then 0 else 3, 0
    {
      hide Destroy;
      hide DestroyAll;
      hide DestroyRelated;
      hide Delete;
      hide List;
      hide Then;
      hide Relations;
      DestroyBegins(schema, Now(), ref);
      var rels := Relations(schema, ref.table);
      if ref in Refs(db) {
        deleted := deleted + [ref];
      } else {
        AppendNothing(deleted);
      }
      db := Delete(db, ref);
      notified := notified + [ref];
      var i := 0;
      while i < |rels|
        invariant i <= |rels| && |db| <= |Delete(old(db), ref)|
        invariant Then(Now(), DestroyRelated(schema, db, ref, rels[i..])) == Then(old(Now()), Destroy(schema, old(db), ref))
      {
        RelatedTurn(schema, Now(), ref, rels, i);
        DestroyChildren(ref, rels[i]);
        i := i + 1;
      }
      assert rels[i..] == [];
      LoopsDone(schema, Now(), ref);
    }

    /** The `afterDestroy` observer of one dependent relation. */
    method DestroyChildren(ref: Ref, rel: Relation)
      modifies this
      ensures Now() == Then(old(Now()), DestroyAll(schema, old(db), List(old(db), rel, ref.id)))
      ensures |db| <= old(|db|)
      decreases |db|, 2, 0
    {
      hide Destroy;
      hide DestroyAll;
      hide DestroyRelated;
      hide List;
      hide Then;
      var list := List(db, rel, ref.id);
      assert list == [] || list[0] in list;
      var i := 0;
      while i < |list|
        invariant i <= |list| && (if i == 0 then db == old(db) else |db| < |old(db)|)
        invariant Then(Now(), DestroyAll(schema, db, list[i..])) == Then(old(Now()), DestroyAll(schema, old(db), list))
      {
        AllTurn(schema, Now(), list, i);
        DestroyRecord(list[i]);
        i := i + 1;
      }
      assert list[i..] == [];
      LoopsDone(schema, Now(), ref);
    }
  }
}
