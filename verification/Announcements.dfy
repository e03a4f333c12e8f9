/** How often `afterDestroy` is announced, for every schema. */
module Announcements {
  import opened Basics
  import opened DependentDestroy

  // A record that is listed as a child and destroyed by the cascade before its turn is announced twice.
  // In an entangled schema there is a table in which that happens: below, two rows of the child model
  // refer to the destroyed record, and a chain of rows leads from the first of them to the second.

  // --------------------------------------------------------------- the table

  /** Where a schema is entangled: `t` owns the child by the key `k1`, `u` owns it by the key `k2`, and
      the relations `rels` lead from the child to `u`. */
  datatype Knot = Knot(t: string, k1: string, child: string, rels: seq<Relation>, u: string, k2: string)

  ghost predicate Tied(schema: Schema, x: Knot) {
    && Relation(x.child, x.k1) in Relations(schema, x.t) && Relation(x.child, x.k2) in Relations(schema, x.u)
    && (x.t, x.k1) != (x.u, x.k2) && Steps(schema, x.child, x.rels, x.u)
  }

  /** The id of the i-th row of the chain. The last one has the id of the destroyed record if the same
      key refers to both. */
  function Id(x: Knot, i: nat): nat {
    if x.k1 == x.k2 && i == |x.rels| then 1 else i + 2
  }

  function Link(x: Knot, i: nat): Entry
    requires i <= |x.rels|
  {
    Entry(Ref(TableAt(x.child, x.rels, i), Id(x, i)),
          if i == 0 then map[x.k1 := 1] else map[x.rels[i - 1].key := Id(x, i - 1)])
  }

  function Second(x: Knot): Entry {
    Entry(Ref(x.child, |x.rels| + 3), map[x.k1 := 1][x.k2 := Id(x, |x.rels|)])
  }

  /** The first child, the links behind it, and the second child. */
  function Below(x: Knot): (db: seq<Entry>)
    ensures |db| == |x.rels| + 2 && db[|x.rels| + 1] == Second(x)
    ensures forall i :: 0 <= i <= |x.rels| ==> db[i] == Link(x, i)
  {
    seq(|x.rels| + 2, i requires 0 <= i < |x.rels| + 2 => if i <= |x.rels| then Link(x, i) else Second(x))
  }

  function Root(x: Knot): Entry {
    Entry(Ref(x.t, 1), map[])
  }

  // ------------------------------------------------------ deleting and listing

  lemma {:induction false} DistinctIs(db: seq<Entry>)
    requires forall i, j :: 0 <= i < j < |db| ==> db[i].ref != db[j].ref
    ensures Distinct(db)
  {
    if db != [] {
      DistinctIs(db[1..]);
    }
  }

  lemma {:induction false} DeleteNone(db: seq<Entry>, ref: Ref)
    requires forall i :: 0 <= i < |db| ==> db[i].ref != ref
    ensures Delete(db, ref) == db
  {
    if db != [] {
      DeleteNone(db[1..], ref);
    }
  }

  lemma {:induction false} ListNone(db: seq<Entry>, rel: Relation, id: nat)
    requires forall i :: 0 <= i < |db| ==> !Refers(db[i], rel, id)
    ensures List(db, rel, id) == []
  {
    if db != [] {
      ListNone(db[1..], rel, id);
    }
  }

  lemma {:induction false} ListLast(db: seq<Entry>, rel: Relation, id: nat)
    requires db != [] && Refers(db[|db| - 1], rel, id)
    requires forall i :: 0 <= i < |db| - 1 ==> !Refers(db[i], rel, id)
    ensures List(db, rel, id) == [db[|db| - 1].ref]
  {
    if |db| > 1 {
      ListLast(db[1..], rel, id);
    } else {
      assert db[1..] == [];
    }
  }

  lemma ListEnds(db: seq<Entry>, rel: Relation, id: nat)
    requires |db| > 1 && Refers(db[0], rel, id) && Refers(db[|db| - 1], rel, id)
    requires forall i :: 0 < i < |db| - 1 ==> !Refers(db[i], rel, id)
    ensures List(db, rel, id) == [db[0].ref, db[|db| - 1].ref]
  {
    ListLast(db[1..], rel, id);
  }

  lemma RefsDiffer(x: Knot, i: nat, j: nat)
    requires (x.t, x.k1) != (x.u, x.k2) && TableAt(x.child, x.rels, |x.rels|) == x.u
    requires i < j < |x.rels| + 2
    ensures Below(x)[i].ref != Below(x)[j].ref && Root(x).ref != Below(x)[i].ref && Root(x).ref != Below(x)[j].ref
  {
  }

  /** Only the two children refer to the record, and only by the one relation. */
  lemma WhoRefers(x: Knot, rel: Relation, i: nat)
    requires i < |x.rels| + 2
    ensures Refers(Below(x)[i], rel, 1) <==> rel == Relation(x.child, x.k1) && (i == 0 || i == |x.rels| + 1)
  {
  }

  lemma ListBelow(x: Knot, rel: Relation)
    ensures List(Below(x), rel, 1) ==
            if rel == Relation(x.child, x.k1) then [Link(x, 0).ref, Second(x).ref] else []
  {
    forall i: nat | i < |x.rels| + 2
      ensures Refers(Below(x)[i], rel, 1) <==> rel == Relation(x.child, x.k1) && (i == 0 || i == |x.rels| + 1)
    {
      WhoRefers(x, rel, i);
    }
    hide Refers;
    if rel == Relation(x.child, x.k1) {
      ListEnds(Below(x), rel, 1);
    } else {
      ListNone(Below(x), rel, 1);
    }
  }

  // -------------------------------------------------------------- the cascade

  function Prior(p: Ref, path: seq<Entry>, i: nat): Ref
    requires i <= |path|
  {
    if i == 0 then p else path[i - 1].ref
  }

  lemma {:induction false} PathIs(schema: Schema, db: seq<Entry>, p: Ref, path: seq<Entry>)
    requires forall i :: 0 <= i < |path| ==> path[i] in db && ChildOf(schema, path[i], Prior(p, path, i))
    ensures Path(schema, db, p, path)
    decreases |path|
  {
    hide ChildOf;
    if path != [] {
      assert path[0] in db && ChildOf(schema, path[0], Prior(p, path, 0));
      forall i | 0 <= i < |path| - 1
        ensures path[1..][i] in db && ChildOf(schema, path[1..][i], Prior(path[0].ref, path[1..], i))
      {
        assert path[1..][i] == path[i + 1] && Prior(path[0].ref, path[1..], i) == Prior(p, path, i + 1);
      }
      PathIs(schema, db, path[0].ref, path[1..]);
    }
  }

  /** The cascade from the first child takes the second one. */
  lemma SecondGoes(schema: Schema, x: Knot)
    requires Tied(schema, x)
    ensures Second(x).ref !in Refs(Destroy(schema, Below(x), Link(x, 0).ref).db)
  {
    var db, p := Below(x), Link(x, 0).ref;
    var path := db[1..];
    forall i | 0 <= i < |path| ensures ChildOf(schema, path[i], Prior(p, path, i)) {
      NextIsChild(schema, x, i);
    }
    hide ChildOf;
    PathIs(schema, db, p, path);
    PathDestroyed(schema, db, p, p, path);
    OnlyRow(schema, x);
  }

  lemma NextIsChild(schema: Schema, x: Knot, i: nat)
    requires Tied(schema, x) && i <= |x.rels|
    ensures ChildOf(schema, Below(x)[i + 1], Link(x, i).ref)
  {
    var rel := if i < |x.rels| then x.rels[i] else Relation(x.child, x.k2);
    assert Refers(Below(x)[i + 1], rel, Id(x, i));
  }

  lemma OnlyRow(schema: Schema, x: Knot)
    requires Tied(schema, x) && Second(x) !in Destroy(schema, Below(x), Link(x, 0).ref).db
    ensures Second(x).ref !in Refs(Destroy(schema, Below(x), Link(x, 0).ref).db)
  {
    var db, o := Below(x), Destroy(schema, Below(x), Link(x, 0).ref);
    DestroyCascades(schema, db, Link(x, 0).ref);
    forall e | e in o.db ensures e.ref != Second(x).ref {
      OtherRow(x, e);
    }
  }

  lemma OtherRow(x: Knot, e: Entry)
    requires (x.t, x.k1) != (x.u, x.k2) && TableAt(x.child, x.rels, |x.rels|) == x.u
    requires e in Below(x) && e != Second(x)
    ensures e.ref != Second(x).ref
  {
    var i :| 0 <= i < |Below(x)| && Below(x)[i] == e;
    RefsDiffer(x, i, |x.rels| + 1);
  }

  // --------------------------------------------------------------- the counts

  lemma {:induction false} DestroyAnnounces(schema: Schema, db: seq<Entry>, ref: Ref)
    ensures var o := Destroy(schema, db, ref);
            |o.notified| >= |o.deleted| + if ref in Refs(db) then 0 else 1
    decreases |db|, if ref in Refs(db) then 0 else 3, 0
  {
    RelatedAnnounce(schema, Delete(db, ref), ref, Relations(schema, ref.table));
  }

  lemma {:induction false} RelatedAnnounce(schema: Schema, db: seq<Entry>, ref: Ref, rels: seq<Relation>)
    ensures var o := DestroyRelated(schema, db, ref, rels); |o.notified| >= |o.deleted|
    decreases |db|, 2, |rels|
  {
    if rels != [] {
      var list := List(db, rels[0], ref.id);
      assert list == [] || list[0] in list;
      AllAnnounce(schema, db, list);
      RelatedAnnounce(schema, DestroyAll(schema, db, list).db, ref, rels[1..]);
    }
  }

  lemma {:induction false} AllAnnounce(schema: Schema, db: seq<Entry>, list: seq<Ref>)
    ensures var o := DestroyAll(schema, db, list); |o.notified| >= |o.deleted|
    decreases |db|, if list == [] || list[0] in Refs(db) then 1 else 4, |list|
  {
    if list != [] {
      DestroyAnnounces(schema, db, list[0]);
      AllAnnounce(schema, Destroy(schema, db, list[0]).db, list[1..]);
    }
  }

  /** Destroying two listed records, the second of which goes with the first, announces one too many. */
  lemma TwoAnnounce(schema: Schema, db: seq<Entry>, a: Ref, b: Ref)
    requires b !in Refs(Destroy(schema, db, a).db)
    ensures var o := DestroyAll(schema, db, [a, b]); |o.notified| > |o.deleted|
  {
    var first := Destroy(schema, db, a);
    assert [a, b][1..] == [b] && [b][1..] == [];
    DestroyAnnounces(schema, db, a);
    DestroyAnnounces(schema, first.db, b);
    AllAnnounce(schema, Destroy(schema, first.db, b).db, []);
  }

  lemma {:induction false} BelowAnnounces(schema: Schema, x: Knot, rels: seq<Relation>)
    requires Tied(schema, x) && Relation(x.child, x.k1) in rels
    ensures var o := DestroyRelated(schema, Below(x), Root(x).ref, rels); |o.notified| > |o.deleted|
    decreases |rels|
  {
    var db, ref := Below(x), Root(x).ref;
    hide Below;
    hide Tied;
    ListBelow(x, rels[0]);
    var list := List(db, rels[0], 1);
    assert list == [] || list[0] in list;
    if rels[0] == Relation(x.child, x.k1) {
      SecondGoes(schema, x);
      TwoAnnounce(schema, db, Link(x, 0).ref, Second(x).ref);
      RelatedAnnounce(schema, DestroyAll(schema, db, list).db, ref, rels[1..]);
    } else {
      BelowAnnounces(schema, x, rels[1..]);
    }
  }

  lemma RootApart(x: Knot)
    requires (x.t, x.k1) != (x.u, x.k2) && TableAt(x.child, x.rels, |x.rels|) == x.u
    ensures Distinct([Root(x)] + Below(x)) && forall i :: 0 <= i < |Below(x)| ==> Below(x)[i].ref != Root(x).ref
  {
    var db := [Root(x)] + Below(x);
    forall i, j | 0 <= i < j < |db| ensures db[i].ref != db[j].ref {
      RowsDiffer(x, i, j);
    }
    forall i | 0 <= i < |Below(x)| ensures Below(x)[i].ref != Root(x).ref {
      RowsDiffer(x, 0, i + 1);
    }
    hide Below;
    DistinctIs(db);
  }

  lemma RowsDiffer(x: Knot, i: nat, j: nat)
    requires (x.t, x.k1) != (x.u, x.k2) && TableAt(x.child, x.rels, |x.rels|) == x.u
    requires i < j < |x.rels| + 3
    ensures ([Root(x)] + Below(x))[i].ref != ([Root(x)] + Below(x))[j].ref
  {
    if i > 0 {
      RefsDiffer(x, i - 1, j - 1);
    } else if j < |x.rels| + 2 {
      RefsDiffer(x, j - 1, |x.rels| + 1);
    } else {
      RefsDiffer(x, 0, j - 1);
    }
  }

  lemma RootFirst(schema: Schema, root: Entry, below: seq<Entry>)
    requires forall i :: 0 <= i < |below| ==> below[i].ref != root.ref
    ensures var o := DestroyRelated(schema, below, root.ref, Relations(schema, root.ref.table));
            && root.ref in Refs([root] + below)
            && Destroy(schema, [root] + below, root.ref) == Outcome(o.db, [root.ref] + o.deleted, [root.ref] + o.notified)
  {
    var db := [root] + below;
    assert db[0] == root && db[1..] == below;
    DeleteNone(below, root.ref);
    AppendNothing(below);
    hide DestroyRelated;
    assert Delete(db, root.ref) == below;
  }

  /** An entangled schema has a table in which destroying one record announces another one twice. */
  lemma KnotAnnouncesTwice(schema: Schema, x: Knot)
    requires Tied(schema, x)
    ensures var db, ref := [Root(x)] + Below(x), Root(x).ref;
            && Distinct(db) && ref in Refs(db)
            && |Destroy(schema, db, ref).notified| > |Destroy(schema, db, ref).deleted|
  {
    RootApart(x);
    RootFirst(schema, Root(x), Below(x));
    BelowAnnounces(schema, x, Relations(schema, x.t));
    hide Below;
    hide Destroy;
    hide DestroyRelated;
    hide Distinct;
  }

  /** Every destroy of a stored record, on every table, announces exactly its deletions, in their order,
      if and only if no child model has two different owner relations one of whose tables the child's
      own cascade reaches. */
  lemma AnnouncedOnceIff(schema: Schema)
    ensures (forall db, ref :: Distinct(db) && ref in Refs(db) ==>
               Destroy(schema, db, ref).notified == Destroy(schema, db, ref).deleted)
        <==> Untangled(schema)
  {
    if Untangled(schema) {
      forall db, ref | Distinct(db) && ref in Refs(db)
        ensures Destroy(schema, db, ref).notified == Destroy(schema, db, ref).deleted
      {
        AnnouncesEachOnce(schema, db, ref);
      }
    } else {
      var t, r, u, s :| Entangled(schema, t, r, u, s);
      var rels :| Steps(schema, r.child, rels, u);
      KnotAnnouncesTwice(schema, Knot(t, r.key, r.child, rels, u, s.key));
    }
  }
}
