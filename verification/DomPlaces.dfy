/** Where the operations put nodes. */
module DomPlaces {
  import opened Basics
  import opened DomLinks
  import opened DomRuns

  // --------------------------------------------------------------------- lists

  /** The list without `x`, in order. */
  function Without<N(==)>(s: seq<N>, x: N): seq<N> {
    if s == [] then [] else (if s[0] == x then [] else [s[0]]) + Without(s[1..], x)
  }

  /** The list without the members of `xs`, in order. */
  function WithoutAll<N(==)>(s: seq<N>, xs: seq<N>): seq<N>
    decreases |xs|
  {
    if xs == [] then s else WithoutAll(Without(s, xs[0]), xs[1..])
  }

  lemma {:induction false} WithoutSplit<N>(a: seq<N>, b: seq<N>, x: N)
    ensures Without(a + b, x) == Without(a, x) + Without(b, x)
  {
    if a == [] {
      assert a + b == b;
    } else {
      assert (a + b)[0] == a[0] && (a + b)[1..] == a[1..] + b;
      WithoutSplit(a[1..], b, x);
    }
  }

  lemma {:induction false} WithoutAbsent<N>(s: seq<N>, x: N)
    ensures x !in Without(s, x) && forall y :: y in Without(s, x) <==> y in s && y != x
    ensures x !in s ==> Without(s, x) == s
  {
    if s != [] {
      WithoutAbsent(s[1..], x);
      assert s == [s[0]] + s[1..];
    }
  }

  lemma {:induction false} WithoutAllSplit<N>(a: seq<N>, b: seq<N>, xs: seq<N>)
    ensures WithoutAll(a + b, xs) == WithoutAll(a, xs) + WithoutAll(b, xs)
    decreases |xs|
  {
    if xs != [] {
      WithoutSplit(a, b, xs[0]);
      WithoutAllSplit(Without(a, xs[0]), Without(b, xs[0]), xs[1..]);
    }
  }

  lemma {:induction false} WithoutAllAbsent<N>(s: seq<N>, xs: seq<N>)
    ensures forall y :: y in WithoutAll(s, xs) <==> y in s && y !in xs
    ensures (forall x :: x in xs ==> x !in s) ==> WithoutAll(s, xs) == s
    decreases |xs|
  {
    if xs != [] {
      WithoutAbsent(s, xs[0]);
      WithoutAllAbsent(Without(s, xs[0]), xs[1..]);
      assert xs == [xs[0]] + xs[1..];
    }
  }

  lemma {:induction false} WithoutMore<N>(s: seq<N>, xs: seq<N>, ys: seq<N>)
    ensures WithoutAll(s, xs + ys) == WithoutAll(WithoutAll(s, xs), ys)
    decreases |xs|
  {
    if xs == [] {
      assert xs + ys == ys;
    } else {
      assert (xs + ys)[0] == xs[0] && (xs + ys)[1..] == xs[1..] + ys;
      WithoutMore(Without(s, xs[0]), xs[1..], ys);
    }
  }

  lemma WithoutOne<N>(a: seq<N>, x: N, b: seq<N>)
    requires x !in a && x !in b
    ensures Without(a + ([x] + b), x) == a + b
  {
    WithoutSplit(a, [x] + b, x);
    WithoutSplit([x], b, x);
    assert Without([x], x) == [];
    WithoutAbsent(a, x);
    WithoutAbsent(b, x);
    hide Without;
    AppendNothing(b);
  }

  lemma RemoveIsWithout<N>(s: seq<N>, k: nat)
    requires Distinct(s) && k < |s|
    ensures RemoveAt(s, k) == Without(s, s[k])
  {
    hide Without;
    OnceIn(s, k);
    hide Distinct;
    WithoutOne(s[..k], s[k], s[k + 1..]);
    SplitAt(s, k);
  }

  lemma SplitAt<N>(s: seq<N>, k: nat)
    requires k < |s|
    ensures s[..k] + ([s[k]] + s[k + 1..]) == s
  {
  }

  lemma OnceIn<N>(s: seq<N>, k: nat)
    requires Distinct(s) && k < |s|
    ensures s[k] !in s[..k] && s[k] !in s[k + 1..]
  {
    var b := s[k + 1..];
    forall j | 0 <= j < |b| ensures b[j] != s[k] {
      assert b[j] == s[k + 1 + j];
    }
  }

  // ---------------------------------------------------------------- one node

  lemma CutParentChildren<N>(l: Links<N>, n: N)
    requires Tree(l.children, l.parent) && n in l.parent
    ensures CutParent(l, n).children.Keys == l.children.Keys
    ensures forall q :: q in l.children ==> CutParent(l, n).children[q] == Without(l.children[q], n)
  {
    forall q | q in l.children ensures CutParent(l, n).children[q] == Without(l.children[q], n) {
      if l.parent[n] == Some(q) {
        RemoveIsWithout(l.children[q], IndexOf(l.children[q], n));
      } else {
        WithoutAbsent(l.children[q], n);
      }
    }
  }

  /** A detached node is gone from the list it was in. */
  lemma DetachChildren<N>(l: Links<N>, n: N)
    requires Inv(l) && n in l.parent
    ensures Detach(l, n).children.Keys == l.children.Keys
    ensures forall q :: q in l.children ==> Detach(l, n).children[q] == Without(l.children[q], n)
  {
    CutPrevInv(l, n);
    CutNextInv(CutPrev(l, n), n);
    CutParentChildren(CutNext(CutPrev(l, n), n), n);
  }

  lemma PutChildren<N>(l: Links<N>, p: N, n: N, i: nat)
    requires p in l.children && n in l.parent
    ensures Put(l, p, n, i).children == l.children[p := InsertAt(l.children[p], i, n)]
  {
  }

  lemma MoveChildren<N>(l: Links<N>, p: N, n: N, i: nat)
    requires Inv(l) && p in l.children && n in l.children
    ensures Move(l, p, n, i).children[p] == InsertAt(Without(l.children[p], n), i, n)
    ensures Others(l, Move(l, p, n, i), p, [n])
  {
    hide *;
    MoveIs(l, p, n, i);
    DetachChildren(l, n);
    PutChildren(Detach(l, n), p, n, i);
    PutParent(Detach(l, n), p, n, i);
    LinkKeepsChildren(Put(Detach(l, n), p, n, i), n);
    OthersOne(l, Move(l, p, n, i), p, n);
  }

  lemma OthersOne<N>(l: Links<N>, m: Links<N>, p: N, n: N)
    requires l.children.Keys == m.children.Keys
    requires forall q :: q in l.children && q != p ==> m.children[q] == Without(l.children[q], n)
    ensures Others(l, m, p, [n])
  {
    assert [n][1..] == [];
  }

  /** Every list but that of `p` has only lost the nodes `moved`. */
  ghost predicate Others<N>(l: Links<N>, m: Links<N>, p: N, moved: seq<N>) {
    l.children.Keys == m.children.Keys
    && forall q :: q in l.children && q != p ==> m.children[q] == WithoutAll(l.children[q], moved)
  }

  /** `appendChild` puts the node behind all others. */
  lemma AppendWhere<N>(l: Links<N>, p: N, n: N)
    requires Inv(l) && p in l.children && n in l.children
    ensures var r := Append(l, p, n);
            && r.children[p] == Without(l.children[p], n) + [n]
            && Others(l, r, p, [n]) && r.parent == l.parent[n := Some(p)]
  {
    hide *;
    AppendIs(l, p, n);
    var s := l.children[p];
    MoveChildren(l, p, n, |s|);
    MoveParent(l, p, n, |s|);
    ListsDistinct(l, p);
    WithoutShorter(s, n);
    InsertedLast(Without(s, n), |s|, n);
  }

  lemma AppendIs<N>(l: Links<N>, p: N, n: N)
    requires Inv(l) && p in l.children && n in l.children
    ensures Append(l, p, n) == Move(l, p, n, |l.children[p]|)
  {
    hide Inv;
    hide Move;
  }

  lemma ListsDistinct<N>(l: Links<N>, p: N)
    requires Inv(l) && p in l.children
    ensures Distinct(l.children[p])
  {
  }

  lemma {:induction false} WithoutShorter<N>(s: seq<N>, x: N)
    requires Distinct(s)
    ensures |Without(s, x)| == |s| - if x in s then 1 else 0
    ensures Distinct(Without(s, x))
  {
    if x in s {
      RemoveIsWithout(s, IndexOf(s, x));
      RemovedList(s, IndexOf(s, x));
    } else {
      WithoutAbsent(s, x);
    }
  }

  lemma InsertedLast<N>(s: seq<N>, i: nat, n: N)
    requires i >= |s|
    ensures InsertAt(s, i, n) == s + [n]
  {
  }

  lemma InsertedBetween<N>(a: seq<N>, b: seq<N>, n: N)
    ensures InsertAt(a + b, |a|, n) == a + [n] + b
  {
    assert (a + b)[..|a|] == a && (a + b)[|a|..] == b;
  }

  /** What comes right behind `n` in a list without repetitions. */
  lemma NextInList<N>(a: seq<N>, n: N, b: seq<N>, z: N)
    requires Distinct(a + [n] + b)
    ensures NextTo(a + [n] + b, n, z) <==> b != [] && b[0] == z
  {
    var r := a + [n] + b;
    assert r[|a|] == n;
    if NextTo(r, n, z) {
      var k: nat :| At(r, k, n, z);
      assert k == |a|;
    }
    if b != [] && b[0] == z {
      assert At(r, |a|, n, z);
    }
  }

  /** The list `s` after the splice of `n` at the index `i` that it had before `n` was taken out of it. */
  function Spliced<N(==)>(s: seq<N>, i: nat, n: N): seq<N>
    requires i < |s|
  {
    if n in s[..i] then Without(s[..i], n) + [s[i], n] + s[i + 1..] else s[..i] + [n] + Without(s[i..], n)
  }

  lemma SpliceLate<N>(a: seq<N>, ref: N, c: seq<N>, n: N)
    requires Distinct(a) && n in a && n !in [ref] + c
    ensures InsertAt(Without(a + ([ref] + c), n), |a|, n) == Without(a, n) + [ref, n] + c
  {
    var w := Without(a, n);
    WithoutSplit(a, [ref] + c, n);
    WithoutShorter(a, n);
    WithoutAbsent([ref] + c, n);
    hide Without;
    AppendAssociates(w, [ref], c);
    InsertedBetween(w + [ref], c, n);
    hide InsertAt;
    assert w + [ref] + [n] == w + [ref, n];
  }

  lemma SpliceEarly<N>(a: seq<N>, b: seq<N>, n: N)
    requires n !in a
    ensures InsertAt(Without(a + b, n), |a|, n) == a + [n] + Without(b, n)
  {
    WithoutSplit(a, b, n);
    WithoutAbsent(a, n);
    InsertedBetween(a, Without(b, n), n);
  }

  lemma BehindIt<N>(s: seq<N>, i: nat, n: N)
    requires Distinct(s) && i < |s| && n in s[..i]
    ensures n !in [s[i]] + s[i + 1..] && Distinct(s[..i])
  {
    var c := [s[i]] + s[i + 1..];
    forall j | 0 <= j < |c| ensures c[j] != n {
      assert c[j] == s[i + j];
    }
  }

  lemma SpliceWhere<N>(s: seq<N>, i: nat, n: N)
    requires Distinct(s) && i < |s|
    ensures InsertAt(Without(s, n), i, n) == Spliced(s, i, n)
  {
    hide InsertAt;
    hide Without;
    if n in s[..i] {
      BehindIt(s, i, n);
      hide Distinct;
      SpliceLate(s[..i], s[i], s[i + 1..], n);
      SplitAt(s, i);
    } else {
      hide Distinct;
      SpliceEarly(s[..i], s[i..], n);
      SplitIn(s, i);
    }
  }

  lemma SplitIn<N>(s: seq<N>, i: nat)
    requires i <= |s|
    ensures s[..i] + s[i..] == s
  {
  }

  lemma SplicedNew<N>(s: seq<N>, i: nat, n: N)
    requires i < |s|
    ensures n !in s ==> Spliced(s, i, n) == s[..i] + [n] + s[i..]
  {
    WithoutAbsent(s[i..], n);
  }

  lemma SpliceNext<N>(s: seq<N>, i: nat, n: N)
    requires Distinct(s) && i < |s|
    ensures NextTo(Spliced(s, i, n), n, s[i]) <==> n != s[i] && n !in s[..i]
  {
    SpliceWhere(s, i, n);
    WithoutShorter(s, n);
    WithoutAbsent(s, n);
    InsertedList(Without(s, n), i, n);
    hide InsertAt;
    hide NextTo;
    if n in s[..i] {
      var a := Without(s[..i], n) + [s[i]];
      assert Spliced(s, i, n) == a + [n] + s[i + 1..];
      NextInList(a, n, s[i + 1..], s[i]);
      assert s[i] !in s[i + 1..];
    } else {
      assert s[i..][0] == s[i];
      WithoutAbsent(s[i..], n);
      NextInList(s[..i], n, Without(s[i..], n), s[i]);
    }
  }

  /** `insertBefore` puts the node right before the reference, if and only if it is not the reference and did
      not stand before it in the same list: the index is taken first, so in that case the node goes right
      behind it. */
  lemma InsertWhere<N>(l: Links<N>, p: N, n: N, i: nat)
    requires Inv(l) && p in l.children && n in l.children && i < |l.children[p]| && l.children[p][i] in l.children
    ensures var s := l.children[p];
            var r := InsertBefore(l, p, n, s[i]).value;
            && r.children[p] == Spliced(s, i, n)
            && (n !in s ==> r.children[p] == s[..i] + [n] + s[i..])
            && (NextTo(r.children[p], n, s[i]) <==> n != s[i] && n !in s[..i])
            && Others(l, r, p, [n]) && r.parent == l.parent[n := Some(p)]
  {
    hide *;
    var s := l.children[p];
    ListsDistinct(l, p);
    IndexIs(s, i, s[i]);
    MoveChildren(l, p, n, i);
    InsertParent(l, p, n, s[i]);
    InsertIs(l, p, n, s[i]);
    SpliceWhere(s, i, n);
    SpliceNext(s, i, n);
    SplicedNew(s, i, n);
    OthersSame(l, Move(l, p, n, i), InsertBefore(l, p, n, s[i]).value, p, [n]);
  }

  lemma InsertIs<N>(l: Links<N>, p: N, n: N, ref: N)
    requires Inv(l) && p in l.children && n in l.children && ref in l.children && ref in l.children[p]
    ensures InsertBefore(l, p, n, ref).value.children == Move(l, p, n, IndexOf(l.children[p], ref)).children
  {
    MoveKeeps(l, p, n, IndexOf(l.children[p], ref), ref);
    hide Inv;
    hide Move;
    hide Relink;
    hide RelinkBefore;
  }

  lemma OthersSame<N>(l: Links<N>, m: Links<N>, r: Links<N>, p: N, moved: seq<N>)
    requires Others(l, m, p, moved) && m.children == r.children
    ensures Others(l, r, p, moved)
  {
  }

  /** `replaceChild` puts the node where the old child was, or, if it stood before that in the same list and
      something comes behind, one place further. */
  lemma ReplaceWhere<N>(l: Links<N>, p: N, n: N, i: nat)
    requires Inv(l) && p in l.children && n in l.children && i < |l.children[p]| && l.children[p][i] in l.children
    ensures var s := l.children[p];
            var r := Replace(l, p, n, s[i]).value;
            && r.children[p] == (if n in s[..i] && i + 1 < |s| then Without(s[..i], n) + [s[i + 1], n] + s[i + 2..]
                                 else Without(s[..i], n) + [n] + Without(s[i + 1..], n))
            && (n !in s ==> r.children[p] == s[..i] + [n] + s[i + 1..])
            && Others(l, r, p, [s[i], n]) && r.parent == l.parent[s[i] := None][n := Some(p)]
  {
    hide *;
    var s := l.children[p];
    var out := s[i];
    ReplaceIs(l, p, n, i);
    DetachChildren(l, out);
    DetachParent(l, out);
    var d := Detached(l, out);
    MoveChildren(d, p, n, i);
    MoveParent(d, p, n, i);
    ListsDistinct(l, p);
    RemoveIsWithout(s, i);
    ReplaceSplit(s, i, n);
    WithoutAbsent(s[..i], n);
    WithoutAbsent(s[i + 1..], n);
    OthersThen(l, d, Move(d, p, n, i), p, out, n);
  }

  lemma ReplaceIs<N>(l: Links<N>, p: N, n: N, i: nat)
    requires Inv(l) && p in l.children && n in l.children && i < |l.children[p]| && l.children[p][i] in l.children
    ensures var out := l.children[p][i];
            && out in l.parent && Detached(l, out) == Detach(l, out)
            && Replace(l, p, n, out) == Some(Move(Detached(l, out), p, n, i))
  {
    var s := l.children[p];
    ListsDistinct(l, p);
    IndexIs(s, i, s[i]);
    assert s[i] in l.parent;
    hide Inv;
    hide Move;
    hide Detach;
  }

  lemma OthersThen<N>(l: Links<N>, d: Links<N>, m: Links<N>, p: N, a: N, b: N)
    requires l.children.Keys == d.children.Keys && p in l.children
    requires forall q :: q in l.children ==> d.children[q] == Without(l.children[q], a)
    requires Others(d, m, p, [b])
    ensures Others(l, m, p, [a, b])
  {
    assert [a, b][1..] == [b] && [b][1..] == [];
  }

  lemma ReplaceSplit<N>(s: seq<N>, i: nat, n: N)
    requires Distinct(s) && i < |s|
    ensures InsertAt(Without(RemoveAt(s, i), n), i, n) ==
            if n in s[..i] && i + 1 < |s| then Without(s[..i], n) + [s[i + 1], n] + s[i + 2..]
            else Without(s[..i], n) + [n] + Without(s[i + 1..], n)
  {
    var a, b := s[..i], s[i + 1..];
    assert RemoveAt(s, i) == a + b;
    assert n in a ==> n !in b;
    WithoutShorter(a, n);
    hide Distinct;
    hide RemoveAt;
    hide InsertAt;
    if n in a && b != [] {
      assert b == [s[i + 1]] + s[i + 2..];
      SpliceLate(a, s[i + 1], s[i + 2..], n);
    } else if n in a {
      AppendNothing(a);
      InsertedLast(Without(a, n), i, n);
    } else {
      WithoutAbsent(a, n);
      SpliceEarly(a, b, n);
    }
  }

  /** `removeChild` takes the node out of its list and changes no other. */
  lemma RemoveWhere<N>(l: Links<N>, p: N, n: N)
    requires Inv(l) && p in l.children && n in l.children && l.parent[n] == Some(p)
    ensures var r := Remove(l, p, n).value;
            && r.children[p] == Without(l.children[p], n)
            && Others(l, r, p, []) && r.parent == l.parent[n := None]
  {
    DetachChildren(l, n);
    DetachParent(l, n);
    forall q | q in l.children && q != p ensures Without(l.children[q], n) == l.children[q] {
      WithoutAbsent(l.children[q], n);
    }
  }

  // ---------------------------------------------------- fragments, appended

  lemma {:induction false} AppendEachWhere<N>(l: Links<N>, p: N, nodes: seq<N>)
    requires Inv(l) && p in l.children && Distinct(nodes) && forall n :: n in nodes ==> n in l.children.Keys
    ensures var r := AppendEach(l, p, nodes);
            && r.children[p] == WithoutAll(l.children[p], nodes) + nodes
            && Others(l, r, p, nodes)
    decreases |nodes|
  {
    hide Inv;
    hide Append;
    hide Without;
    if nodes == [] {
      AppendNothing(l.children[p]);
    } else {
      var n, rest := nodes[0], nodes[1..];
      var m := Append(l, p, n);
      AppendWhere(l, p, n);
      AppendEachWhere(m, p, rest);
      WithoutAllSplit(Without(l.children[p], n), [n], rest);
      WithoutAllAbsent([n], rest);
      AppendAssociates(WithoutAll(Without(l.children[p], n), rest), [n], rest);
      assert nodes == [n] + rest;
      OthersMore(l, m, AppendEach(m, p, rest), p, [n], rest);
    }
  }

  lemma OthersMore<N>(l: Links<N>, m: Links<N>, r: Links<N>, p: N, xs: seq<N>, ys: seq<N>)
    requires Others(l, m, p, xs) && Others(m, r, p, ys)
    ensures Others(l, r, p, xs + ys)
  {
    forall q | q in l.children && q != p ensures r.children[q] == WithoutAll(l.children[q], xs + ys) {
      WithoutMore(l.children[q], xs, ys);
    }
  }

  /** Children of one node are in no other list. */
  lemma ListsApart<N>(l: Links<N>, f: N, q: N)
    requires Inv(l) && f in l.children && q in l.children && f != q
    ensures forall x :: x in l.children[f] ==> x !in l.children[q]
  {
    ChildrenNamed(l, f);
    ChildrenNamed(l, q);
  }

  /** The children of `f` are in no list but that of `f`. */
  lemma BlockGone<N>(l: Links<N>, f: N, q: N)
    requires Inv(l) && f in l.children && q in l.children
    ensures WithoutAll(l.children[q], l.children[f]) == if q == f then [] else l.children[q]
  {
    if q != f {
      WithoutAllAbsent(l.children[q], l.children[f]);
      ListsApart(l, f, q);
    } else {
      WithoutSelf(l.children[f]);
    }
  }

  lemma WithoutSelf<N>(s: seq<N>)
    ensures WithoutAll(s, s) == []
  {
    var w := WithoutAll(s, s);
    if w != [] {
      WithoutAllMember(s, s, w[0]);
    }
  }

  lemma WithoutAllMember<N>(s: seq<N>, xs: seq<N>, y: N)
    ensures y in WithoutAll(s, xs) <==> y in s && y !in xs
  {
    WithoutAllAbsent(s, xs);
  }

  /** `appendChild` of a fragment puts its children behind all others, as one block in their order. */
  lemma FragmentAppendWhere<N>(l: Links<N>, p: N, f: N)
    requires Inv(l) && p in l.children && f in l.children
    requires forall n :: n in l.children[f] ==> n in l.children.Keys
    ensures var r := AppendEach(l, p, l.children[f]);
            r.children[p] == (if f == p then [] else l.children[p]) + l.children[f] && EmptiesOnly(l, r, p, f)
  {
    ListsDistinct(l, f);
    AppendEachWhere(l, p, l.children[f]);
    hide Inv;
    hide AppendEach;
    hide WithoutAll;
    forall q | q in l.children ensures WithoutAll(l.children[q], l.children[f]) == if q == f then [] else l.children[q] {
      BlockGone(l, f, q);
    }
  }

  // ---------------------------------------------------- fragments, inserted

  /** What a node stands for when it is inserted: itself, or, in place of a fragment, what its children stand
      for. None when one of the fragments `open` would be opened. */
  ghost function Leaves<N>(l: Links<N>, fr: set<N>, n: N, open: set<N>): Option<seq<N>>
    requires Inv(l) && n in l.children
    decreases |fr - open|, 1, 0
  {
    hide Inv;
    if n !in fr then Some([n])
    else if n in open then None
    else
      ChildrenExist(l, n);
      OneLess(fr, open, n);
      LeavesAll(l, fr, l.children[n], open + {n})
  }

  ghost function LeavesAll<N>(l: Links<N>, fr: set<N>, nodes: seq<N>, open: set<N>): Option<seq<N>>
    requires Inv(l) && forall n :: n in nodes ==> n in l.children.Keys
    decreases |fr - open|, 2, |nodes|
  {
    hide Inv;
    if nodes == [] then Some([])
    else
      var a, b := Leaves(l, fr, nodes[0], open), LeavesAll(l, fr, nodes[1..], open);
      if a == None || b == None then None else Some(a.value + b.value)
  }

  /** A fragment without fragments in it stands for its children. */
  lemma {:induction false} PlainLeaves<N>(l: Links<N>, fr: set<N>, nodes: seq<N>, open: set<N>)
    requires Inv(l) && forall n :: n in nodes ==> n in l.children.Keys && n !in fr
    ensures LeavesAll(l, fr, nodes, open) == Some(nodes)
    decreases |nodes|
  {
    hide Inv;
    if nodes != [] {
      PlainLeaves(l, fr, nodes[1..], open);
      assert [nodes[0]] + nodes[1..] == nodes;
    }
  }

  /** A way down from `n` to `x` through fragments that are not open. */
  ghost predicate Down<N>(parent: map<N, Option<N>>, fr: set<N>, open: set<N>, n: N, x: N, path: seq<N>) {
    && path != [] && path[0] == n && path[|path| - 1] == x
    && (forall i :: 0 <= i < |path| ==> path[i] in parent)
    && (forall i :: 0 <= i < |path| - 1 ==> path[i] in fr && path[i] !in open)
    && forall i :: 0 < i < |path| ==> parent[path[i]] == Some(path[i - 1])
  }

  lemma {:induction false} LeafDown<N>(l: Links<N>, fr: set<N>, n: N, open: set<N>, x: N) returns (path: seq<N>)
    requires Inv(l) && n in l.children && Leaves(l, fr, n, open).Some? && x in Leaves(l, fr, n, open).value
    ensures Down(l.parent, fr, open, n, x, path) && x !in fr && x in l.children
    decreases |fr - open|, 1, 0
  {
    assert n in l.parent;
    if n !in fr {
      path := [n];
    } else {
      ChildrenExist(l, n);
      ChildrenNamed(l, n);
      OneLess(fr, open, n);
      hide Inv;
      hide Down;
      var y, below := LeafDownAll(l, fr, l.children[n], open + {n}, x);
      DownLonger(l.parent, fr, open, n, y, x, below);
      path := [n] + below;
    }
  }

  lemma DownLonger<N>(parent: map<N, Option<N>>, fr: set<N>, open: set<N>, n: N, y: N, x: N, below: seq<N>)
    requires Down(parent, fr, open + {n}, y, x, below) && n in fr && n !in open && n in parent && parent[y] == Some(n)
    ensures Down(parent, fr, open, n, x, [n] + below)
  {
    var path := [n] + below;
    assert forall i :: 0 < i < |path| ==> path[i] == below[i - 1];
  }

  lemma {:induction false} LeafDownAll<N>(l: Links<N>, fr: set<N>, nodes: seq<N>, open: set<N>, x: N) returns (y: N, path: seq<N>)
    requires Inv(l) && forall n :: n in nodes ==> n in l.children.Keys
    requires LeavesAll(l, fr, nodes, open).Some? && x in LeavesAll(l, fr, nodes, open).value
    ensures y in nodes && Down(l.parent, fr, open, y, x, path) && x !in fr && x in l.children
    decreases |fr - open|, 2, |nodes|
  {
    hide Inv;
    hide Down;
    if x in Leaves(l, fr, nodes[0], open).value {
      y := nodes[0];
      path := LeafDown(l, fr, y, open, x);
    } else {
      y, path := LeafDownAll(l, fr, nodes[1..], open, x);
    }
  }

  /** Two ways to the same node run together from the top of the shorter one on. */
  lemma {:induction false} WaysMeet<N>(parent: map<N, Option<N>>, fr: set<N>, open: set<N>, a: N, b: N, x: N, p: seq<N>, q: seq<N>, k: nat)
    requires Down(parent, fr, open, a, x, p) && Down(parent, fr, open, b, x, q) && k < |p| <= |q|
    ensures p[|p| - 1 - k] == q[|q| - 1 - k]
    decreases k
  {
    if k > 0 {
      WaysMeet(parent, fr, open, a, b, x, p, q, k - 1);
    }
  }

  lemma OneWayFrom<N>(parent: map<N, Option<N>>, fr: set<N>, open: set<N>, g: N, a: N, b: N, x: N, p: seq<N>, q: seq<N>)
    requires Down(parent, fr, open, a, x, p) && Down(parent, fr, open, b, x, q) && g in open && |p| <= |q|
    requires parent[a] == Some(g) && parent[b] == Some(g)
    ensures a == b
  {
    if |p| < |q| {
      DownStep(parent, fr, open, b, x, q, |q| - |p|);
    }
    WaysMeet(parent, fr, open, a, b, x, p, q, |p| - 1);
  }

  lemma DownStep<N>(parent: map<N, Option<N>>, fr: set<N>, open: set<N>, n: N, x: N, path: seq<N>, k: nat)
    requires Down(parent, fr, open, n, x, path) && 0 < k < |path|
    ensures path[k] in parent && parent[path[k]].Some? && parent[path[k]].value !in open
  {
    var above := path[k - 1];
    assert above in fr && above !in open;
  }

  lemma OneWay<N>(parent: map<N, Option<N>>, fr: set<N>, open: set<N>, g: N, a: N, b: N, x: N, p: seq<N>, q: seq<N>)
    requires Down(parent, fr, open, a, x, p) && Down(parent, fr, open, b, x, q) && g in open
    requires parent[a] == Some(g) && parent[b] == Some(g)
    ensures a == b
  {
    if |p| <= |q| {
      OneWayFrom(parent, fr, open, g, a, b, x, p, q);
    } else {
      OneWayFrom(parent, fr, open, g, b, a, x, q, p);
    }
  }

  lemma {:induction false} LeavesDistinct<N>(l: Links<N>, fr: set<N>, n: N, open: set<N>)
    requires Inv(l) && n in l.children && Leaves(l, fr, n, open).Some?
    ensures Distinct(Leaves(l, fr, n, open).value)
    decreases |fr - open|, 1, 0
  {
    if n in fr {
      ListsDistinct(l, n);
      ChildrenExist(l, n);
      ChildrenNamed(l, n);
      OneLess(fr, open, n);
      hide Inv;
      AllLeavesDistinct(l, fr, l.children[n], open + {n}, n);
    }
  }

  lemma {:induction false} AllLeavesDistinct<N>(l: Links<N>, fr: set<N>, nodes: seq<N>, open: set<N>, g: N)
    requires Inv(l) && g in open && Distinct(nodes)
    requires forall n :: n in nodes ==> n in l.children.Keys && n in l.parent && l.parent[n] == Some(g)
    requires LeavesAll(l, fr, nodes, open).Some?
    ensures Distinct(LeavesAll(l, fr, nodes, open).value)
    decreases |fr - open|, 2, |nodes|
  {
    hide Inv;
    if nodes != [] {
      LeavesDistinct(l, fr, nodes[0], open);
      AllLeavesDistinct(l, fr, nodes[1..], open, g);
      var a, b := Leaves(l, fr, nodes[0], open).value, LeavesAll(l, fr, nodes[1..], open).value;
      forall x | x in a && x in b ensures false {
        var p := LeafDown(l, fr, nodes[0], open, x);
        var y, q := LeafDownAll(l, fr, nodes[1..], open, x);
        OneWay(l.parent, fr, open, g, nodes[0], y, x, p, q);
      }
      DistinctApart(a, b);
    }
  }

  lemma DistinctApart<N>(a: seq<N>, b: seq<N>)
    requires Distinct(a) && Distinct(b) && forall x :: x in a ==> x !in b
    ensures Distinct(a + b)
  {
    var s := a + b;
    forall i, j | 0 <= i < j < |s| ensures s[i] != s[j] {
      if i < |a| <= j {
        assert a[i] in a && b[j - |a|] in b;
      }
    }
  }

  /** No leaf of a fragment stands in the list of an open node. */
  lemma LeavesElsewhere<N>(l: Links<N>, fr: set<N>, n: N, open: set<N>, p: N)
    requires Inv(l) && n in l.children && n in fr && p in open && p in l.children && Leaves(l, fr, n, open).Some?
    ensures forall x :: x in Leaves(l, fr, n, open).value ==> x !in l.children[p]
  {
    forall x | x in Leaves(l, fr, n, open).value ensures x !in l.children[p] {
      var path := LeafDown(l, fr, n, open, x);
      assert l.parent[path[|path| - 1]] == Some(path[|path| - 2]);
    }
  }

  lemma {:induction false} LeafIn<N>(l: Links<N>, fr: set<N>, nodes: seq<N>, open: set<N>, x: N)
    requires Inv(l) && forall n :: n in nodes ==> n in l.children.Keys
    requires LeavesAll(l, fr, nodes, open).Some? && x in nodes && x !in fr
    ensures x in LeavesAll(l, fr, nodes, open).value
    decreases |nodes|
  {
    hide Inv;
    if x != nodes[0] {
      LeafIn(l, fr, nodes[1..], open, x);
    }
  }

  /** Moving other nodes does not change what a node stands for. */
  lemma {:induction false} LeavesStay<N>(l: Links<N>, m: Links<N>, fr: set<N>, p: N, n: N, open: set<N>, moved: seq<N>)
    requires Inv(l) && Inv(m) && Others(l, m, p, moved) && n in l.children && p in open
    requires Leaves(l, fr, n, open).Some?
    requires forall x :: x in moved ==> x !in fr && x !in Leaves(l, fr, n, open).value
    ensures Leaves(m, fr, n, open) == Leaves(l, fr, n, open)
    decreases |fr - open|, 1, 0
  {
    hide Inv;
    if n in fr {
      ChildrenExist(l, n);
      OneLess(fr, open, n);
      forall x | x in moved ensures x !in l.children[n] {
        if x in l.children[n] {
          LeafIn(l, fr, l.children[n], open + {n}, x);
        }
      }
      WithoutAllAbsent(l.children[n], moved);
      AllLeavesStay(l, m, fr, p, l.children[n], open + {n}, moved);
    }
  }

  lemma {:induction false} AllLeavesStay<N>(l: Links<N>, m: Links<N>, fr: set<N>, p: N, nodes: seq<N>, open: set<N>, moved: seq<N>)
    requires Inv(l) && Inv(m) && Others(l, m, p, moved) && p in open && forall n :: n in nodes ==> n in l.children.Keys
    requires LeavesAll(l, fr, nodes, open).Some?
    requires forall x :: x in moved ==> x !in fr && x !in LeavesAll(l, fr, nodes, open).value
    ensures LeavesAll(m, fr, nodes, open) == LeavesAll(l, fr, nodes, open)
    decreases |fr - open|, 2, |nodes|
  {
    hide Inv;
    hide Others;
    if nodes != [] {
      LeavesStay(l, m, fr, p, nodes[0], open, moved);
      AllLeavesStay(l, m, fr, p, nodes[1..], open, moved);
    }
  }

  /** `r` is what inserting `block` as a whole at `i` makes of `l`. */
  ghost predicate BlockAt<N>(l: Links<N>, r: Option<Links<N>>, p: N, i: nat, block: seq<N>) {
    && p in l.children && i <= |l.children[p]| && r.Some? && p in r.value.children
    && r.value.children[p] == l.children[p][..i] + block + l.children[p][i..]
    && Others(l, r.value, p, block)
  }

  lemma {:induction false} InsertBlock<N>(l: Links<N>, fr: set<N>, p: N, n: N, i: nat, open: set<N>)
    requires Inv(l) && p in l.children && n in l.children && i < |l.children[p]| && l.children[p][i] in l.children
    requires Leaves(l, fr, n, open + {p}).Some? && Distinct(Leaves(l, fr, n, open + {p}).value)
    requires forall x :: x in Leaves(l, fr, n, open + {p}).value ==> x !in l.children[p]
    ensures BlockAt(l, Insert(l, fr, p, n, l.children[p][i], open), p, i, Leaves(l, fr, n, open + {p}).value)
    decreases |fr - open|, 1, 0
  {
    hide Inv;
    if n !in fr {
      InsertWhere(l, p, n, i);
    } else {
      ChildrenExist(l, n);
      OneLess(fr, open, n);
      assert open + {p} + {n} == open + {n} + {p};
      InsertBlocks(l, fr, p, l.children[n], i, open + {n});
    }
  }

  lemma {:induction false} InsertBlocks<N>(l: Links<N>, fr: set<N>, p: N, nodes: seq<N>, i: nat, open: set<N>)
    requires Inv(l) && p in l.children && i < |l.children[p]| && l.children[p][i] in l.children
    requires forall n :: n in nodes ==> n in l.children.Keys
    requires LeavesAll(l, fr, nodes, open + {p}).Some? && Distinct(LeavesAll(l, fr, nodes, open + {p}).value)
    requires forall x :: x in LeavesAll(l, fr, nodes, open + {p}).value ==> x !in l.children[p]
    ensures BlockAt(l, InsertAll(l, fr, p, nodes, l.children[p][i], open), p, i, LeavesAll(l, fr, nodes, open + {p}).value)
    decreases |fr - open|, 2, |nodes|
  {
    hide Inv;
    var s := l.children[p];
    if nodes == [] {
      assert s == s[..i] + [] + s[i..];
    } else {
      var o := open + {p};
      var a, b := Leaves(l, fr, nodes[0], o).value, LeavesAll(l, fr, nodes[1..], o).value;
      PartsDistinct(a, b);
      InsertBlock(l, fr, p, nodes[0], i, open);
      var m := Insert(l, fr, p, nodes[0], s[i], open).value;
      var t := m.children[p];
      forall x | x in a ensures x !in fr {
        var path := LeafDown(l, fr, nodes[0], o, x);
      }
      AllLeavesStay(l, m, fr, p, nodes[1..], o, a);
      forall x | x in b ensures x !in t {
        assert x !in s && x !in a;
      }
      assert t[i + |a|] == s[i] && t[..i + |a|] == s[..i] + a && t[i + |a|..] == s[i..];
      InsertBlocks(m, fr, p, nodes[1..], i + |a|, open);
      OthersMore(l, m, InsertAll(m, fr, p, nodes[1..], s[i], open).value, p, a, b);
      AppendAssociates(s[..i], a, b);
    }
  }

  lemma PartsDistinct<N>(a: seq<N>, b: seq<N>)
    requires Distinct(a + b)
    ensures Distinct(a) && Distinct(b) && forall x :: x in a ==> x !in b
  {
    forall i, j | 0 <= i < |a| && 0 <= j < |b| ensures a[i] != b[j] {
      assert (a + b)[i] == a[i] && (a + b)[|a| + j] == b[j];
    }
    forall i, j | 0 <= i < j < |b| ensures b[i] != b[j] {
      assert (a + b)[|a| + i] == b[i] && (a + b)[|a| + j] == b[j];
    }
    forall i, j | 0 <= i < j < |a| ensures a[i] != a[j] {
      assert (a + b)[i] == a[i] && (a + b)[j] == a[j];
    }
  }

  /** `insertBefore` of a fragment puts what it stands for right before the reference, as one block in order:
      its children, with the children of fragments among them in their place. The node inserted into is
      not among the fragments opened. */
  lemma FragmentInsertWhere<N>(l: Links<N>, fr: set<N>, p: N, f: N, i: nat)
    requires Inv(l) && p in l.children && f in l.children && f in fr
    requires i < |l.children[p]| && l.children[p][i] in l.children && Leaves(l, fr, f, {p}).Some?
    ensures var block := Leaves(l, fr, f, {p}).value;
            BlockAt(l, Insert(l, fr, p, f, l.children[p][i], {}), p, i, block)
    ensures (forall n :: n in l.children[f] ==> n !in fr) ==> Leaves(l, fr, f, {p}).value == l.children[f]
  {
    LeavesDistinct(l, fr, f, {p});
    LeavesElsewhere(l, fr, f, {p}, p);
    ChildrenExist(l, f);
    hide Inv;
    assert {} + {p} == {p};
    InsertBlock(l, fr, p, f, i, {});
    if forall n :: n in l.children[f] ==> n !in fr {
      PlainLeaves(l, fr, l.children[f], {p} + {f});
    }
  }

  // ------------------------------------------------------------ the operations

  /** Where an operation on a node that is not a fragment puts it, `i` being the index of its reference or of the
      node replaced. */
  ghost predicate PlacedAt<N>(l: Links<N>, r: Links<N>, op: Op<N>, i: nat)
    requires op.parent in l.children && op.parent in r.children
  {
    var p, n := op.parent, op.child;
    var s, t := l.children[p], r.children[p];
    match op
    case AppendChild(_, _) => t == Without(s, n) + [n] && Others(l, r, p, [n])
    case InsertChild(_, _, ref) => i < |s| && s[i] == ref && Others(l, r, p, [n]) && t == Spliced(s, i, n)
    case ReplaceChild(_, _, out) =>
      i < |s| && s[i] == out && Others(l, r, p, [out, n])
      && t == if n in s[..i] && i + 1 < |s| then Without(s[..i], n) + [s[i + 1], n] + s[i + 2..]
              else Without(s[..i], n) + [n] + Without(s[i + 1..], n)
    case RemoveChild(_, _) => t == Without(s, n) && Others(l, r, p, [])
  }

  lemma IndexThere<N>(s: seq<N>, x: N) returns (i: nat)
    requires x in s
    ensures i < |s| && s[i] == x
  {
    i :| 0 <= i < |s| && s[i] == x;
  }

  /** Every operation that is possible puts and removes what its name says, where it says. */
  lemma ApplyPlaces<N>(l: Links<N>, fr: set<N>, op: Op<N>) returns (i: nat)
    requires Inv(l) && Known(l.children.Keys, op) && Possible(l, op)
    requires op.AppendChild? || op.InsertChild? ==> op.child !in fr
    ensures Apply(l, fr, op).Changed? && PlacedAt(l, Apply(l, fr, op).links, op, i)
  {
    hide Inv;
    hide Append;
    hide InsertBefore;
    hide Replace;
    hide Remove;
    hide Others;
    hide Spliced;
    i := 0;
    match op
    case AppendChild(p, n) => AppendWhere(l, p, n);
    case InsertChild(p, n, ref) =>
      i := IndexThere(l.children[p], ref);
      InsertWhere(l, p, n, i);
    case ReplaceChild(p, n, out) =>
      i := IndexThere(l.children[p], out);
      ReplaceWhere(l, p, n, i);
    case RemoveChild(p, n) => RemoveWhere(l, p, n);
  }

  /** The children of the fragment stand at `i` as one block; nothing else has changed. */
  ghost predicate BlockPlacedAt<N>(l: Links<N>, e: Effect<N>, op: Op<N>, i: nat)
    requires op.parent in l.children && op.child in l.children
  {
    var p, f := op.parent, op.child;
    var s := l.children[p];
    && e.Changed? && p in e.links.children && i <= |s|
    && (if op.InsertChild? then i < |s| && s[i] == op.reference else i == |s|)
    && e.links.children[p] == s[..i] + l.children[f] + s[i..]
    && EmptiesOnly(l, e.links, p, f)
  }

  /** The list of `f` is empty, and all others but that of `p` are as they were. */
  ghost predicate EmptiesOnly<N>(l: Links<N>, m: Links<N>, p: N, f: N) {
    && m.children.Keys == l.children.Keys
    && forall q :: q in l.children && q != p ==> m.children[q] == if q == f then [] else l.children[q]
  }

  /** The same for fragments: their children are put in as one block. */
  lemma ApplyPlacesBlock<N>(l: Links<N>, fr: set<N>, op: Op<N>) returns (i: nat)
    requires Inv(l) && Known(l.children.Keys, op) && Possible(l, op) && op.child in fr && op.child != op.parent
    requires op.AppendChild? || (op.InsertChild? && forall n :: n in l.children[op.child] ==> n !in fr)
    ensures BlockPlacedAt(l, Apply(l, fr, op), op, i)
  {
    var p, f := op.parent, op.child;
    ChildrenExist(l, f);
    if op.AppendChild? {
      i := |l.children[p]|;
      AppendBlock(l, fr, p, f);
    } else {
      i := IndexThere(l.children[p], op.reference);
      PlainInsertWhere(l, fr, p, f, i);
      hide Inv;
      hide Insert;
      hide EmptiesOnly;
    }
  }

  lemma AppendBlock<N>(l: Links<N>, fr: set<N>, p: N, f: N)
    requires Inv(l) && p in l.children && f in l.children && f in fr && f != p
    ensures BlockPlacedAt(l, Apply(l, fr, Op.AppendChild(p, f)), Op.AppendChild(p, f), |l.children[p]|)
  {
    var s := l.children[p];
    ChildrenExist(l, f);
    FragmentAppendWhere(l, p, f);
    hide Inv;
    hide AppendEach;
    hide EmptiesOnly;
    assert s[..|s|] == s && s[|s|..] == [];
    AppendNothing(s + l.children[f]);
  }

  lemma PlainInsertWhere<N>(l: Links<N>, fr: set<N>, p: N, f: N, i: nat)
    requires Inv(l) && p in l.children && f in l.children && f in fr && f != p
    requires i < |l.children[p]| && l.children[p][i] in l.children && forall n :: n in l.children[f] ==> n !in fr
    ensures var s, e := l.children[p], Insert(l, fr, p, f, l.children[p][i], {});
            e.Some? && e.value.children[p] == s[..i] + l.children[f] + s[i..] && EmptiesOnly(l, e.value, p, f)
  {
    ChildrenExist(l, f);
    hide Inv;
    hide Insert;
    PlainLeaves(l, fr, l.children[f], {p} + {f});
    FragmentInsertWhere(l, fr, p, f, i);
    forall q | q in l.children ensures WithoutAll(l.children[q], l.children[f]) == if q == f then [] else l.children[q] {
      BlockGone(l, f, q);
    }
  }
}
