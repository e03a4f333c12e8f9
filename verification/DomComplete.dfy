/** Which node operations leave a sibling link missing: removing or moving a child from the middle does,
    unless it goes back to its place; putting a detached node in does not. */
module DomComplete {
  import opened Basics
  import opened DomLinks
  import opened DomRuns

  lemma NoParentAlone<N>(l: Links<N>, n: N)
    requires Inv(l) && n in l.parent && l.parent[n] == None
    ensures Alone(l, n)
  {
  }

  /** What moving a detached node to index `i` of `p` changes. */
  ghost predicate Moved<N>(l: Links<N>, p: N, n: N, i: nat, d: Links<N>)
    requires p in l.children
  {
    var r := InsertAt(l.children[p], i, n);
    var k := Min(i, |l.children[p]|);
    && d.children == l.children[p := r] && d.parent == l.parent[n := Some(p)]
    && d.next.Keys == l.next.Keys && r[k] == n
    && forall a :: a in d.next ==>
         d.next[a] == if k + 1 < |r| && a == n then Some(r[k + 1]) else if k > 0 && a == r[k - 1] then Some(n) else l.next[a]
  }

  lemma MoveFields<N>(l: Links<N>, p: N, n: N, i: nat)
    requires Inv(l) && p in l.children && Alone(l, n)
    ensures Moved(l, p, n, i, Move(l, p, n, i))
  {
    var r := InsertAt(l.children[p], i, n);
    var k := Min(i, |l.children[p]|);
    assert Detach(l, n) == l;
    PutTree(l, p, n, i);
    InsertedAt(l.children[p], i, n);
    IndexIs(r, k, n);
    assert k > 0 ==> r[k - 1] in l.children[p];
  }

  /** Two neighbours, neither of them new, were neighbours before. */
  lemma NextToBeforeInsert<N>(s: seq<N>, i: nat, n: N, a: N, b: N)
    requires n !in s && Distinct(s) && NextTo(InsertAt(s, i, n), a, b)
    ensures var k := Min(i, |s|);
            var r := InsertAt(s, i, n);
            || (a == n && k + 1 < |r| && b == r[k + 1])
            || (b == n && k > 0 && a == r[k - 1])
            || (a != n && b != n && (k > 0 ==> a != r[k - 1]) && NextTo(s, a, b))
  {
    InsertedAt(s, i, n);
    InsertedList(s, i, n);
    var r := InsertAt(s, i, n);
    var k := Min(i, |s|);
    var j: nat :| At(r, j, a, b);
    if j != k && j + 1 != k {
      assert At(s, if j < k then j else j - 1, a, b);
    }
  }

  /** No link is missing but perhaps that of the child before index `k` of `p`. */
  ghost predicate CompleteBut<N>(l: Links<N>, p: N, k: nat)
    requires p in l.children && k <= |l.children[p]|
  {
    forall a, b :: a in l.next && b in l.next && Neighbours(l.children, l.parent, a, b) ==>
      l.next[a] == Some(b) || (k > 0 && a == l.children[p][k - 1])
  }

  lemma FilledComplete<N>(l: Links<N>, p: N, n: N, i: nat)
    requires Inv(l) && p in l.children && n in l.children && Alone(l, n) && CompleteBut(l, p, Min(i, |l.children[p]|))
    ensures Complete(Move(l, p, n, i))
  {
    MoveFields(l, p, n, i);
    var d := Move(l, p, n, i);
    hide Move;
    hide Moved;
    hide CompleteBut;
    forall a, b | a in d.next && b in d.next && Neighbours(d.children, d.parent, a, b) ensures d.next[a] == Some(b) {
      NeighboursAfterMove(l, p, n, i, d, a, b);
    }
  }

  lemma NeighboursAfterMove<N>(l: Links<N>, p: N, n: N, i: nat, d: Links<N>, a: N, b: N)
    requires Inv(l) && p in l.children && Alone(l, n) && CompleteBut(l, p, Min(i, |l.children[p]|)) && Moved(l, p, n, i, d)
    requires a in d.next && b in d.next && Neighbours(d.children, d.parent, a, b)
    ensures d.next[a] == Some(b)
  {
    var s := l.children[p];
    InsertedAt(s, i, n);
    if d.parent[a] == Some(p) {
      NextToBeforeInsert(s, i, n, a, b);
      if a != n && b != n {
        assert Neighbours(l.children, l.parent, a, b);
      } else if b == n {
        assert Min(i, |s|) > 0;
        assert InsertAt(s, i, n)[Min(i, |s|) - 1] in s;
      }
    } else {
      assert Neighbours(l.children, l.parent, a, b);
      assert Min(i, |s|) > 0 ==> InsertAt(s, i, n)[Min(i, |s|) - 1] in s;
    }
  }

  /** Putting a detached node anywhere leaves no sibling link missing. */
  lemma MoveComplete<N>(l: Links<N>, p: N, n: N, i: nat)
    requires Inv(l) && Complete(l) && p in l.children && n in l.children && l.parent[n] == None
    ensures Complete(Move(l, p, n, i))
  {
    NoParentAlone(l, n);
    FilledComplete(l, p, n, i);
  }

  /** Runs that only append detached nodes keep all sibling links. */
  ghost predicate OnlyAppends<N>(l: Links<N>, fr: set<N>, ops: seq<Op<N>>)
    requires Inv(l)
    decreases |ops|
  {
    ops == [] ||
    (ops[0].AppendChild? && Known(l.children.Keys, ops[0]) && ops[0].child !in fr && l.parent[ops[0].child] == None
     && OnlyAppends(Append(l, ops[0].parent, ops[0].child), fr, ops[1..]))
  }

  lemma {:induction false} AppendsStayComplete<N>(l: Links<N>, fr: set<N>, ops: seq<Op<N>>)
    requires Inv(l) && Complete(l) && OnlyAppends(l, fr, ops) && forall op :: op in ops ==> Known(l.children.Keys, op)
    ensures Run(l, fr, ops).Some? && Complete(Run(l, fr, ops).value)
    decreases |ops|
  {
    hide Inv;
    hide Complete;
    hide Move;
    if ops != [] {
      MoveComplete(l, ops[0].parent, ops[0].child, |l.children[ops[0].parent]|);
      AppendsStayComplete(Append(l, ops[0].parent, ops[0].child), fr, ops[1..]);
    }
  }

  /** Removing a child keeps all other sibling links exactly when it is the first or the last: the
      neighbours of a middle child are not joined. */
  lemma RemoveCompleteIff<N>(l: Links<N>, p: N, n: N)
    requires Inv(l) && Complete(l) && n in l.parent && l.parent[n] == Some(p)
    ensures var i := IndexOf(l.children[p], n);
            Complete(Remove(l, p, n).value) <==> i == 0 || i == |l.children[p]| - 1
  {
    var s := l.children[p];
    var i := IndexOf(s, n);
    DetachFields(l, n);
    var d := Remove(l, p, n).value;
    assert d == Detach(l, n);
    assert forall c :: c in s ==> c in l.next;
    hide Inv;
    hide Detach;
    hide Remove;
    if 0 < i < |s| - 1 {
      RemoveMiddle(l, d, p, n);
    } else {
      RemoveEnd(l, d, p, n);
    }
  }

  lemma RemoveMiddle<N>(l: Links<N>, d: Links<N>, p: N, n: N)
    requires Complete(l) && p in l.children && n in l.children[p] && 0 < IndexOf(l.children[p], n) < |l.children[p]| - 1
    requires d.children == l.children[p := RemoveAt(l.children[p], IndexOf(l.children[p], n))]
    requires d.parent == l.parent[n := None] && d.next.Keys == l.next.Keys
    requires forall a :: a in d.next ==> d.next[a] == if a == n || l.next[a] == Some(n) then None else l.next[a]
    requires Distinct(l.children[p])
    requires forall c :: c in l.children[p] ==> c in l.next && c in l.parent && l.parent[c] == Some(p)
    ensures !Complete(d)
  {
    var s := l.children[p];
    var i := IndexOf(s, n);
    RemovedAt(s, i);
    var r := RemoveAt(s, i);
    var a, b := s[i - 1], s[i + 1];
    assert a in s && b in s && At(s, i - 1, a, n);
    assert Neighbours(l.children, l.parent, a, n);
    assert At(r, i - 1, a, b);
    assert Neighbours(d.children, d.parent, a, b);
  }

  lemma RemoveEnd<N>(l: Links<N>, d: Links<N>, p: N, n: N)
    requires Complete(l) && p in l.children && n in l.children[p]
    requires var i := IndexOf(l.children[p], n); i == 0 || i == |l.children[p]| - 1
    requires d.children == l.children[p := RemoveAt(l.children[p], IndexOf(l.children[p], n))]
    requires d.parent == l.parent[n := None] && d.next.Keys == l.next.Keys
    requires forall a :: a in d.next ==> d.next[a] == if a == n || l.next[a] == Some(n) then None else l.next[a]
    requires n in l.parent && l.parent[n] == Some(p)
    ensures Complete(d)
  {
    var s := l.children[p];
    var i := IndexOf(s, n);
    forall a, b | a in d.next && b in d.next && Neighbours(d.children, d.parent, a, b) ensures d.next[a] == Some(b) {
      if d.parent[a] == Some(p) {
        NextToBeforeRemove(s, i, a, b);
      }
      assert Neighbours(l.children, l.parent, a, b);
    }
  }

  lemma NextToBeforeRemove<N>(s: seq<N>, i: nat, a: N, b: N)
    requires i < |s| && (i == 0 || i == |s| - 1) && NextTo(RemoveAt(s, i), a, b)
    ensures NextTo(s, a, b)
  {
    RemovedAt(s, i);
    var j: nat :| At(RemoveAt(s, i), j, a, b);
    assert At(s, if j < i then j else j + 1, a, b);
  }

  lemma DetachFields<N>(l: Links<N>, n: N)
    requires Inv(l) && n in l.parent && l.parent[n].Some?
    ensures var d, p := Detach(l, n), l.parent[n].value;
            && d.children == l.children[p := RemoveAt(l.children[p], IndexOf(l.children[p], n))]
            && d.parent == l.parent[n := None]
            && d.next.Keys == l.next.Keys
            && forall a :: a in d.next ==> d.next[a] == if a == n || l.next[a] == Some(n) then None else l.next[a]
  {
    CutPrevInv(l, n);
    var c := CutPrev(l, n);
    assert forall a :: a in c.next ==> c.next[a] == if l.next[a] == Some(n) then None else l.next[a];
    CutNextInv(c, n);
  }

  // ------------------------------------------------------- moving and replacing

  /** Two neighbours that are not linked, the only ones. */
  ghost predicate OnlyGap<N>(l: Links<N>, x: N, y: N) {
    && x in l.next && y in l.next && l.next[x] == None && Neighbours(l.children, l.parent, x, y)
    && forall a, b :: a in l.next && b in l.next && Neighbours(l.children, l.parent, a, b) ==>
         l.next[a] == Some(b) || (a == x && b == y)
  }

  lemma ChildFacts<N>(l: Links<N>, q: N)
    requires Inv(l) && q in l.children
    ensures Distinct(l.children[q])
    ensures forall c :: c in l.children[q] ==> c in l.next && c in l.parent && l.parent[c] == Some(q)
    ensures forall n :: n in l.children ==> n in l.parent && n in l.next
    ensures forall n :: n in l.parent && l.parent[n].Some? ==> l.parent[n].value in l.children
    ensures forall n :: n in l.parent && l.parent[n] == Some(q) ==> n in l.children[q]
  {
  }

  /** Detaching a child in the middle leaves its neighbours unlinked. */
  lemma DetachGap<N>(l: Links<N>, p: N, n: N)
    requires Inv(l) && Complete(l) && n in l.parent && l.parent[n] == Some(p)
    requires p in l.children && 0 < IndexOf(l.children[p], n) < |l.children[p]| - 1
    ensures var s, i := l.children[p], IndexOf(l.children[p], n); OnlyGap(Detach(l, n), s[i - 1], s[i + 1])
  {
    DetachFields(l, n);
    ChildFacts(l, p);
    hide Inv;
    hide Detach;
    GapOf(l, Detach(l, n), p, n);
  }

  lemma GapOf<N>(l: Links<N>, d: Links<N>, p: N, n: N)
    requires Complete(l) && p in l.children && n in l.children[p] && 0 < IndexOf(l.children[p], n) < |l.children[p]| - 1
    requires d.children == l.children[p := RemoveAt(l.children[p], IndexOf(l.children[p], n))]
    requires d.parent == l.parent[n := None] && d.next.Keys == l.next.Keys
    requires forall a :: a in d.next ==> d.next[a] == if a == n || l.next[a] == Some(n) then None else l.next[a]
    requires Distinct(l.children[p])
    requires forall c :: c in l.children[p] ==> c in l.next && c in l.parent && l.parent[c] == Some(p)
    ensures var s, i := l.children[p], IndexOf(l.children[p], n); OnlyGap(d, s[i - 1], s[i + 1])
  {
    var s, i := l.children[p], IndexOf(l.children[p], n);
    RemovedAt(s, i);
    var x, y := s[i - 1], s[i + 1];
    assert x in s && y in s && At(s, i - 1, x, n);
    assert Neighbours(l.children, l.parent, x, n);
    assert At(RemoveAt(s, i), i - 1, x, y);
    forall a, b | a in d.next && b in d.next && Neighbours(d.children, d.parent, a, b) && !(a == x && b == y)
      ensures d.next[a] == Some(b)
    {
      if d.parent[a] == Some(p) {
        NextToAroundRemove(s, i, a, b);
      }
      assert Neighbours(l.children, l.parent, a, b);
    }
  }

  lemma NextToAroundRemove<N>(s: seq<N>, i: nat, a: N, b: N)
    requires 0 < i < |s| - 1 && NextTo(RemoveAt(s, i), a, b) && !(a == s[i - 1] && b == s[i + 1])
    ensures NextTo(s, a, b)
  {
    RemovedAt(s, i);
    var j: nat :| At(RemoveAt(s, i), j, a, b);
    assert At(s, if j < i then j else j + 1, a, b);
  }

  /** A detached node closes the gap if and only if it is put into it. */
  lemma MoveGap<N>(l: Links<N>, p: N, n: N, i: nat, x: N, y: N)
    requires Inv(l) && Alone(l, n) && p in l.children && n in l.children && OnlyGap(l, x, y)
    ensures var s := l.children[p];
            var k := Min(i, |s|);
            Complete(Move(l, p, n, i)) <==> 0 < k < |s| && s[k - 1] == x && s[k] == y
  {
    var s, d := l.children[p], Move(l, p, n, i);
    var k := Min(i, |s|);
    MoveFields(l, p, n, i);
    if 0 < k < |s| && s[k - 1] == x && s[k] == y {
      FilledComplete(l, p, n, i);
    } else {
      GapStays(l, p, n, i, d, x, y);
    }
  }

  lemma GapStays<N>(l: Links<N>, p: N, n: N, i: nat, d: Links<N>, x: N, y: N)
    requires Inv(l) && Alone(l, n) && p in l.children && OnlyGap(l, x, y) && Moved(l, p, n, i, d)
    requires var s := l.children[p]; var k := Min(i, |s|); !(0 < k < |s| && s[k - 1] == x && s[k] == y)
    ensures !Complete(d)
  {
    var s := l.children[p];
    ChildFacts(l, p);
    hide Inv;
    hide Min;
    assert x != n && y != n && l.next[x] == None && x in l.next && y in l.next;
    assert Neighbours(l.children, l.parent, x, y);
    hide OnlyGap;
    hide Neighbours;
    GapNeighbours(l, p, n, i, d, x, y);
    InsertedAt(s, i, n);
    assert d.next[x] == None;
    hide Moved;
  }

  lemma GapNeighbours<N>(l: Links<N>, p: N, n: N, i: nat, d: Links<N>, x: N, y: N)
    requires p in l.children && Distinct(l.children[p]) && forall c :: c in l.children[p] ==> c in l.parent && l.parent[c] == Some(p)
    requires Neighbours(l.children, l.parent, x, y) && x != n && y != n && Moved(l, p, n, i, d)
    requires var s := l.children[p]; var k := Min(i, |s|); !(0 < k < |s| && s[k - 1] == x && s[k] == y)
    ensures Neighbours(d.children, d.parent, x, y)
    ensures Min(i, |l.children[p]|) > 0 ==> l.children[p][Min(i, |l.children[p]|) - 1] != x
  {
    var s := l.children[p];
    hide Min;
    hide InsertAt;
    hide NextTo;
    if l.parent[x] == Some(p) {
      NextToAfterInsert(s, i, n, x, y);
    } else if Min(i, |s|) > 0 {
      assert s[Min(i, |s|) - 1] in s;
    }
  }

  lemma NextToAfterInsert<N>(s: seq<N>, i: nat, n: N, x: N, y: N)
    requires Distinct(s) && NextTo(s, x, y)
    requires var k := Min(i, |s|); !(0 < k < |s| && s[k - 1] == x && s[k] == y)
    ensures NextTo(InsertAt(s, i, n), x, y) && (Min(i, |s|) > 0 ==> s[Min(i, |s|) - 1] != x)
  {
    var k := Min(i, |s|);
    InsertedAt(s, i, n);
    var j: nat :| At(s, j, x, y);
    assert j + 1 != k;
    assert At(InsertAt(s, i, n), if j < k then j else j + 1, x, y);
  }

  lemma MoveDetached<N>(l: Links<N>, p: N, n: N, i: nat)
    requires Inv(l) && p in l.children && n in l.children
    ensures var d := Detached(l, n); Alone(d, n) && Move(d, p, n, i) == Move(l, p, n, i)
  {
    DetachInv(l, n);
    MoveIs(l, p, n, i);
    var d := Detached(l, n);
    DetachAlone(d, n);
    MoveIs(d, p, n, i);
    hide Inv;
    hide Detach;
    hide Move;
  }

  lemma DetachAlone<N>(l: Links<N>, n: N)
    requires Inv(l) && Alone(l, n)
    ensures Detach(l, n) == l
  {
  }

  /** A detached node has no parent and leaves its old one as it was without it. */
  lemma DetachedFields<N>(l: Links<N>, n: N, q: N)
    requires Inv(l) && n in l.children && n in l.parent && l.parent[n] == Some(q)
    ensures q in l.children && n in l.children[q] && Detached(l, n) == Detach(l, n) && Remove(l, q, n) == Some(Detached(l, n))
    ensures Detached(l, n).children == l.children[q := RemoveAt(l.children[q], IndexOf(l.children[q], n))]
    ensures Detached(l, n).parent == l.parent[n := None]
  {
    DetachFields(l, n);
    hide Inv;
    hide Detach;
  }

  /** Moving a child keeps all sibling links if and only if it was the first or the last of its parent, or
      goes back to its place. */
  lemma MoveCompleteIff<N>(l: Links<N>, p: N, n: N, i: nat, q: N)
    requires Inv(l) && Complete(l) && p in l.children && n in l.children && n in l.parent && l.parent[n] == Some(q)
    ensures q in l.children && n in l.children[q]
    ensures var s, at := l.children[q], IndexOf(l.children[q], n);
            Complete(Move(l, p, n, i)) <==> at == 0 || at == |s| - 1 || (p == q && Min(i, |s| - 1) == at)
  {
    hide *;
    DetachedFields(l, n, q);
    var s, d, at := l.children[q], Detached(l, n), IndexOf(l.children[q], n);
    MoveDetached(l, p, n, i);
    RemoveCompleteIff(l, q, n);
    if 0 < at < |s| - 1 {
      MoveMiddle(l, p, n, i, q);
    } else {
      MoveComplete(d, p, n, i);
    }
  }

  lemma MoveMiddle<N>(l: Links<N>, p: N, n: N, i: nat, q: N)
    requires Inv(l) && Complete(l) && p in l.children && n in l.children && n in l.parent && l.parent[n] == Some(q)
    requires q in l.children && n in l.children[q] && 0 < IndexOf(l.children[q], n) < |l.children[q]| - 1
    ensures var s, at := l.children[q], IndexOf(l.children[q], n);
            Complete(Move(l, p, n, i)) <==> p == q && Min(i, |s| - 1) == at
  {
    hide *;
    DetachedFields(l, n, q);
    var s, d, at := l.children[q], Detached(l, n), IndexOf(l.children[q], n);
    ChildFacts(l, p);
    ChildFacts(l, q);
    MoveDetached(l, p, n, i);
    DetachGap(l, q, n);
    RemovedAt(s, at);
    MoveGap(d, p, n, i, s[at - 1], s[at + 1]);
    var r := d.children[p];
    MinIs(i, |r|);
    MinIs(i, |s| - 1);
    WhichGap(s, at, r, Min(i, |r|), p == q);
  }

  lemma MinIs(i: nat, n: nat)
    ensures Min(i, n) == if i < n then i else n
  {
  }

  /** The gap that a child leaves is at its old index; in another list it is not. */
  lemma WhichGap<N>(s: seq<N>, at: nat, r: seq<N>, k: nat, same: bool)
    requires Distinct(s) && 0 < at < |s| - 1 && k <= |r|
    requires if same then r == RemoveAt(s, at) else forall c :: c in s ==> c !in r
    ensures 0 < k < |r| && r[k - 1] == s[at - 1] && r[k] == s[at + 1] <==> same && k == at
  {
    RemovedAt(s, at);
    assert s[at - 1] in s;
    if same && 0 < k < |r| && r[k - 1] == s[at - 1] {
      assert r[at - 1] == s[at - 1];
    }
  }

  /** Appending keeps all sibling links if and only if the node had no parent, or was its first or last child. */
  lemma AppendCompleteIff<N>(l: Links<N>, p: N, n: N)
    requires Inv(l) && Complete(l) && p in l.children && n in l.children
    ensures n in l.parent && (l.parent[n].Some? ==> l.parent[n].value in l.children && l.children[l.parent[n].value] != [])
    ensures Complete(Append(l, p, n)) <==>
              l.parent[n] == None || var s := l.children[l.parent[n].value]; s[0] == n || s[|s| - 1] == n
  {
    hide *;
    ChildFacts(l, p);
    AppendIs(l, p, n);
    if l.parent[n] == None {
      MoveComplete(l, p, n, |l.children[p]|);
    } else {
      var q := l.parent[n].value;
      MoveCompleteIff(l, p, n, |l.children[p]|, q);
      ChildFacts(l, q);
      FirstOrLast(l.children[q], n);
      MinIs(|l.children[p]|, |l.children[q]| - 1);
    }
  }

  lemma AppendIs<N>(l: Links<N>, p: N, n: N)
    requires Inv(l) && p in l.children && n in l.children
    ensures Append(l, p, n) == Move(l, p, n, |l.children[p]|)
  {
    hide Inv;
    hide Move;
  }

  lemma FirstOrLast<N>(s: seq<N>, n: N)
    requires Distinct(s) && n in s
    ensures s[0] == n <==> IndexOf(s, n) == 0
    ensures s[|s| - 1] == n <==> IndexOf(s, n) == |s| - 1
  {
  }

  /** Replacing a child by a detached node, or by itself, joins the new child to both neighbours. */
  lemma ReplaceComplete<N>(l: Links<N>, p: N, n: N, out: N)
    requires Inv(l) && Complete(l) && p in l.children && n in l.children && out in l.children && out in l.children[p]
    requires n in l.parent && (l.parent[n] == None || n == out)
    ensures Complete(Replace(l, p, n, out).value)
  {
    hide *;
    ChildFacts(l, p);
    DetachedFields(l, out, p);
    var s, d, at := l.children[p], Detached(l, out), IndexOf(l.children[p], out);
    ReplaceIs(l, p, n, out);
    NoParentAlone(d, n);
    RemoveCompleteIff(l, p, out);
    RemovedAt(s, at);
    if 0 < at < |s| - 1 {
      DetachGap(l, p, out);
      MoveGap(d, p, n, at, s[at - 1], s[at + 1]);
      MinIs(at, |s| - 1);
    } else {
      MoveComplete(d, p, n, at);
    }
  }

  lemma ReplaceIs<N>(l: Links<N>, p: N, n: N, out: N)
    requires Inv(l) && p in l.children && n in l.children && out in l.children && out in l.children[p]
    ensures Replace(l, p, n, out) == Some(Move(Detached(l, out), p, n, IndexOf(l.children[p], out)))
  {
    hide Inv;
    hide Move;
    hide Detached;
  }

  // ------------------------------------------------------------ insertBefore

  /** Putting a detached node anywhere but into the gap leaves just that gap. */
  lemma MoveKeepsGap<N>(l: Links<N>, p: N, n: N, i: nat, x: N, y: N)
    requires Inv(l) && Alone(l, n) && p in l.children && n in l.children && OnlyGap(l, x, y)
    requires var s := l.children[p]; var k := Min(i, |s|); !(0 < k < |s| && s[k - 1] == x && s[k] == y)
    ensures OnlyGap(Move(l, p, n, i), x, y)
  {
    var d := Move(l, p, n, i);
    MoveFields(l, p, n, i);
    GapOpen(l, p, n, i, d, x, y);
    hide Move;
    hide Moved;
    hide OnlyGap;
    hide Neighbours;
    forall a, b | a in d.next && b in d.next && Neighbours(d.children, d.parent, a, b) && !(a == x && b == y)
      ensures d.next[a] == Some(b)
    {
      LinkedAfterMove(l, p, n, i, d, x, y, a, b);
    }
    GapIs(d, x, y);
  }

  lemma GapIs<N>(l: Links<N>, x: N, y: N)
    requires x in l.next && y in l.next && l.next[x] == None && Neighbours(l.children, l.parent, x, y)
    requires forall a, b :: a in l.next && b in l.next && Neighbours(l.children, l.parent, a, b) && !(a == x && b == y) ==> l.next[a] == Some(b)
    ensures OnlyGap(l, x, y)
  {
    hide Neighbours;
  }

  lemma GapOpen<N>(l: Links<N>, p: N, n: N, i: nat, d: Links<N>, x: N, y: N)
    requires Inv(l) && Alone(l, n) && p in l.children && OnlyGap(l, x, y) && Moved(l, p, n, i, d)
    requires var s := l.children[p]; var k := Min(i, |s|); !(0 < k < |s| && s[k - 1] == x && s[k] == y)
    ensures x in d.next && y in d.next && d.next[x] == None && Neighbours(d.children, d.parent, x, y)
  {
    var s := l.children[p];
    ChildFacts(l, p);
    hide Inv;
    hide Min;
    assert x != n && y != n && l.next[x] == None && x in l.next && y in l.next;
    assert Neighbours(l.children, l.parent, x, y);
    hide OnlyGap;
    hide Neighbours;
    GapNeighbours(l, p, n, i, d, x, y);
    InsertedAt(s, i, n);
  }

  lemma LinkedAfterMove<N>(l: Links<N>, p: N, n: N, i: nat, d: Links<N>, x: N, y: N, a: N, b: N)
    requires Inv(l) && p in l.children && Alone(l, n) && OnlyGap(l, x, y) && Moved(l, p, n, i, d)
    requires a in d.next && b in d.next && Neighbours(d.children, d.parent, a, b) && !(a == x && b == y)
    ensures d.next[a] == Some(b)
  {
    var s := l.children[p];
    InsertedAt(s, i, n);
    if d.parent[a] == Some(p) {
      NextToBeforeInsert(s, i, n, a, b);
      if a != n && b != n {
        assert Neighbours(l.children, l.parent, a, b);
      }
    } else {
      assert Neighbours(l.children, l.parent, a, b);
      assert Min(i, |s|) > 0 ==> InsertAt(s, i, n)[Min(i, |s|) - 1] in s;
    }
  }

  /** What `_addReferences` of a node in place changes. */
  lemma RelinkFields<N>(l: Links<N>, c: N)
    requires Inv(l) && c in l.parent
    ensures var r := Relink(l, c);
            && r.next.Keys == l.next.Keys
            && (forall b :: b in l.next && Neighbours(l.children, l.parent, c, b) ==> r.next[c] == Some(b))
            && (forall a :: a in l.next && Neighbours(l.children, l.parent, a, c) ==> r.next[a] == Some(c))
            && (forall a :: a in l.next && a != c && !Neighbours(l.children, l.parent, a, c) ==> r.next[a] == l.next[a])
  {
    if l.parent[c].Some? {
      var p := l.parent[c].value;
      ChildFacts(l, p);
      NeighboursAre(l, p, c);
      RelinkNext(l, p, c);
    }
    hide Relink;
    hide Inv;
  }

  lemma RelinkNext<N>(l: Links<N>, p: N, c: N)
    requires Inv(l) && c in l.parent && l.parent[c] == Some(p) && p in l.children && c in l.children[p]
    ensures var s, i := l.children[p], IndexOf(l.children[p], c);
            var before := if i > 0 then l.next[s[i - 1] := Some(c)] else l.next;
            Relink(l, c).next == if i + 1 < |s| then before[c := Some(s[i + 1])] else before
  {
    hide Inv;
  }

  lemma NeighboursAre<N>(l: Links<N>, p: N, c: N)
    requires Inv(l) && c in l.parent && l.parent[c] == Some(p) && p in l.children && c in l.children[p]
    ensures var s, i := l.children[p], IndexOf(l.children[p], c);
            && (forall a :: Neighbours(l.children, l.parent, a, c) <==> i > 0 && a == s[i - 1])
            && (forall b :: Neighbours(l.children, l.parent, c, b) <==> i + 1 < |s| && b == s[i + 1])
  {
    var s, i := l.children[p], IndexOf(l.children[p], c);
    ChildFacts(l, p);
    hide Inv;
    BesideIs(s, c);
    hide NextTo;
    hide IndexOf;
    hide Distinct;
    assert i > 0 ==> s[i - 1] in s;
    assert i + 1 < |s| ==> s[i + 1] in s;
  }

  /** The neighbours of a child are those before and behind its index. */
  lemma BesideIs<N>(s: seq<N>, c: N)
    requires Distinct(s) && c in s
    ensures var i := IndexOf(s, c);
            && (forall a :: NextTo(s, a, c) <==> i > 0 && a == s[i - 1])
            && (forall b :: NextTo(s, c, b) <==> i + 1 < |s| && b == s[i + 1])
  {
    var i := IndexOf(s, c);
    forall a ensures NextTo(s, a, c) <==> i > 0 && a == s[i - 1] {
      if NextTo(s, a, c) {
        var j: nat :| At(s, j, a, c);
        assert j + 1 == i;
      }
      assert i > 0 && a == s[i - 1] ==> At(s, i - 1, a, c);
    }
    forall b ensures NextTo(s, c, b) <==> i + 1 < |s| && b == s[i + 1] {
      if NextTo(s, c, b) {
        var j: nat :| At(s, j, c, b);
        assert j == i;
      }
      assert i + 1 < |s| && b == s[i + 1] ==> At(s, i, c, b);
    }
  }

  /** It closes the gap if and only if the node stands beside it. */
  lemma RelinkGap<N>(l: Links<N>, c: N, x: N, y: N)
    requires Inv(l) && c in l.parent && OnlyGap(l, x, y)
    ensures if c == x || c == y then Complete(Relink(l, c)) else OnlyGap(Relink(l, c), x, y)
  {
    hide Inv;
    RelinkFields(l, c);
    hide Relink;
    var r := Relink(l, c);
    OtherThan(l, x, y, c);
    hide Neighbours;
    forall a, b | a in r.next && b in r.next && Neighbours(r.children, r.parent, a, b) && (c == x || c == y || !(a == x && b == y))
      ensures r.next[a] == Some(b)
    {
      if a != c && Neighbours(l.children, l.parent, a, c) {
        OneNext(l, a, b, c);
      }
    }
  }

  lemma OneNext<N>(l: Links<N>, a: N, b: N, c: N)
    requires Inv(l) && Neighbours(l.children, l.parent, a, b) && Neighbours(l.children, l.parent, a, c)
    ensures b == c
  {
    var s := l.children[l.parent[a].value];
    var j: nat :| At(s, j, a, b);
    var k: nat :| At(s, k, a, c);
  }

  lemma OtherThan<N>(l: Links<N>, x: N, y: N, c: N)
    requires Inv(l) && OnlyGap(l, x, y)
    ensures y != c ==> !Neighbours(l.children, l.parent, x, c)
  {
    if Neighbours(l.children, l.parent, x, c) {
      OneNext(l, x, y, c);
    }
  }

  lemma RelinkComplete<N>(l: Links<N>, c: N)
    requires Inv(l) && c in l.parent && Complete(l)
    ensures Complete(Relink(l, c))
  {
    hide Inv;
    RelinkFields(l, c);
    hide Relink;
    hide Neighbours;
    var r := Relink(l, c);
    forall a, b | a in r.next && b in r.next && Neighbours(r.children, r.parent, a, b) ensures r.next[a] == Some(b) {
      if a != c && Neighbours(l.children, l.parent, a, c) {
        OneNext(l, a, b, c);
      }
    }
  }

  lemma InsertIs<N>(l: Links<N>, p: N, n: N, i: nat)
    requires Inv(l) && p in l.children && n in l.children && i < |l.children[p]| && l.children[p][i] in l.children
    ensures var ref, m := l.children[p][i], Move(l, p, n, i);
            && ref in m.parent && m.children.Keys == l.children.Keys
            && InsertBefore(l, p, n, ref) == Some(RelinkBefore(Relink(m, ref), p, i))
  {
    ChildFacts(l, p);
    ChildFacts(Move(l, p, n, i), p);
    IndexIs(l.children[p], i, l.children[p][i]);
    MoveKeeps(l, p, n, i, l.children[p][i]);
    hide Inv;
    hide Move;
    hide Relink;
    hide RelinkBefore;
  }

  /** The gap between `x` and `y` is closed, or the only one. */
  ghost predicate Gap<N>(l: Links<N>, x: N, y: N, closed: bool) {
    if closed then Complete(l) else OnlyGap(l, x, y)
  }

  lemma RelinkOnce<N>(l: Links<N>, c: N, x: N, y: N, closed: bool)
    requires Inv(l) && c in l.parent && Gap(l, x, y, closed)
    ensures Gap(Relink(l, c), x, y, closed || c in [x, y])
  {
    hide Inv;
    hide Relink;
    hide OnlyGap;
    hide Complete;
    if closed {
      RelinkComplete(l, c);
    } else {
      RelinkGap(l, c, x, y);
    }
  }

  lemma RelinkBeforeIs<N>(l: Links<N>, p: N, i: nat)
    requires Inv(l) && p in l.children && i <= |l.children[p]|
    ensures i > 0 ==> l.children[p][i - 1] in l.parent && RelinkBefore(l, p, i) == Relink(l, l.children[p][i - 1])
    ensures i == 0 ==> RelinkBefore(l, p, i) == l
  {
    if i > 0 {
      InList(l, p, i - 1);
    }
    hide Inv;
    hide Relink;
  }

  /** The two nodes that `insertBefore` links again close the gap if and only if one of them stands beside it. */
  lemma RelinkBoth<N>(m: Links<N>, p: N, ref: N, i: nat, x: N, y: N)
    requires Inv(m) && p in m.children && ref in m.parent && i < |m.children[p]| && OnlyGap(m, x, y)
    ensures Complete(RelinkBefore(Relink(m, ref), p, i)) <==>
              ref in [x, y] || (i > 0 && m.children[p][i - 1] in [x, y])
  {
    var r := Relink(m, ref);
    hide *;
    GapUnfold(m, x, y, false);
    RelinkOnce(m, ref, x, y, false);
    RelinkBeforeIs(r, p, i);
    var now := ref in [x, y];
    if i > 0 {
      RelinkOnce(r, m.children[p][i - 1], x, y, now);
      GapUnfold(RelinkBefore(r, p, i), x, y, now || m.children[p][i - 1] in [x, y]);
    } else {
      GapUnfold(r, x, y, now);
    }
  }

  lemma GapUnfold<N>(l: Links<N>, x: N, y: N, closed: bool)
    ensures !closed ==> (Gap(l, x, y, closed) <==> OnlyGap(l, x, y))
    ensures Gap(l, x, y, closed) ==> (Complete(l) <==> closed)
  {
    GapIncomplete(l, x, y);
  }

  lemma InList<N>(l: Links<N>, p: N, i: nat)
    requires Inv(l) && p in l.children && i < |l.children[p]|
    ensures l.children[p][i] in l.parent
  {
    assert l.children[p][i] in l.children[p];
  }

  lemma GapIncomplete<N>(l: Links<N>, x: N, y: N)
    ensures OnlyGap(l, x, y) ==> !Complete(l)
  {
  }

  lemma RelinkBothComplete<N>(m: Links<N>, p: N, ref: N, i: nat)
    requires Inv(m) && p in m.children && ref in m.parent && Complete(m)
    ensures Complete(RelinkBefore(Relink(m, ref), p, i))
  {
    RelinkComplete(m, ref);
    var r := Relink(m, ref);
    hide Relink;
    if 0 < i <= |r.children[p]| {
      assert r.children[p][i - 1] in r.children[p];
      RelinkComplete(r, r.children[p][i - 1]);
    }
  }

  /** The gap left in the list `t`, and the nodes linked again after the insertion into `s` at `i`. */
  lemma WhoClosesGap<N>(s: seq<N>, i: nat, t: seq<N>, at: nat, w: seq<N>, same: bool)
    requires Distinct(s) && Distinct(t) && i < |s| && 0 < at < |t| - 1 && !(same && at == i)
    requires if same then s == t && w == RemoveAt(t, at) else w == s && forall c :: c in t ==> c !in s
    ensures var r := InsertAt(w, i, t[at]);
            && |r| > i
            && (s[i] in [t[at - 1], t[at + 1]] || (i > 0 && r[i - 1] in [t[at - 1], t[at + 1]])
                <==> same && (at == i + 1 || at + 1 == i))
  {
    RemovedAt(t, at);
    InsertedAt(w, i, t[at]);
    assert t[at - 1] in t && t[at + 1] in t;
  }

  /** `insertBefore` of a child keeps all sibling links if and only if it was the first or the last of its parent,
      or it stood beside the reference, or it is the reference. */
  lemma InsertCompleteIff<N>(l: Links<N>, p: N, n: N, i: nat, q: N)
    requires Inv(l) && Complete(l) && p in l.children && n in l.children && n in l.parent && l.parent[n] == Some(q)
    requires i < |l.children[p]| && l.children[p][i] in l.children
    ensures q in l.children && n in l.children[q]
    ensures var t, at := l.children[q], IndexOf(l.children[q], n);
            Complete(InsertBefore(l, p, n, l.children[p][i]).value)
            <==> at == 0 || at == |t| - 1 || (p == q && (at == i || at == i + 1 || at + 1 == i))
  {
    hide *;
    DetachedFields(l, n, q);
    MoveCompleteIff(l, p, n, i, q);
    InsertIs(l, p, n, i);
    var s, t, at, m := l.children[p], l.children[q], IndexOf(l.children[q], n), Move(l, p, n, i);
    MinIs(i, |t| - 1);
    if Complete(m) {
      RelinkBothComplete(m, p, s[i], i);
    } else {
      InsertGap(l, p, n, i, q);
    }
  }

  lemma InsertGap<N>(l: Links<N>, p: N, n: N, i: nat, q: N)
    requires Inv(l) && Complete(l) && p in l.children && n in l.children && n in l.parent && l.parent[n] == Some(q)
    requires i < |l.children[p]| && l.children[p][i] in l.children && q in l.children && n in l.children[q]
    requires var t, at := l.children[q], IndexOf(l.children[q], n); 0 < at < |t| - 1 && !(p == q && at == i)
    ensures var at, m := IndexOf(l.children[q], n), Move(l, p, n, i);
            && l.children[p][i] in m.parent
            && (Complete(RelinkBefore(Relink(m, l.children[p][i]), p, i)) <==> p == q && (at == i + 1 || at + 1 == i))
  {
    hide *;
    InsertIs(l, p, n, i);
    DetachedFields(l, n, q);
    MoveDetached(l, p, n, i);
    DetachGap(l, q, n);
    ChildFacts(l, p);
    ChildFacts(l, q);
    var s, t, at, d := l.children[p], l.children[q], IndexOf(l.children[q], n), Detached(l, n);
    var w := d.children[p];
    MinIs(i, |w|);
    RemovedAt(t, at);
    WhichGap(t, at, w, Min(i, |w|), p == q);
    MoveKeepsGap(d, p, n, i, t[at - 1], t[at + 1]);
    MoveFields(d, p, n, i);
    MovedChildren(d, p, n, i, Move(l, p, n, i));
    WhoClosesGap(s, i, t, at, w, p == q);
    RelinkBoth(Move(l, p, n, i), p, s[i], i, t[at - 1], t[at + 1]);
  }

  lemma MovedChildren<N>(l: Links<N>, p: N, n: N, i: nat, d: Links<N>)
    requires p in l.children && Moved(l, p, n, i, d)
    ensures p in d.children && d.children[p] == InsertAt(l.children[p], i, n)
  {
  }

  /** A detached node always leaves them complete. */
  lemma InsertDetachedComplete<N>(l: Links<N>, p: N, n: N, i: nat)
    requires Inv(l) && Complete(l) && p in l.children && n in l.children && n in l.parent && l.parent[n] == None
    requires i < |l.children[p]| && l.children[p][i] in l.children
    ensures Complete(InsertBefore(l, p, n, l.children[p][i]).value)
  {
    hide *;
    MoveComplete(l, p, n, i);
    InsertIs(l, p, n, i);
    RelinkBothComplete(Move(l, p, n, i), p, l.children[p][i], i);
  }
}
