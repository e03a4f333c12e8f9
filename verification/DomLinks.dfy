/** The parent, child and sibling links of DOM nodes as one value, and what the node operations do
    to it. Every run of operations keeps each node listed exactly once in its parent's children, and
    each sibling link symmetric and between neighbours. */
module DomLinks {
  import opened Basics

  /** Links between nodes of type N. The four maps have the same domain: the nodes that exist. */
  datatype Links<N(==)> = Links(
    children: map<N, seq<N>>, parent: map<N, Option<N>>, prev: map<N, Option<N>>, next: map<N, Option<N>>)

  /** `indexOf`, or the length of the list when the node is not in it. */
  function IndexOf<N(==)>(s: seq<N>, x: N): (i: nat)
    ensures i <= |s| && (i < |s| <==> x in s)
    ensures i < |s| ==> s[i] == x
  {
    if s == [] || s[0] == x then 0 else 1 + IndexOf(s[1..], x)
  }

  function RemoveAt<N>(s: seq<N>, i: nat): seq<N>
    requires i < |s|
  {
    s[..i] + s[i + 1..]
  }

  /** `splice(i, 0, x)`, which never starts after the end. */
  function InsertAt<N>(s: seq<N>, i: nat, x: N): seq<N> {
    s[..Min(i, |s|)] + [x] + s[Min(i, |s|)..]
  }

  // --------------------------------------------------------------- invariant

  ghost predicate Distinct<N>(s: seq<N>) {
    forall i, j :: 0 <= i < j < |s| ==> s[i] != s[j]
  }

  ghost predicate At<N>(s: seq<N>, i: nat, a: N, b: N) {
    i + 1 < |s| && s[i] == a && s[i + 1] == b
  }

  /** `b` comes right after `a` in the list. */
  ghost predicate NextTo<N>(s: seq<N>, a: N, b: N) {
    exists i: nat :: At(s, i, a, b)
  }

  /** A node is listed exactly once in its parent's children, and nowhere else. */
  ghost predicate Tree<N>(children: map<N, seq<N>>, parent: map<N, Option<N>>) {
    && children.Keys == parent.Keys
    && (forall p, c :: p in children && c in children[p] ==> c in parent && parent[c] == Some(p))
    && (forall n :: n in parent && parent[n].Some? ==> parent[n].value in children && n in children[parent[n].value])
    && (forall p :: p in children ==> Distinct(children[p]))
  }

  /** A next-sibling link and a previous-sibling link always come together. */
  ghost predicate Symmetric<N>(prev: map<N, Option<N>>, next: map<N, Option<N>>) {
    && (forall a :: a in next && next[a].Some? ==> next[a].value in prev && prev[next[a].value] == Some(a))
    && (forall b :: b in prev && prev[b].Some? ==> prev[b].value in next && next[prev[b].value] == Some(b))
  }

  /** Neighbouring children of one parent. */
  ghost predicate Neighbours<N>(children: map<N, seq<N>>, parent: map<N, Option<N>>, a: N, b: N) {
    && a in parent && b in parent && parent[a].Some? && parent[b] == parent[a]
    && parent[a].value in children && NextTo(children[parent[a].value], a, b)
  }

  /** Every sibling link joins neighbours. */
  ghost predicate Sound<N>(children: map<N, seq<N>>, parent: map<N, Option<N>>, next: map<N, Option<N>>) {
    forall a :: a in next && next[a].Some? ==> Neighbours(children, parent, a, next[a].value)
  }

  ghost predicate Inv<N>(l: Links<N>) {
    && l.children.Keys == l.prev.Keys == l.next.Keys
    && Tree(l.children, l.parent)
    && Symmetric(l.prev, l.next)
    && Sound(l.children, l.parent, l.next)
  }

  /** No sibling link is missing. */
  ghost predicate Complete<N>(l: Links<N>) {
    forall a, b :: a in l.next && b in l.next && Neighbours(l.children, l.parent, a, b) ==> l.next[a] == Some(b)
  }

  // -------------------------------------------------------------- operations

  function CutPrev<N(==)>(l: Links<N>, n: N): Links<N>
    requires n in l.prev
  {
    match l.prev[n]
    case None => l
    case Some(p) => l.(next := l.next[p := None], prev := l.prev[n := None])
  }

  function CutNext<N(==)>(l: Links<N>, n: N): Links<N>
    requires n in l.next
  {
    match l.next[n]
    case None => l
    case Some(m) => l.(prev := l.prev[m := None], next := l.next[n := None])
  }

  function CutParent<N(==)>(l: Links<N>, n: N): Links<N>
    requires Tree(l.children, l.parent) && n in l.parent
  {
    match l.parent[n]
    case None => l
    case Some(p) =>
      l.(children := l.children[p := RemoveAt(l.children[p], IndexOf(l.children[p], n))], parent := l.parent[n := None])
  }

  /** `_removeReferences` */
  function Detach<N(==)>(l: Links<N>, n: N): Links<N>
    requires Inv(l) && n in l.parent
  {
    CutPrevInv(l, n);
    CutNextInv(CutPrev(l, n), n);
    CutParent(CutNext(CutPrev(l, n), n), n)
  }

  /** Links the children at indices `i` and `i + 1` of the list `s` to each other. */
  function LinkPair<N(==)>(l: Links<N>, s: seq<N>, i: nat): (r: Links<N>)
    requires i + 1 < |s|
    ensures r.children == l.children && r.parent == l.parent
  {
    l.(next := l.next[s[i] := Some(s[i + 1])], prev := l.prev[s[i + 1] := Some(s[i])])
  }

  /** `_addReferences` for the child at index `i` of the list `s`. */
  function LinkAt<N(==)>(l: Links<N>, s: seq<N>, i: nat): Links<N>
    requires i < |s|
  {
    var m := if i > 0 then LinkPair(l, s, i - 1) else l;
    if i + 1 < |s| then LinkPair(m, s, i) else m
  }

  /** `_addReferences` */
  function Link<N(==)>(l: Links<N>, n: N): Links<N>
    requires Tree(l.children, l.parent) && n in l.parent
  {
    match l.parent[n]
    case None => l
    case Some(p) => LinkAt(l, l.children[p], IndexOf(l.children[p], n))
  }

  /** A detached node put at index `i` of `p`, not yet linked to its neighbours. */
  function Put<N(==)>(l: Links<N>, p: N, n: N, i: nat): Links<N>
    requires p in l.children && n in l.parent
  {
    l.(children := l.children[p := InsertAt(l.children[p], i, n)], parent := l.parent[n := Some(p)])
  }

  // ------------------------------------------------------------ detaching

  lemma SoundShrinks<N>(children: map<N, seq<N>>, parent: map<N, Option<N>>, next: map<N, Option<N>>, next': map<N, Option<N>>)
    requires Sound(children, parent, next)
    requires next'.Keys == next.Keys && forall a :: a in next' ==> next'[a] == next[a] || next'[a] == None
    ensures Sound(children, parent, next')
  {
    forall a | a in next' && next'[a].Some? ensures Neighbours(children, parent, a, next'[a].value) {
      assert next[a] == next'[a];
    }
  }

  lemma CutPrevInv<N>(l: Links<N>, n: N)
    requires Inv(l) && n in l.parent
    ensures var d := CutPrev(l, n); Inv(d) && d.prev[n] == None && d.children == l.children && d.parent == l.parent
  {
    var d := CutPrev(l, n);
    if l.prev[n].Some? {
      SoundShrinks(l.children, l.parent, l.next, d.next);
    }
  }

  lemma CutNextInv<N>(l: Links<N>, n: N)
    requires Inv(l) && n in l.parent
    ensures var d := CutNext(l, n);
            && Inv(d) && d.next[n] == None && d.children == l.children && d.parent == l.parent
            && (l.prev[n] == None ==> d.prev[n] == None)
  {
    var d := CutNext(l, n);
    if l.next[n].Some? {
      SoundShrinks(l.children, l.parent, l.next, d.next);
    }
  }

  lemma RemovedAt<N>(s: seq<N>, i: nat)
    requires i < |s|
    ensures |RemoveAt(s, i)| == |s| - 1
    ensures forall j :: 0 <= j < |s| - 1 ==> RemoveAt(s, i)[j] == if j < i then s[j] else s[j + 1]
  {
  }

  lemma RemovedList<N>(s: seq<N>, i: nat)
    requires Distinct(s) && i < |s|
    ensures Distinct(RemoveAt(s, i))
    ensures forall x :: x in RemoveAt(s, i) <==> x in s && x != s[i]
  {
    RemovedAt(s, i);
    var r := RemoveAt(s, i);
    forall x | x in s && x != s[i] ensures x in r {
      var k :| 0 <= k < |s| && s[k] == x;
      assert r[if k < i then k else k - 1] == x;
    }
  }

  lemma NextToAfterRemove<N>(s: seq<N>, i: nat, a: N, b: N)
    requires Distinct(s) && i < |s| && NextTo(s, a, b) && a != s[i] && b != s[i]
    ensures NextTo(RemoveAt(s, i), a, b)
  {
    RemovedAt(s, i);
    var k: nat :| At(s, k, a, b);
    assert k != i && k + 1 != i;
    assert At(RemoveAt(s, i), if k < i then k else k - 1, a, b);
  }

  lemma CutParentTree<N>(l: Links<N>, n: N)
    requires Tree(l.children, l.parent) && n in l.parent && l.parent[n].Some?
    ensures Tree(CutParent(l, n).children, CutParent(l, n).parent)
  {
    var p := l.parent[n].value;
    RemovedList(l.children[p], IndexOf(l.children[p], n));
  }

  lemma CutParentSound<N>(l: Links<N>, n: N)
    requires Inv(l) && n in l.parent && l.parent[n].Some? && l.prev[n] == None && l.next[n] == None
    ensures var d := CutParent(l, n); Sound(d.children, d.parent, d.next)
  {
    var p := l.parent[n].value;
    var s := l.children[p];
    var d := CutParent(l, n);
    forall a | a in d.next && d.next[a].Some? ensures Neighbours(d.children, d.parent, a, d.next[a].value) {
      var b := d.next[a].value;
      assert Neighbours(l.children, l.parent, a, b);
      assert l.prev[b] == Some(a) && a != n && b != n;
      if l.parent[a] == Some(p) {
        NextToAfterRemove(s, IndexOf(s, n), a, b);
      }
    }
  }

  /** A node with no parent and no siblings. */
  ghost predicate Alone<N>(l: Links<N>, n: N) {
    && n in l.parent && n in l.prev && n in l.next
    && l.parent[n] == None && l.prev[n] == None && l.next[n] == None
  }

  /** Detaching a node keeps the invariant and leaves it without parent and siblings. */
  lemma DetachInv<N>(l: Links<N>, n: N)
    requires Inv(l) && n in l.parent
    ensures var d := Detach(l, n); Inv(d) && Alone(d, n) && d.children.Keys == l.children.Keys
  {
    CutPrevInv(l, n);
    var c := CutPrev(l, n);
    CutNextInv(c, n);
    var e := CutNext(c, n);
    if e.parent[n].Some? {
      CutParentTree(e, n);
      CutParentSound(e, n);
    }
  }

  // ------------------------------------------------------------- attaching

  lemma InsertedAt<N>(s: seq<N>, i: nat, x: N)
    ensures |InsertAt(s, i, x)| == |s| + 1
    ensures forall j :: 0 <= j <= |s| ==>
              InsertAt(s, i, x)[j] == if j < Min(i, |s|) then s[j] else if j == Min(i, |s|) then x else s[j - 1]
  {
  }

  lemma InsertedList<N>(s: seq<N>, i: nat, n: N)
    requires Distinct(s) && n !in s
    ensures Distinct(InsertAt(s, i, n))
    ensures forall x :: x in InsertAt(s, i, n) <==> x in s || x == n
  {
    InsertedAt(s, i, n);
    var r := InsertAt(s, i, n);
    assert r[Min(i, |s|)] == n;
    forall x | x in s ensures x in r {
      var k :| 0 <= k < |s| && s[k] == x;
      assert r[if k < Min(i, |s|) then k else k + 1] == x;
    }
  }

  lemma PutTree<N>(l: Links<N>, p: N, n: N, i: nat)
    requires Tree(l.children, l.parent) && p in l.children && n in l.parent && l.parent[n] == None
    ensures Tree(Put(l, p, n, i).children, Put(l, p, n, i).parent)
    ensures Put(l, p, n, i).children[p] == InsertAt(l.children[p], i, n)
  {
    InsertedList(l.children[p], i, n);
  }

  lemma IndexIs<N>(s: seq<N>, i: nat, x: N)
    requires Distinct(s) && i < |s| && s[i] == x
    ensures IndexOf(s, x) == i
  {
  }

  /** Once the links of the new child are set, only neighbours are linked again. */
  lemma PutSound<N>(l: Links<N>, p: N, n: N, i: nat)
    requires Inv(l) && p in l.children && Alone(l, n)
    ensures Tree(Put(l, p, n, i).children, Put(l, p, n, i).parent)
    ensures var d := Link(Put(l, p, n, i), n); Sound(d.children, d.parent, d.next)
  {
    PutTree(l, p, n, i);
    var q := Put(l, p, n, i);
    var s, r := l.children[p], q.children[p];
    var k := Min(i, |s|);
    InsertedAt(s, i, n);
    IndexIs(r, k, n);
    var d := Link(q, n);
    forall a | a in d.next && d.next[a].Some? ensures Neighbours(d.children, d.parent, a, d.next[a].value) {
      var b := d.next[a].value;
      if a == n {
        assert At(r, k, a, b);
      } else if k > 0 && a == r[k - 1] {
        assert At(r, k - 1, a, b);
      } else {
        assert Neighbours(l.children, l.parent, a, b);
        if l.parent[a] == Some(p) {
          var j: nat :| At(s, j, a, b);
          assert j + 1 != k;
          assert At(r, if j < k then j else j + 1, a, b);
        }
      }
    }
  }

  /** In a list of children, a set link can only lead to the neighbour. */
  lemma LinkLeadsToNeighbour<N>(l: Links<N>, p: N, i: nat)
    requires Inv(l) && p in l.children && i < |l.children[p]|
    ensures var s := l.children[p];
            && l.next[s[i]] in {None, if i + 1 < |s| then Some(s[i + 1]) else None}
            && l.prev[s[i]] in {None, if i > 0 then Some(s[i - 1]) else None}
  {
    var s := l.children[p];
    var a := s[i];
    assert a in s;
    if l.next[a].Some? {
      assert Neighbours(l.children, l.parent, a, l.next[a].value);
      var j: nat :| At(s, j, a, l.next[a].value);
      assert j == i;
    }
    if l.prev[a].Some? {
      var b := l.prev[a].value;
      assert Neighbours(l.children, l.parent, b, l.next[b].value);
      var j: nat :| At(s, j, b, a);
      assert j + 1 == i;
    }
  }

  lemma PairSymmetric<N>(prev: map<N, Option<N>>, next: map<N, Option<N>>, a: N, b: N)
    requires Symmetric(prev, next) && prev.Keys == next.Keys && a in next && b in prev
    requires next[a] in {None, Some(b)} && prev[b] in {None, Some(a)}
    ensures Symmetric(prev[b := Some(a)], next[a := Some(b)])
  {
  }

  /** `n` goes between `a` and `b`, whether or not these were linked. */
  lemma BetweenSymmetric<N>(prev: map<N, Option<N>>, next: map<N, Option<N>>, a: N, n: N, b: N)
    requires Symmetric(prev, next) && prev.Keys == next.Keys && a in next && b in prev && n in next
    requires a != n && b != n && a != b && next[n] == None && prev[n] == None
    requires next[a] in {None, Some(b)} && prev[b] in {None, Some(a)}
    ensures Symmetric(prev[n := Some(a)][b := Some(n)], next[a := Some(n)][n := Some(b)])
  {
  }

  lemma PutSymmetric<N>(l: Links<N>, p: N, n: N, i: nat)
    requires Inv(l) && p in l.children && Alone(l, n)
    ensures var r := InsertAt(l.children[p], i, n);
            var d := LinkAt(l, r, Min(i, |l.children[p]|));
            Symmetric(d.prev, d.next) && d.prev.Keys == l.prev.Keys && d.next.Keys == l.next.Keys
  {
    var s, r := l.children[p], InsertAt(l.children[p], i, n);
    var k := Min(i, |s|);
    InsertedAt(s, i, n);
    assert k < |s| ==> s[k] in s && r[k + 1] == s[k];
    assert k > 0 ==> s[k - 1] in s && r[k - 1] == s[k - 1];
    if k > 0 { LinkLeadsToNeighbour(l, p, k - 1); }
    if k < |s| { LinkLeadsToNeighbour(l, p, k); }
    if 0 < k < |s| {
      BetweenSymmetric(l.prev, l.next, s[k - 1], n, s[k]);
    } else if k > 0 {
      PairSymmetric(l.prev, l.next, s[k - 1], n);
    } else if k < |s| {
      PairSymmetric(l.prev, l.next, n, s[k]);
    }
  }

  lemma PutLinkInv<N>(l: Links<N>, p: N, n: N, i: nat)
    requires Inv(l) && p in l.children && Alone(l, n)
    ensures Tree(Put(l, p, n, i).children, Put(l, p, n, i).parent)
    ensures Inv(Link(Put(l, p, n, i), n))
  {
    PutTree(l, p, n, i);
    PutSound(l, p, n, i);
    PutSymmetric(l, p, n, i);
    InsertedAt(l.children[p], i, n);
    IndexIs(InsertAt(l.children[p], i, n), Min(i, |l.children[p]|), n);
  }

  /** Linking two neighbours keeps the invariant. */
  lemma LinkPairInv<N>(l: Links<N>, p: N, i: nat)
    requires Inv(l) && p in l.children && i + 1 < |l.children[p]|
    ensures Inv(LinkPair(l, l.children[p], i))
  {
    var s := l.children[p];
    assert s[i] in s && s[i + 1] in s;
    LinkLeadsToNeighbour(l, p, i);
    LinkLeadsToNeighbour(l, p, i + 1);
    PairSymmetric(l.prev, l.next, s[i], s[i + 1]);
    PairSound(l, p, i);
  }

  lemma PairSound<N>(l: Links<N>, p: N, i: nat)
    requires Inv(l) && p in l.children && i + 1 < |l.children[p]|
    ensures var s := l.children[p]; Sound(l.children, l.parent, l.next[s[i] := Some(s[i + 1])])
  {
    var s := l.children[p];
    assert s[i] in s && s[i + 1] in s;
    assert At(s, i, s[i], s[i + 1]);
  }

  lemma LinkAtInv<N>(l: Links<N>, p: N, i: nat)
    requires Inv(l) && p in l.children && i < |l.children[p]|
    ensures Inv(LinkAt(l, l.children[p], i))
  {
    hide Inv;
    hide LinkPair;
    var s := l.children[p];
    if i > 0 {
      LinkPairInv(l, p, i - 1);
    }
    if i + 1 < |s| {
      LinkPairInv(if i > 0 then LinkPair(l, s, i - 1) else l, p, i);
    }
  }

  /** `_addReferences` of a node in place: it only adds links between neighbours. */
  function Relink<N(==)>(l: Links<N>, n: N): (r: Links<N>)
    requires Inv(l) && n in l.parent
    ensures Inv(r) && r.children == l.children && r.parent == l.parent
  {
    match l.parent[n]
    case None => l
    case Some(p) =>
      LinkAtInv(l, p, IndexOf(l.children[p], n));
      LinkAt(l, l.children[p], IndexOf(l.children[p], n))
  }

  // ------------------------------------------------------------ node operations

  /** `_removeReferences` */
  function Detached<N(==)>(l: Links<N>, n: N): (r: Links<N>)
    requires Inv(l) && n in l.children
    ensures Inv(r) && r.children.Keys == l.children.Keys
  {
    DetachInv(l, n);
    Detach(l, n)
  }

  /** A node taken from where it is and put at index `i` of `p`, linked to its new neighbours. */
  function Move<N(==)>(l: Links<N>, p: N, n: N, i: nat): (r: Links<N>)
    requires Inv(l) && p in l.children && n in l.children
    ensures Inv(r) && r.children.Keys == l.children.Keys
  {
    var d := Detached(l, n);
    DetachInv(l, n);
    PutLinkInv(d, p, n, i);
    assert Put(d, p, n, i).children.Keys == d.children.Keys;
    hide Inv;
    Link(Put(d, p, n, i), n)
  }

  /** A child stays one when any node is taken from where it is and put beside it. */
  lemma MoveKeeps<N>(l: Links<N>, p: N, n: N, i: nat, c: N)
    requires Inv(l) && p in l.children && n in l.children && c in l.children[p]
    ensures c in Move(l, p, n, i).children[p]
  {
    if c != n {
      DetachKeeps(l, n, p, c);
    }
    var d := Detached(l, n);
    DetachInv(l, n);
    PutLinkInv(d, p, n, i);
    hide Inv;
    hide Tree;
    hide Detach;
    hide Alone;
    InsertedKeeps(d.children[p], i, n, c);
    LinkKeepsChildren(Put(d, p, n, i), n);
    hide Link;
  }

  lemma DetachKeeps<N>(l: Links<N>, n: N, p: N, c: N)
    requires Inv(l) && n in l.parent && p in l.children && c in l.children[p] && c != n
    ensures p in Detach(l, n).children && c in Detach(l, n).children[p]
  {
    CutPrevInv(l, n);
    CutNextInv(CutPrev(l, n), n);
    var m := CutNext(CutPrev(l, n), n);
    assert Tree(m.children, m.parent) && m.children == l.children && n in m.parent;
    hide Inv;
    hide Tree;
    hide CutPrev;
    hide CutNext;
    CutParentKeeps(m, n, p, c);
  }

  lemma CutParentKeeps<N>(l: Links<N>, n: N, p: N, c: N)
    requires Tree(l.children, l.parent) && n in l.parent && p in l.children && c in l.children[p] && c != n
    ensures p in CutParent(l, n).children && c in CutParent(l, n).children[p]
  {
    if l.parent[n].Some? {
      var s := l.children[l.parent[n].value];
      var k := IndexOf(s, n);
      assert k < |s|;
      hide Tree;
      RemovedKeeps(s, k, c);
    }
  }

  lemma LinkKeepsChildren<N>(l: Links<N>, n: N)
    requires Tree(l.children, l.parent) && n in l.parent
    ensures Link(l, n).children == l.children
  {
    hide Tree;
  }

  lemma RemovedKeeps<N>(s: seq<N>, k: nat, c: N)
    requires k < |s|
    ensures c in s && c != s[k] ==> c in RemoveAt(s, k)
  {
    if c in s && c != s[k] {
      var j :| 0 <= j < |s| && s[j] == c;
      assert RemoveAt(s, k)[if j < k then j else j - 1] == c;
    }
  }

  lemma InsertedKeeps<N>(s: seq<N>, i: nat, x: N, c: N)
    requires c in s || c == x
    ensures c in InsertAt(s, i, x)
  {
    var k := Min(i, |s|);
    if c == x {
      assert InsertAt(s, i, x)[k] == c;
    } else {
      var j :| 0 <= j < |s| && s[j] == c;
      assert InsertAt(s, i, x)[if j < k then j else j + 1] == c;
    }
  }

  /** `appendChild` of one node. */
  function Append<N(==)>(l: Links<N>, p: N, n: N): (r: Links<N>)
    requires Inv(l) && p in l.children && n in l.children
    ensures Inv(r) && r.children.Keys == l.children.Keys
  {
    Move(l, p, n, |l.children[p]|)
  }

  /** `insertBefore` of one node; None when the reference is not a child. The index is taken before
      the node is detached. */
  function InsertBefore<N(==)>(l: Links<N>, p: N, n: N, ref: N): (r: Option<Links<N>>)
    requires Inv(l) && p in l.children && n in l.children && ref in l.children
    ensures r.Some? ==> Inv(r.value) && r.value.children.Keys == l.children.Keys
    ensures r.Some? <==> ref in l.children[p]
    ensures r.Some? ==> ref in r.value.children[p]
  {
    var index := IndexOf(l.children[p], ref);
    if index == |l.children[p]| then None
    else
      MoveKeeps(l, p, n, index, ref);
      Some(RelinkBefore(Relink(Move(l, p, n, index), ref), p, index))
  }

  /** The child before `index`, if any, linked again. */
  function RelinkBefore<N(==)>(l: Links<N>, p: N, index: nat): (r: Links<N>)
    requires Inv(l) && p in l.children
    ensures Inv(r) && r.children == l.children && r.parent == l.parent
  {
    if 0 < index <= |l.children[p]| then
      assert l.children[p][index - 1] in l.children[p];
      Relink(l, l.children[p][index - 1])
    else l
  }

  /** `replaceChild`; None when the replaced node is not a child. */
  function Replace<N(==)>(l: Links<N>, p: N, n: N, out: N): (r: Option<Links<N>>)
    requires Inv(l) && p in l.children && n in l.children && out in l.children
    ensures r.Some? ==> Inv(r.value) && r.value.children.Keys == l.children.Keys
    ensures r.Some? <==> out in l.children[p]
  {
    var index := IndexOf(l.children[p], out);
    if index == |l.children[p]| then None else Some(Move(Detached(l, out), p, n, index))
  }

  /** `removeChild`; None when `p` is not the parent. */
  function Remove<N(==)>(l: Links<N>, p: N, n: N): (r: Option<Links<N>>)
    requires Inv(l) && n in l.children
    ensures r.Some? ==> Inv(r.value) && r.value.children.Keys == l.children.Keys
    ensures r.Some? <==> l.parent[n] == Some(p)
  {
    if l.parent[n] == Some(p) then Some(Detached(l, n)) else None
  }
}
