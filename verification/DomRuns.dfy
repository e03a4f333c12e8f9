/** What runs of the node operations keep, fragments included: each node is listed once, in its parent,
    and sibling links join neighbours, as long as no fragment is inserted that holds itself. */
module DomRuns {
  import opened Basics
  import opened DomLinks

  // A fragment is not put in itself, its children are, one after the other. `appendChild` moves them as they
  // are; `insertBefore` calls itself on each, so a fragment inside the fragment is opened in turn. A fragment
  // stays where it is, so one that holds itself is opened for ever.

  // -------------------------------------------------------------- fragments

  function AppendEach<N(==)>(l: Links<N>, p: N, nodes: seq<N>): (r: Links<N>)
    requires Inv(l) && p in l.children && forall n :: n in nodes ==> n in l.children.Keys
    ensures Inv(r) && r.children.Keys == l.children.Keys
    decreases |nodes|
  {
    hide Inv;
    hide Append;
    if nodes == [] then l else AppendEach(Append(l, p, nodes[0]), p, nodes[1..])
  }

  lemma ChildrenExist<N>(l: Links<N>, p: N)
    requires Inv(l) && p in l.children
    ensures forall n :: n in l.children[p] ==> n in l.children.Keys
  {
  }

  lemma OneLess<N>(fr: set<N>, open: set<N>, n: N)
    requires n in fr && n !in open
    ensures |fr - (open + {n})| < |fr - open|
  {
    assert fr - (open + {n}) == (fr - open) - {n};
  }

  /** `insertBefore` where the reference is a child: it stays one, so that nothing fails. `fr` are the nodes
      that are fragments, and `open` those that are being put in. None when it never ends. */
  function Insert<N(==)>(l: Links<N>, fr: set<N>, p: N, n: N, ref: N, open: set<N>): (r: Option<Links<N>>)
    requires Inv(l) && p in l.children && n in l.children && ref in l.children && ref in l.children[p]
    ensures r.Some? ==> Inv(r.value) && r.value.children.Keys == l.children.Keys && ref in r.value.children[p]
    decreases |fr - open|, 1, 0
  {
    hide Inv;
    hide InsertBefore;
    if n !in fr then InsertBefore(l, p, n, ref)
    else if n in open then None
    else
      ChildrenExist(l, n);
      OneLess(fr, open, n);
      InsertAll(l, fr, p, l.children[n], ref, open + {n})
  }

  function InsertAll<N(==)>(l: Links<N>, fr: set<N>, p: N, nodes: seq<N>, ref: N, open: set<N>): (r: Option<Links<N>>)
    requires Inv(l) && p in l.children && ref in l.children && ref in l.children[p]
    requires forall n :: n in nodes ==> n in l.children.Keys
    ensures r.Some? ==> Inv(r.value) && r.value.children.Keys == l.children.Keys && ref in r.value.children[p]
    decreases |fr - open|, 2, |nodes|
  {
    hide Inv;
    hide InsertBefore;
    if nodes == [] then Some(l)
    else
      match Insert(l, fr, p, nodes[0], ref, open)
      case None => None
      case Some(m) => InsertAll(m, fr, p, nodes[1..], ref, open)
  }

  // ------------------------------------------- fragments that hold themselves

  /** Each fragment is a child of the one before, and the first of the last. */
  ghost predicate Circle<N>(parent: map<N, Option<N>>, fr: set<N>, n: N, older path: seq<N>) {
    && path != [] && path[0] == n && (forall i :: 0 <= i < |path| ==> path[i] in fr && path[i] in parent.Keys)
    && (forall i :: 0 < i < |path| ==> parent[path[i]] == Some(path[i - 1])) && parent[n] == Some(path[|path| - 1])
  }

  ghost predicate HoldsItself<N>(l: Links<N>, fr: set<N>, n: N) {
    exists path :: Circle(l.parent, fr, n, path)
  }

  /** No fragment has been moved. */
  ghost predicate Still<N>(l: Links<N>, m: Links<N>, fr: set<N>) {
    l.parent.Keys == m.parent.Keys && forall c :: c in fr && c in l.parent ==> m.parent[c] == l.parent[c]
  }

  lemma DetachParent<N>(l: Links<N>, n: N)
    requires Inv(l) && n in l.parent
    ensures Detach(l, n).parent == l.parent[n := None]
  {
    CutPrevInv(l, n);
    CutNextInv(CutPrev(l, n), n);
    hide Inv;
    hide Tree;
    hide CutPrev;
    hide CutNext;
  }

  lemma LinkParent<N>(l: Links<N>, n: N)
    requires Tree(l.children, l.parent) && n in l.parent
    ensures Link(l, n).parent == l.parent
  {
    hide Tree;
  }

  lemma MoveIs<N>(l: Links<N>, p: N, n: N, i: nat)
    requires Inv(l) && p in l.children && n in l.children
    ensures var d := Detach(l, n);
            && n in l.parent && n in d.parent && p in d.children && Tree(Put(d, p, n, i).children, Put(d, p, n, i).parent)
            && Move(l, p, n, i) == Link(Put(d, p, n, i), n)
  {
    DetachInv(l, n);
    PutLinkInv(Detach(l, n), p, n, i);
    hide Detach;
    hide Link;
    hide Put;
  }

  lemma MoveParent<N>(l: Links<N>, p: N, n: N, i: nat)
    requires Inv(l) && p in l.children && n in l.children
    ensures Move(l, p, n, i).parent == l.parent[n := Some(p)]
  {
    hide *;
    MoveIs(l, p, n, i);
    DetachParent(l, n);
    PutParent(Detach(l, n), p, n, i);
    LinkParent(Put(Detach(l, n), p, n, i), n);
  }

  lemma PutParent<N>(l: Links<N>, p: N, n: N, i: nat)
    requires p in l.children && n in l.parent
    ensures Put(l, p, n, i).parent == l.parent[n := Some(p)]
  {
  }

  lemma InsertParent<N>(l: Links<N>, p: N, n: N, ref: N)
    requires Inv(l) && p in l.children && n in l.children && ref in l.children && ref in l.children[p]
    ensures InsertBefore(l, p, n, ref).value.parent == l.parent[n := Some(p)] && n in l.parent
  {
    var index := IndexOf(l.children[p], ref);
    MoveParent(l, p, n, index);
    MoveKeeps(l, p, n, index, ref);
    MoveIs(l, p, n, index);
    hide Inv;
    hide Move;
    hide Relink;
    hide RelinkBefore;
  }

  lemma InsertStill<N>(l: Links<N>, fr: set<N>, p: N, n: N, ref: N)
    requires Inv(l) && p in l.children && n in l.children && ref in l.children && ref in l.children[p] && n !in fr
    ensures Still(l, InsertBefore(l, p, n, ref).value, fr)
  {
    hide Inv;
    hide InsertBefore;
    InsertParent(l, p, n, ref);
  }

  lemma {:induction false} InsertKeepsFragments<N>(l: Links<N>, fr: set<N>, p: N, n: N, ref: N, open: set<N>)
    requires Inv(l) && p in l.children && n in l.children && ref in l.children && ref in l.children[p]
    requires Insert(l, fr, p, n, ref, open).Some?
    ensures Still(l, Insert(l, fr, p, n, ref, open).value, fr)
    decreases |fr - open|, 1, 0
  {
    hide Inv;
    hide InsertBefore;
    if n !in fr {
      InsertStill(l, fr, p, n, ref);
    } else {
      ChildrenExist(l, n);
      OneLess(fr, open, n);
      AllKeepFragments(l, fr, p, l.children[n], ref, open + {n});
    }
  }

  lemma {:induction false} AllKeepFragments<N>(l: Links<N>, fr: set<N>, p: N, nodes: seq<N>, ref: N, open: set<N>)
    requires Inv(l) && p in l.children && ref in l.children && ref in l.children[p]
    requires forall n :: n in nodes ==> n in l.children.Keys
    requires InsertAll(l, fr, p, nodes, ref, open).Some?
    ensures Still(l, InsertAll(l, fr, p, nodes, ref, open).value, fr)
    decreases |fr - open|, 2, |nodes|
  {
    hide Inv;
    if nodes != [] {
      InsertKeepsFragments(l, fr, p, nodes[0], ref, open);
      AllKeepFragments(Insert(l, fr, p, nodes[0], ref, open).value, fr, p, nodes[1..], ref, open);
    }
  }

  /** Fragments being opened, each a child of the one before. */
  ghost predicate Stack<N>(parent: map<N, Option<N>>, fr: set<N>, stack: seq<N>) {
    && Distinct(stack) && (forall x :: x in stack ==> x in fr && x in parent)
    && forall i :: 0 < i < |stack| ==> parent[stack[i]] == Some(stack[i - 1])
  }

  function Members<N>(s: seq<N>): set<N> {
    set x | x in s
  }

  lemma StillStack<N>(l: Links<N>, m: Links<N>, fr: set<N>, stack: seq<N>)
    requires Still(l, m, fr) && Stack(l.parent, fr, stack)
    ensures Stack(m.parent, fr, stack)
  {
  }

  lemma StillCircle<N>(l: Links<N>, m: Links<N>, fr: set<N>, n: N, path: seq<N>)
    requires Still(l, m, fr)
    ensures Circle(l.parent, fr, n, path) <==> Circle(m.parent, fr, n, path)
  {
  }

  lemma StackGrows<N>(parent: map<N, Option<N>>, fr: set<N>, stack: seq<N>, n: N)
    requires Stack(parent, fr, stack) && n !in stack && n in fr && n in parent
    requires stack != [] ==> parent[n] == Some(stack[|stack| - 1])
    ensures Stack(parent, fr, stack + [n]) && Members(stack + [n]) == Members(stack) + {n}
  {
  }

  lemma ParentBefore<N>(parent: map<N, Option<N>>, fr: set<N>, stack: seq<N>, i: nat)
    requires Stack(parent, fr, stack) && 0 < i < |stack|
    ensures parent[stack[i]] != Some(stack[|stack| - 1])
  {
    assert stack[i - 1] != stack[|stack| - 1];
  }

  /** What is opened while it is being opened is the first. */
  lemma OpenedTwice<N>(parent: map<N, Option<N>>, fr: set<N>, stack: seq<N>, n: N)
    requires Stack(parent, fr, stack) && stack != [] && n in stack && n in parent && parent[n] == Some(stack[|stack| - 1])
    ensures Circle(parent, fr, stack[0], stack)
  {
    var i :| 0 <= i < |stack| && stack[i] == n;
    if i > 0 {
      ParentBefore(parent, fr, stack, i);
      assert false;
    }
  }

  lemma {:induction false} InsertStuck<N>(l: Links<N>, fr: set<N>, p: N, n: N, ref: N, stack: seq<N>)
    requires Inv(l) && p in l.children && n in l.children && ref in l.children && ref in l.children[p]
    requires Stack(l.parent, fr, stack) && n in l.parent && (stack != [] ==> l.parent[n] == Some(stack[|stack| - 1]))
    requires Insert(l, fr, p, n, ref, Members(stack)) == None
    ensures HoldsItself(l, fr, (stack + [n])[0])
    decreases |fr - Members(stack)|, 1, 0
  {
    hide Inv;
    hide InsertBefore;
    if n in stack {
      OpenedTwice(l.parent, fr, stack, n);
      assert Circle(l.parent, fr, (stack + [n])[0], stack);
    } else {
      var more := stack + [n];
      assert n in fr;
      StackGrows(l.parent, fr, stack, n);
      ChildrenExist(l, n);
      OneLess(fr, Members(stack), n);
      ChildrenNamed(l, n);
      hide Stack;
      hide HoldsItself;
      AllStuck(l, fr, p, l.children[n], ref, more);
    }
  }

  lemma ChildrenNamed<N>(l: Links<N>, n: N)
    requires Inv(l) && n in l.children
    ensures forall c :: c in l.children[n] ==> c in l.parent && l.parent[c] == Some(n)
  {
  }

  lemma {:induction false} AllStuck<N>(l: Links<N>, fr: set<N>, p: N, nodes: seq<N>, ref: N, stack: seq<N>)
    requires Inv(l) && p in l.children && ref in l.children && ref in l.children[p] && stack != []
    requires forall n :: n in nodes ==> n in l.children.Keys
    requires Stack(l.parent, fr, stack)
    requires forall n :: n in nodes && n in fr ==> n in l.parent && l.parent[n] == Some(stack[|stack| - 1])
    requires InsertAll(l, fr, p, nodes, ref, Members(stack)) == None
    ensures HoldsItself(l, fr, stack[0])
    decreases |fr - Members(stack)|, 2, |nodes|
  {
    hide Inv;
    hide InsertBefore;
    var open := Members(stack);
    if Insert(l, fr, p, nodes[0], ref, open) == None {
      InsertStuck(l, fr, p, nodes[0], ref, stack);
    } else {
      var m := Insert(l, fr, p, nodes[0], ref, open).value;
      InsertKeepsFragments(l, fr, p, nodes[0], ref, open);
      StillStack(l, m, fr, stack);
      AllStuck(m, fr, p, nodes[1..], ref, stack);
      var path :| Circle(m.parent, fr, stack[0], path);
      StillCircle(l, m, fr, stack[0], path);
    }
  }

  /** Opening the i-th fragment of a circle never ends. */
  lemma {:induction false} CircleLoops<N>(l: Links<N>, fr: set<N>, p: N, ref: N, open: set<N>, path: seq<N>, i: nat)
    requires Inv(l) && p in l.children && ref in l.children && ref in l.children[p]
    requires path != [] && Circle(l.parent, fr, path[0], path) && i <= |path| && (i > 0 ==> path[0] in open)
    ensures var n := if i < |path| then path[i] else path[0];
            n in l.children && Insert(l, fr, p, n, ref, open) == None
    decreases |fr - open|, 1, 0
  {
    var n := if i < |path| then path[i] else path[0];
    assert n in path && n in l.children;
    if n !in open {
      var next := if i + 1 < |path| then path[i + 1] else path[0];
      assert next in path && l.parent[next] == Some(n);
      assert next in l.children[n];
      hide Inv;
      ChildrenExist(l, n);
      OneLess(fr, open, n);
      CircleLoopsIn(l, fr, p, l.children[n], ref, open + {n}, path, i + 1);
    }
  }

  lemma {:induction false} CircleLoopsIn<N>(l: Links<N>, fr: set<N>, p: N, nodes: seq<N>, ref: N, open: set<N>, path: seq<N>, i: nat)
    requires Inv(l) && p in l.children && ref in l.children && ref in l.children[p]
    requires forall n :: n in nodes ==> n in l.children.Keys
    requires path != [] && Circle(l.parent, fr, path[0], path) && 0 < i <= |path| && path[0] in open
    requires (if i < |path| then path[i] else path[0]) in nodes
    ensures InsertAll(l, fr, p, nodes, ref, open) == None
    decreases |fr - open|, 2, |nodes|
  {
    hide Inv;
    hide InsertBefore;
    if nodes[0] == if i < |path| then path[i] else path[0] {
      CircleLoops(l, fr, p, ref, open, path, i);
    } else if Insert(l, fr, p, nodes[0], ref, open).Some? {
      var m := Insert(l, fr, p, nodes[0], ref, open).value;
      InsertKeepsFragments(l, fr, p, nodes[0], ref, open);
      StillCircle(l, m, fr, path[0], path);
      CircleLoopsIn(m, fr, p, nodes[1..], ref, open, path, i);
    }
  }

  /** Inserting a fragment never ends if and only if it holds itself, perhaps in other fragments. */
  lemma InsertEndsIff<N>(l: Links<N>, fr: set<N>, p: N, n: N, ref: N)
    requires Inv(l) && p in l.children && n in l.children && ref in l.children && ref in l.children[p]
    ensures Insert(l, fr, p, n, ref, {}).Some? <==> !(n in fr && HoldsItself(l, fr, n))
  {
    if Insert(l, fr, p, n, ref, {}) == None {
      assert Members<N>([]) == {};
      InsertStuck(l, fr, p, n, ref, []);
      assert ([] + [n])[0] == n;
    }
    if HoldsItself(l, fr, n) {
      var path :| Circle(l.parent, fr, n, path);
      CircleLoops(l, fr, p, ref, {}, path, 0);
    }
  }

  // ------------------------------------------------------------------- runs

  /** A call of `appendChild`, `insertBefore`, `replaceChild` or `removeChild`. */
  datatype Op<N> =
    | AppendChild(parent: N, child: N)
    | InsertChild(parent: N, child: N, reference: N)
    | ReplaceChild(parent: N, child: N, replaced: N)
    | RemoveChild(parent: N, child: N)

  datatype Effect<N(==)> = Changed(links: Links<N>) | Thrown | Endless

  /** The nodes an operation names exist. */
  ghost predicate Known<N>(nodes: set<N>, op: Op<N>) {
    && op.parent in nodes && op.child in nodes
    && (op.InsertChild? ==> op.reference in nodes) && (op.ReplaceChild? ==> op.replaced in nodes)
  }

  /** What an operation demands of the links: the reference or the replaced node is a child. */
  ghost predicate Possible<N>(l: Links<N>, op: Op<N>)
    requires Inv(l) && Known(l.children.Keys, op)
  {
    match op
    case AppendChild(_, _) => true
    case InsertChild(p, _, r) => r in l.children[p]
    case ReplaceChild(p, _, o) => o in l.children[p]
    case RemoveChild(p, n) => l.parent[n] == Some(p)
  }

  /** What an operation does: it throws, changing nothing, exactly when it is not possible, and never ends
      exactly when a fragment is inserted that holds itself. */
  function Apply<N(==)>(l: Links<N>, fr: set<N>, op: Op<N>): (r: Effect<N>)
    requires Inv(l) && Known(l.children.Keys, op)
    ensures r.Changed? ==> Inv(r.links) && r.links.children.Keys == l.children.Keys
    ensures r.Thrown? <==> !Possible(l, op)
    ensures r.Endless? <==> op.InsertChild? && Possible(l, op) && op.child in fr && HoldsItself(l, fr, op.child)
  {
    hide Inv;
    hide HoldsItself;
    match op
    case AppendChild(p, n) =>
      ChildrenExist(l, n);
      Changed(if n in fr then AppendEach(l, p, l.children[n]) else Append(l, p, n))
    case InsertChild(p, n, r) =>
      if r !in l.children[p] then Thrown
      else
        InsertEndsIff(l, fr, p, n, r);
        Returned(Insert(l, fr, p, n, r, {}), Endless)
    case ReplaceChild(p, n, o) => Returned(Replace(l, p, n, o), Thrown)
    case RemoveChild(p, n) => Returned(Remove(l, p, n), Thrown)
  }

  function Returned<N(==)>(r: Option<Links<N>>, otherwise: Effect<N>): Effect<N> {
    match r
    case Some(l) => Changed(l)
    case None => otherwise
  }

  /** A run: operations that throw have no effect; none if one never ends. */
  ghost function Run<N>(l: Links<N>, fr: set<N>, ops: seq<Op<N>>): Option<Links<N>>
    requires Inv(l) && forall op :: op in ops ==> Known(l.children.Keys, op)
    decreases |ops|
  {
    hide Inv;
    hide Apply;
    if ops == [] then Some(l)
    else
      match Apply(l, fr, ops[0])
      case Changed(m) => Run(m, fr, ops[1..])
      case Thrown => Run(l, fr, ops[1..])
      case Endless => None
  }

  /** Nodes without any links. */
  function Unlinked<N(==)>(nodes: set<N>): Links<N> {
    Links(map n | n in nodes :: [], map n | n in nodes :: None, map n | n in nodes :: None, map n | n in nodes :: None)
  }

  lemma {:induction false} RunInv<N>(l: Links<N>, fr: set<N>, ops: seq<Op<N>>)
    requires Inv(l) && forall op :: op in ops ==> Known(l.children.Keys, op)
    ensures var r := Run(l, fr, ops); r.Some? ==> Inv(r.value) && r.value.children.Keys == l.children.Keys
    decreases |ops|
  {
    hide Inv;
    hide Apply;
    if ops != [] {
      match Apply(l, fr, ops[0])
      case Changed(m) => RunInv(m, fr, ops[1..]);
      case Thrown => RunInv(l, fr, ops[1..]);
      case Endless =>
    }
  }

  /** After every run from unlinked nodes, a node is listed exactly once in the children of its
      parent and nowhere else, and every sibling link is mutual and joins neighbours. */
  lemma RunsKeepLinksConsistent<N>(nodes: set<N>, fr: set<N>, ops: seq<Op<N>>)
    requires forall op :: op in ops ==> Known(nodes, op)
    ensures Inv(Unlinked(nodes)) && Unlinked(nodes).children.Keys == nodes
    ensures var r := Run(Unlinked(nodes), fr, ops); r.Some? ==> Inv(r.value)
  {
    RunInv(Unlinked(nodes), fr, ops);
  }

  // ------------------------------------------------ runs without such fragments

  /** No fragment is a child. */
  ghost predicate Loose<N>(l: Links<N>, fr: set<N>) {
    forall c :: c in fr && c in l.parent ==> l.parent[c] == None
  }

  lemma MoveLoose<N>(l: Links<N>, fr: set<N>, p: N, n: N, i: nat)
    requires Inv(l) && Loose(l, fr) && p in l.children && n in l.children && n !in fr
    ensures Loose(Move(l, p, n, i), fr)
  {
    MoveIs(l, p, n, i);
    MoveParent(l, p, n, i);
    hide Inv;
    hide Move;
  }

  lemma {:induction false} AppendsLoose<N>(l: Links<N>, fr: set<N>, p: N, nodes: seq<N>)
    requires Inv(l) && Loose(l, fr) && p in l.children && forall n :: n in nodes ==> n in l.children.Keys && n !in fr
    ensures Loose(AppendEach(l, p, nodes), fr)
    decreases |nodes|
  {
    hide Inv;
    hide Loose;
    hide Move;
    if nodes != [] {
      MoveLoose(l, fr, p, nodes[0], |l.children[p]|);
      AppendsLoose(Append(l, p, nodes[0]), fr, p, nodes[1..]);
    }
  }

  lemma DetachLoose<N>(l: Links<N>, fr: set<N>, n: N)
    requires Inv(l) && Loose(l, fr) && n in l.children
    ensures n in l.parent && Loose(Detached(l, n), fr)
  {
    assert n in l.parent;
    DetachParent(l, n);
    hide Inv;
    hide Detach;
  }

  lemma LooseChildren<N>(l: Links<N>, fr: set<N>, p: N)
    requires Inv(l) && Loose(l, fr) && p in l.children
    ensures forall c :: c in l.children[p] ==> c !in fr
  {
    ChildrenNamed(l, p);
    hide Inv;
  }

  lemma ApplyLoose<N>(l: Links<N>, fr: set<N>, op: Op<N>)
    requires Inv(l) && Loose(l, fr) && Known(l.children.Keys, op) && (op.ReplaceChild? ==> op.child !in fr)
    ensures !Apply(l, fr, op).Endless? && (Apply(l, fr, op).Changed? ==> Loose(Apply(l, fr, op).links, fr))
  {
    NotInItself(l, fr, op.child);
    hide Inv;
    hide Loose;
    hide HoldsItself;
    match op
    case AppendChild(p, n) =>
      ChildrenExist(l, n);
      LooseChildren(l, fr, n);
      if n in fr {
        AppendsLoose(l, fr, p, l.children[n]);
      } else {
        MoveLoose(l, fr, p, n, |l.children[p]|);
      }
    case InsertChild(p, n, r) =>
      if r in l.children[p] && Insert(l, fr, p, n, r, {}).Some? {
        InsertKeepsFragments(l, fr, p, n, r, {});
        StillLoose(l, Insert(l, fr, p, n, r, {}).value, fr);
      }
    case ReplaceChild(p, n, o) =>
      DetachLoose(l, fr, o);
      MoveLoose(Detached(l, o), fr, p, n, IndexOf(l.children[p], o));
    case RemoveChild(p, n) => DetachLoose(l, fr, n);
  }

  lemma NotInItself<N>(l: Links<N>, fr: set<N>, n: N)
    requires Loose(l, fr)
    ensures !(n in fr && HoldsItself(l, fr, n))
  {
  }

  lemma StillLoose<N>(l: Links<N>, m: Links<N>, fr: set<N>)
    requires Still(l, m, fr) && Loose(l, fr)
    ensures Loose(m, fr)
  {
  }

  /** Only `replaceChild` makes a fragment a child: without that every operation of every run ends. */
  lemma {:induction false} RunsEnd<N>(l: Links<N>, fr: set<N>, ops: seq<Op<N>>)
    requires Inv(l) && Loose(l, fr)
    requires forall op :: op in ops ==> Known(l.children.Keys, op) && (op.ReplaceChild? ==> op.child !in fr)
    ensures Run(l, fr, ops).Some?
    decreases |ops|
  {
    hide Inv;
    hide Apply;
    hide Loose;
    hide Known;
    if ops != [] {
      ApplyLoose(l, fr, ops[0]);
      match Apply(l, fr, ops[0])
      case Changed(m) => RunsEnd(m, fr, ops[1..]);
      case Thrown => RunsEnd(l, fr, ops[1..]);
    }
  }
}
