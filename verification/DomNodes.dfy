/** DOM nodes as objects. Each operation changes the links of the heap exactly as the functions of
    DomLinks and DomRuns say, so whatever is proved of those holds of every run of the methods. */
module DomNodes {
  import opened Basics
  import opened DomLinks
  import opened DomRuns

  /** How a call ends: normally, with an exception, or never. */
  datatype Status = Done | Failed | Overflow

  class Node {
    const isFragment: bool
    var childNodes: seq<Node>
    var parentNode: Node?
    var previousSibling: Node?
    var nextSibling: Node?

    constructor (isFragment: bool)
      ensures childNodes == [] && parentNode == null && previousSibling == null && nextSibling == null
      ensures this.isFragment == isFragment
    {
      this.isFragment := isFragment;
      childNodes, parentNode, previousSibling, nextSibling := [], null, null, null;
    }

    /** `_removeReferences` */
    method RemoveReferences(ghost all: set<Node>)
      requires this in all && Inv(Snap(all))
      modifies all
      ensures Snap(all) == Detach(old(Snap(all)), this)
    {
      ghost var l := Snap(all);
      CutPrevInv(l, this);
      CutNextInv(CutPrev(l, this), this);
      CutPrevious(all);
      CutFollowing(all);
      LeaveParent(all);
    }

    method CutPrevious(ghost all: set<Node>)
      requires this in all && Symmetric(PrevsOf(all), NextsOf(all))
      modifies all`previousSibling, all`nextSibling
      ensures Snap(all) == CutPrev(old(Snap(all)), this)
    {
      if previousSibling != null {
        assert PrevsOf(all)[this] == Some(previousSibling);
        Unlink(all, previousSibling, this);
      }
    }

    method CutFollowing(ghost all: set<Node>)
      requires this in all && Symmetric(PrevsOf(all), NextsOf(all))
      modifies all`previousSibling, all`nextSibling
      ensures Snap(all) == CutNext(old(Snap(all)), this)
    {
      if nextSibling != null {
        assert NextsOf(all)[this] == Some(nextSibling);
        Unlink(all, this, nextSibling);
      }
    }

    /** Clears the links between `a` and its next sibling `b`. */
    static method Unlink(ghost all: set<Node>, a: Node, b: Node)
      requires a in all && b in all
      modifies all`previousSibling, all`nextSibling
      ensures NextsOf(all) == old(NextsOf(all))[a := None] && PrevsOf(all) == old(PrevsOf(all))[b := None]
    {
      a.nextSibling := null;
      b.previousSibling := null;
    }

    /** Makes `b` the next sibling of `a`. */
    static method Join(ghost all: set<Node>, a: Node, b: Node)
      requires a in all && b in all
      modifies all`previousSibling, all`nextSibling
      ensures NextsOf(all) == old(NextsOf(all))[a := Some(b)] && PrevsOf(all) == old(PrevsOf(all))[b := Some(a)]
    {
      a.nextSibling := b;
      b.previousSibling := a;
    }

    /** Links two listed nodes to each other. */
    static method JoinPair(ghost all: set<Node>, list: seq<Node>, i: nat)
      requires i + 1 < |list| && list[i] in all && list[i + 1] in all
      modifies all`previousSibling, all`nextSibling
      ensures Snap(all) == LinkPair(old(Snap(all)), list, i)
    {
      Join(all, list[i], list[i + 1]);
    }

    method LeaveParent(ghost all: set<Node>)
      requires this in all && Tree(ChildrenOf(all), ParentsOf(all))
      modifies all`childNodes, all`parentNode
      ensures Snap(all) == CutParent(old(Snap(all)), this)
    {
      if parentNode != null {
        assert ParentsOf(all)[this] == Some(parentNode) && this in ChildrenOf(all)[parentNode];
        hide Tree;
        var index := IndexOf(parentNode.childNodes, this);
        Assign(all, parentNode, RemoveAt(parentNode.childNodes, index), this, null);
      }
    }

    /** Gives `p` the children `list` and `n` the parent `parent`. */
    static method Assign(ghost all: set<Node>, p: Node, list: seq<Node>, n: Node, parent: Node?)
      requires p in all && n in all
      modifies all`childNodes, all`parentNode
      ensures ChildrenOf(all) == old(ChildrenOf(all))[p := list] && ParentsOf(all) == old(ParentsOf(all))[n := Opt(parent)]
    {
      p.childNodes := list;
      n.parentNode := parent;
    }

    /** `_addReferences` */
    method AddReferences(ghost all: set<Node>)
      requires this in all && Tree(ChildrenOf(all), ParentsOf(all))
      modifies all`previousSibling, all`nextSibling
      ensures Snap(all) == Link(old(Snap(all)), this)
    {
      if parentNode == null { return; }
      assert ParentsOf(all)[this] == Some(parentNode) && this in ChildrenOf(all)[parentNode];
      assert ParentsOf(all)[this].value in ChildrenOf(all);
      ListedExist(all, parentNode);
      assert ChildrenOf(all)[parentNode] == parentNode.childNodes;
      ghost var l, list := Snap(all), parentNode.childNodes;
      ghost var at := IndexOf(list, this);
      assert Link(l, this) == LinkAt(l, list, at);
      hide Tree;
      hide LinkPair;
      hide Link;
      var index := IndexOf(parentNode.childNodes, this);
      if index > 0 {
        JoinPair(all, parentNode.childNodes, index - 1);
      }
      if index < |parentNode.childNodes| - 1 {
        JoinPair(all, parentNode.childNodes, index);
      }
    }

    /** Takes `node` from where it is and splices it into the children at `index`. */
    method Place(ghost all: set<Node>, node: Node, index: nat)
      requires this in all && node in all && Inv(Snap(all))
      modifies all
      ensures Snap(all) == Move(old(Snap(all)), this, node, index)
    {
      ghost var l := Snap(all);
      DetachInv(l, node);
      PutLinkInv(Detach(l, node), this, node, index);
      hide Inv;
      hide Link;
      node.RemoveReferences(all);
      Splice(all, node, index);
      node.AddReferences(all);
    }

    method Splice(ghost all: set<Node>, node: Node, index: nat)
      requires this in all && node in all
      modifies all`childNodes, all`parentNode
      ensures Snap(all) == Put(old(Snap(all)), this, node, index)
    {
      Assign(all, this, InsertAt(childNodes, index, node), node, this);
    }

    method AppendChild(ghost all: set<Node>, node: Node)
      requires this in all && node in all && Inv(Snap(all))
      modifies all
      ensures Changed(Snap(all)) == Apply(old(Snap(all)), FragmentsOf(all), Op.AppendChild(this, node))
    {
      if node.isFragment {
        assert Snap(all).children[node] == node.childNodes;
        ListedExist(all, node);
        AppendNodes(all, node.childNodes);
      } else {
        AppendOne(all, node);
      }
    }

    method AppendOne(ghost all: set<Node>, node: Node)
      requires this in all && node in all && Inv(Snap(all))
      modifies all
      ensures Snap(all) == Append(old(Snap(all)), this, node)
    {
      hide Inv;
      hide Move;
      assert Snap(all).children[this] == childNodes;
      Place(all, node, |childNodes|);
    }

    /** The nodes of a copied child list, one after the other. */
    method AppendNodes(ghost all: set<Node>, nodes: seq<Node>)
      requires this in all && Inv(Snap(all)) && forall n :: n in nodes ==> n in all
      modifies all
      ensures Snap(all) == AppendEach(old(Snap(all)), this, nodes)
    {
      hide Inv;
      hide Append;
      ghost var goal := AppendEach(Snap(all), this, nodes);
      var rest := nodes;
      while rest != []
        invariant Inv(Snap(all)) && forall n :: n in rest ==> n in all
        invariant AppendEach(Snap(all), this, rest) == goal
        decreases |rest|
      {
        AppendOne(all, rest[0]);
        rest := rest[1..];
      }
    }

    /** Fails when the reference is not a child. */
    method InsertBefore(ghost all: set<Node>, newNode: Node, referenceNode: Node?) returns (status: Status)
      requires this in all && newNode in all && Inv(Snap(all))
      requires referenceNode != null ==> referenceNode in all
      modifies all
      ensures Ends(old(Snap(all)), status, Snap(all), FragmentsOf(all), Insertion(this, newNode, referenceNode))
    {
      if referenceNode == null {
        AppendChild(all, newNode);
        return Done;
      }
      hide Inv;
      hide Insert;
      InsertEnds(Snap(all), FragmentsOf(all), this, newNode, referenceNode);
      status := InsertOpen(all, newNode, referenceNode, {});
    }

    /** The same with a reference, and inside itself: `open` are the fragments on the call stack, which
        overflows if one of them is opened again. */
    method InsertOpen(ghost all: set<Node>, newNode: Node, referenceNode: Node, open: set<Node>) returns (status: Status)
      requires this in all && newNode in all && referenceNode in all && Inv(Snap(all))
      modifies all
      ensures status == Failed <==> old(referenceNode !in childNodes)
      ensures status == Failed ==> Snap(all) == old(Snap(all))
      ensures status != Failed ==>
                Insert(old(Snap(all)), FragmentsOf(all), this, newNode, referenceNode, open) ==
                if status == Done then Some(Snap(all)) else None
      decreases |FragmentsOf(all) - open|, 1, 0
    {
      assert Snap(all).children[this] == childNodes && Snap(all).children[newNode] == newNode.childNodes;
      ListedExist(all, newNode);
      hide Inv;
      hide DomLinks.InsertBefore;
      if IndexOf(childNodes, referenceNode) == |childNodes| { return Failed; }
      if newNode.isFragment {
        if newNode in open { return Overflow; }
        OneLess(FragmentsOf(all), open, newNode);
        status := InsertNodes(all, newNode.childNodes, referenceNode, open + {newNode});
      } else {
        var ok := InsertOne(all, newNode, referenceNode);
        status := Done;
      }
    }

    /** The nodes of a copied child list, one after the other. */
    method InsertNodes(ghost all: set<Node>, nodes: seq<Node>, referenceNode: Node, open: set<Node>) returns (status: Status)
      requires this in all && referenceNode in all && Inv(Snap(all)) && forall n :: n in nodes ==> n in all
      requires referenceNode in childNodes
      modifies all
      ensures status != Failed
      ensures InsertAll(old(Snap(all)), FragmentsOf(all), this, nodes, referenceNode, open) ==
              if status == Done then Some(Snap(all)) else None
      decreases |FragmentsOf(all) - open|, 1, 1
    {
      hide Inv;
      hide Insert;
      ghost var fr := FragmentsOf(all);
      ghost var goal := InsertAll(Snap(all), fr, this, nodes, referenceNode, open);
      var rest := nodes;
      while rest != []
        invariant Inv(Snap(all)) && (forall n :: n in rest ==> n in all) && referenceNode in Snap(all).children[this]
        invariant InsertAll(Snap(all), fr, this, rest, referenceNode, open) == goal
        decreases |rest|
      {
        assert Snap(all).children[this] == childNodes;
        status := InsertOpen(all, rest[0], referenceNode, open);
        if status == Overflow { return; }
        rest := rest[1..];
      }
      return Done;
    }

    method InsertOne(ghost all: set<Node>, newNode: Node, referenceNode: Node) returns (ok: bool)
      requires this in all && newNode in all && referenceNode in all && Inv(Snap(all))
      modifies all
      ensures var r := DomLinks.InsertBefore(old(Snap(all)), this, newNode, referenceNode);
              ok == r.Some? && Snap(all) == if ok then r.value else old(Snap(all))
    {
      hide Inv;
      hide Move;
      hide Relink;
      assert Snap(all).children[this] == childNodes;
      var index := IndexOf(childNodes, referenceNode);
      if index == |childNodes| { return false; }
      Place(all, newNode, index);
      RelinkNode(all, referenceNode);
      RelinkPrevious(all, index);
      return true;
    }

    /** The child before `index` is linked again. */
    method RelinkPrevious(ghost all: set<Node>, index: nat)
      requires this in all && Inv(Snap(all))
      modifies all
      ensures Snap(all) == RelinkBefore(old(Snap(all)), this, index)
    {
      assert Snap(all).children[this] == childNodes;
      if 0 < index <= |childNodes| {
        ListedExist(all, this);
        RelinkNode(all, childNodes[index - 1]);
      }
    }

    static method RelinkNode(ghost all: set<Node>, node: Node)
      requires node in all && Inv(Snap(all))
      modifies all
      ensures Snap(all) == Relink(old(Snap(all)), node)
    {
      node.AddReferences(all);
    }

    /** False when `oldChild` is not a child. */
    method ReplaceChild(ghost all: set<Node>, newChild: Node, oldChild: Node) returns (ok: bool)
      requires this in all && newChild in all && oldChild in all && Inv(Snap(all))
      modifies all
      ensures Ends(old(Snap(all)), if ok then Done else Failed, Snap(all), FragmentsOf(all), Op.ReplaceChild(this, newChild, oldChild))
    {
      ReplaceEnds(Snap(all), FragmentsOf(all), this, newChild, oldChild);
      DetachInv(Snap(all), oldChild);
      assert Snap(all).children[this] == childNodes;
      hide Inv;
      hide Apply;
      hide Move;
      hide Detach;
      var index := IndexOf(childNodes, oldChild);
      if index == |childNodes| { return false; }
      oldChild.RemoveReferences(all);
      Place(all, newChild, index);
      return true;
    }

    /** False when `child` has another parent. */
    method RemoveChild(ghost all: set<Node>, child: Node) returns (ok: bool)
      requires this in all && child in all && Inv(Snap(all))
      modifies all
      ensures Ends(old(Snap(all)), if ok then Done else Failed, Snap(all), FragmentsOf(all), Op.RemoveChild(this, child))
    {
      if child.parentNode != this { return false; }
      child.RemoveReferences(all);
      return true;
    }
  }

  /** The operation a call of `insertBefore` asks for. */
  function Insertion(p: Node, n: Node, ref: Node?): Op<Node> {
    if ref == null then Op.AppendChild(p, n)
    else
      var r: Node := ref;
      Op.InsertChild(p, n, r)
  }

  /** The call has ended as the operation does, with these links; a failure changes nothing. */
  ghost predicate Ends(before: Links<Node>, status: Status, after: Links<Node>, fr: set<Node>, op: Op<Node>)
    requires Inv(before) && Known(before.children.Keys, op)
  {
    match status
    case Done => Apply(before, fr, op) == Changed(after)
    case Failed => Apply(before, fr, op) == Thrown && after == before
    case Overflow => Apply(before, fr, op) == Endless
  }

  lemma ReplaceEnds(l: Links<Node>, fr: set<Node>, p: Node, n: Node, out: Node)
    requires Inv(l) && p in l.children && n in l.children && out in l.children
    ensures Apply(l, fr, Op.ReplaceChild(p, n, out)) ==
            var index := IndexOf(l.children[p], out);
            if index == |l.children[p]| then Thrown else Changed(Move(Detached(l, out), p, n, index))
  {
    hide Inv;
    hide Detach;
    hide Move;
  }

  lemma InsertEnds(l: Links<Node>, fr: set<Node>, p: Node, n: Node, ref: Node)
    requires Inv(l) && p in l.children && n in l.children && ref in l.children
    ensures Apply(l, fr, Op.InsertChild(p, n, ref)) ==
            if ref !in l.children[p] then Thrown
            else
              var r := Insert(l, fr, p, n, ref, {});
              if r.Some? then Changed(r.value) else Endless
  {
    hide Inv;
    hide Insert;
  }

  function Opt(n: Node?): Option<Node> {
    if n == null then None else Some(n)
  }

  lemma ListedExist(all: set<Node>, p: Node)
    requires p in all && Tree(ChildrenOf(all), ParentsOf(all))
    ensures forall c :: c in p.childNodes ==> c in all
  {
    assert ChildrenOf(all)[p] == p.childNodes;
    forall c | c in p.childNodes ensures c in all {
      assert c in ChildrenOf(all)[p];
      assert c in ParentsOf(all);
    }
  }

  ghost function FragmentsOf(all: set<Node>): set<Node> {
    set n | n in all && n.isFragment
  }

  ghost function ChildrenOf(all: set<Node>): map<Node, seq<Node>>
    reads all`childNodes
  {
    map n | n in all :: n.childNodes
  }

  ghost function ParentsOf(all: set<Node>): map<Node, Option<Node>>
    reads all`parentNode
  {
    map n | n in all :: Opt(n.parentNode)
  }

  ghost function PrevsOf(all: set<Node>): map<Node, Option<Node>>
    reads all`previousSibling
  {
    map n | n in all :: Opt(n.previousSibling)
  }

  ghost function NextsOf(all: set<Node>): map<Node, Option<Node>>
    reads all`nextSibling
  {
    map n | n in all :: Opt(n.nextSibling)
  }

  /** The links of the nodes in the heap, as a value. */
  ghost function Snap(all: set<Node>): Links<Node>
    reads all`childNodes, all`parentNode, all`previousSibling, all`nextSibling
  {
    Links(ChildrenOf(all), ParentsOf(all), PrevsOf(all), NextsOf(all))
  }
}
