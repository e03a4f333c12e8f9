/** Trees in normal form: no text node is empty or next to another one. `normalize` brings the children
    of one node into this form; writing and parsing a tree brings all of it. */
module DomNormal {
  import opened Basics
  import opened DomTree

  function TextIf(data: string): seq<Node> {
    if data == "" then [] else [Text(data)]
  }

  /** The children with adjacent texts merged and empty ones dropped; `pending` is text before them. */
  function Merged(pending: string, nodes: seq<Node>): seq<Node>
    decreases |nodes|
  {
    if nodes == [] then TextIf(pending)
    else if nodes[0].Text? then Merged(pending + nodes[0].data, nodes[1..])
    else TextIf(pending) + [nodes[0]] + Merged("", nodes[1..])
  }

  function NormalForm(n: Node): Node {
    match n
    case Element(name, attributes, childNodes) => Element(name, attributes, Merged("", NormalForms(childNodes)))
    case _ => n
  }

  function NormalForms(nodes: seq<Node>): (r: seq<Node>)
    ensures |r| == |nodes|
  {
    if nodes == [] then [] else [NormalForm(nodes[0])] + NormalForms(nodes[1..])
  }

  /** No text is empty or next to another one, at this level and below. */
  ghost predicate Normal(nodes: seq<Node>) {
    nodes == [] ||
    (&& NormalNode(nodes[0]) && nodes[0] != Text("") && Normal(nodes[1..])
     && !(|nodes| > 1 && nodes[0].Text? && nodes[1].Text?))
  }

  ghost predicate NormalNode(n: Node) {
    n.Element? ==> Normal(n.childNodes)
  }

  ghost predicate AllNormal(nodes: seq<Node>) {
    nodes == [] || (NormalNode(nodes[0]) && AllNormal(nodes[1..]))
  }

  /** Merging normal nodes gives a normal list. */
  lemma {:induction false} MergedNormal(pending: string, nodes: seq<Node>)
    requires AllNormal(nodes)
    ensures Normal(Merged(pending, nodes))
    ensures nodes != [] && pending == "" && !nodes[0].Text? ==> Merged(pending, nodes) != [] && !Merged(pending, nodes)[0].Text?
    decreases |nodes|
  {
    assert Normal([]);
    if nodes == [] {
      NormalCons(pending, []);
    } else if nodes[0].Text? {
      MergedNormal(pending + nodes[0].data, nodes[1..]);
    } else {
      MergedNormal("", nodes[1..]);
      var rest := Merged("", nodes[1..]);
      assert ([nodes[0]] + rest)[1..] == rest;
      NormalCons(pending, [nodes[0]] + rest);
      AppendAssociates(TextIf(pending), [nodes[0]], rest);
    }
  }

  lemma NormalCons(pending: string, rest: seq<Node>)
    requires Normal(rest) && (rest != [] ==> !rest[0].Text?)
    ensures Normal(TextIf(pending) + rest)
  {
    if pending == "" {
      AppendNothing(rest);
    } else {
      assert ([Text(pending)] + rest)[1..] == rest;
    }
  }

  /** Every normal form is normal. */
  lemma {:induction false} NormalFormIsNormal(n: Node)
    ensures NormalNode(NormalForm(n))
    decreases n, 1
  {
    if n.Element? {
      NormalFormsNormal(n.childNodes);
      MergedNormal("", NormalForms(n.childNodes));
    }
  }

  lemma {:induction false} NormalFormsNormal(nodes: seq<Node>)
    ensures AllNormal(NormalForms(nodes))
    decreases nodes, 0
  {
    if nodes != [] {
      NormalFormIsNormal(nodes[0]);
      NormalFormsNormal(nodes[1..]);
    }
  }

  /** A normal list is its own merging. */
  lemma {:induction false} MergedOfNormal(nodes: seq<Node>)
    requires Normal(nodes)
    ensures Merged("", nodes) == nodes
    decreases |nodes|
  {
    if nodes != [] {
      MergedOfNormal(nodes[1..]);
      assert [nodes[0]] + nodes[1..] == nodes;
      if nodes[0].Text? {
        MergedAfterText(nodes[0].data, nodes[1..]);
      } else {
        AppendNothing([nodes[0]]);
      }
    }
  }

  lemma MergedAfterText(data: string, rest: seq<Node>)
    requires data != "" && (rest != [] ==> !rest[0].Text?)
    ensures Merged("" + data, rest) == [Text(data)] + Merged("", rest)
  {
    assert "" + data == data;
    if rest == [] {
      AppendNothing([Text(data)]);
    } else {
      var after := Merged("", rest[1..]);
      AppendAssociates([Text(data)], [rest[0]], after);
      AppendNothing([rest[0]]);
    }
  }

  /** The normal form of a tree in normal form is the tree. */
  lemma {:induction false} NormalFormOfNormal(n: Node)
    requires NormalNode(n)
    ensures NormalForm(n) == n
    decreases n, 1
  {
    if n.Element? {
      NormalFormsOfNormal(n.childNodes);
      MergedOfNormal(n.childNodes);
    }
  }

  lemma {:induction false} NormalFormsOfNormal(nodes: seq<Node>)
    requires Normal(nodes)
    ensures NormalForms(nodes) == nodes
    decreases nodes, 0
  {
    if nodes != [] {
      NormalFormOfNormal(nodes[0]);
      NormalFormsOfNormal(nodes[1..]);
      assert [nodes[0]] + nodes[1..] == nodes;
    }
  }

  lemma {:induction false} AllNormalForms(nodes: seq<Node>)
    ensures NormalForms(nodes) == nodes <==> AllNormal(nodes)
    decreases |nodes|
  {
    if nodes != [] {
      NormalFormIsNormal(nodes[0]);
      AllNormalForms(nodes[1..]);
      var forms := NormalForms(nodes);
      assert forms[0] == NormalForm(nodes[0]) && forms[1..] == NormalForms(nodes[1..]);
      if AllNormal(nodes) {
        NormalFormOfNormal(nodes[0]);
        assert [nodes[0]] + nodes[1..] == nodes;
      }
    }
  }

  // ------------------------------------------------------------------ normalize

  /** The text of all the text nodes in a row of children, one after the other. */
  function TextOf(nodes: seq<Node>): string {
    if nodes == [] then "" else (if nodes[0].Text? then nodes[0].data else "") + TextOf(nodes[1..])
  }

  function Others(nodes: seq<Node>): seq<Node> {
    if nodes == [] then [] else (if nodes[0].Text? then [] else [nodes[0]]) + Others(nodes[1..])
  }

  /** Merging keeps the text and every other node, in order. */
  lemma {:induction false} MergedKeeps(pending: string, nodes: seq<Node>)
    ensures TextOf(Merged(pending, nodes)) == pending + TextOf(nodes) && Others(Merged(pending, nodes)) == Others(nodes)
    decreases |nodes|
  {
    if nodes == [] {
      TextIfKeeps(pending, []);
      AppendNothing(TextIf(pending));
      AppendNothing(pending);
    } else if nodes[0].Text? {
      MergedKeeps(pending + nodes[0].data, nodes[1..]);
      AppendAssociates(pending, nodes[0].data, TextOf(nodes[1..]));
      AppendNothing(Others(nodes[1..]));
    } else {
      MergedKeeps("", nodes[1..]);
      var rest := Merged("", nodes[1..]);
      assert ([nodes[0]] + rest)[1..] == rest;
      AppendNothing(TextOf(nodes[1..]));
      AppendNothing(TextOf(rest));
      TextIfKeeps(pending, [nodes[0]] + rest);
      AppendAssociates(TextIf(pending), [nodes[0]], rest);
    }
  }

  lemma TextIfKeeps(pending: string, rest: seq<Node>)
    ensures TextOf(TextIf(pending) + rest) == pending + TextOf(rest) && Others(TextIf(pending) + rest) == Others(rest)
  {
    AppendNothing(rest);
    AppendNothing(TextOf(rest));
    AppendNothing(Others(rest));
    if pending != "" {
      assert ([Text(pending)] + rest)[1..] == rest;
    }
  }

  /** A parent of text nodes and others. */
  class Parent {
    var childNodes: seq<Node>

    constructor (childNodes: seq<Node>)
      ensures this.childNodes == childNodes
    {
      this.childNodes := childNodes;
    }

    method RemoveAt(index: nat)
      requires index < |childNodes|
      modifies this
      ensures childNodes == old(childNodes)[..index] + old(childNodes)[index + 1..]
    {
      childNodes := childNodes[..index] + childNodes[index + 1..];
    }

    /** `normalize`: the loop goes over the children that are left, and takes texts out or adds them to
        the one before. */
    method Normalize()
      modifies this
      ensures childNodes == Merged("", old(childNodes))
    {
      ghost var goal := Merged("", childNodes);
      var index, lastText := 0, None;
      SuffixEnds(childNodes);
      AppendNothing(goal);
      while index < |childNodes|
        invariant index <= |childNodes|
        invariant lastText.Some? ==> index > 0 && lastText.value == index - 1 && childNodes[index - 1].Text? && childNodes[index - 1].data != ""
        invariant goal == if lastText == None then childNodes[..index] + Merged("", childNodes[index..])
                          else childNodes[..index - 1] + Merged(childNodes[index - 1].data, childNodes[index..])
        decreases |childNodes| - index
      {
        var child := childNodes[index];
        ghost var before := childNodes;
        SuffixStep(before, index);
        if child.Text? {
          var remove := child.data == "";
          if lastText.Some? {
            AppendNothing(before[index - 1].data);
            childNodes := childNodes[lastText.value := Text(childNodes[lastText.value].data + child.data)];
            remove := true;
          }
          if remove {
            RemoveAt(index);
            Removed(before, childNodes, index, lastText.Some?);
          } else {
            assert "" + child.data == child.data;
            TakeStep(before, index);
            lastText := Some(index);
            index := index + 1;
          }
        } else {
          OtherStep(before, index, lastText.Some?);
          lastText := None;
          index := index + 1;
        }
      }
      if lastText.Some? {
        TakeStep(childNodes, index - 1);
      }
      SuffixEnds(childNodes);
      AppendNothing(childNodes);
    }
  }

  lemma TakeStep(s: seq<Node>, i: nat)
    requires i < |s|
    ensures s[..i] + [s[i]] == s[..i + 1]
  {
  }

  /** The children before and behind the one taken out, whose text the one before may have taken. */
  lemma Removed(before: seq<Node>, after: seq<Node>, index: nat, joined: bool)
    requires index < |before| && before[index].Text?
    requires joined ==> index > 0 && before[index - 1].Text?
    requires after == (if joined then before[index - 1 := Text(before[index - 1].data + before[index].data)] else before)[..index] + before[index + 1..]
    ensures |after| == |before| - 1 && index <= |after| && after[index..] == before[index + 1..]
    ensures joined ==> after[..index - 1] == before[..index - 1] && after[index - 1] == Text(before[index - 1].data + before[index].data)
    ensures !joined ==> after[..index] == before[..index]
  {
  }

  lemma OtherStep(s: seq<Node>, i: nat, joined: bool)
    requires i < |s| && !s[i].Text? && (joined ==> i > 0 && s[i - 1].Text? && s[i - 1].data != "")
    ensures joined ==> s[..i - 1] + Merged(s[i - 1].data, s[i..]) == s[..i + 1] + Merged("", s[i + 1..])
    ensures !joined ==> s[..i] + Merged("", s[i..]) == s[..i + 1] + Merged("", s[i + 1..])
  {
    SuffixStep(s, i);
    TakeStep(s, i);
    var rest := Merged("", s[i + 1..]);
    AppendNothing([s[i]]);
    AppendAssociates(s[..i], [s[i]], rest);
    if joined {
      TakeStep(s, i - 1);
      AppendAssociates(TextIf(s[i - 1].data), [s[i]], rest);
      AppendAssociates(s[..i - 1], [s[i - 1]], [s[i]] + rest);
    }
  }

  /** `normalize` leaves no text empty or next to another one, changes neither the text nor the other
      children, and changes nothing when done again. */
  lemma NormalizeIs(nodes: seq<Node>)
    ensures var r := Merged("", nodes);
            && (AllNormal(nodes) ==> Normal(r)) && TextOf(r) == TextOf(nodes) && Others(r) == Others(nodes)
            && Merged("", r) == r
  {
    MergedKeeps("", nodes);
    AppendNothing(TextOf(nodes));
    if AllNormal(nodes) {
      MergedNormal("", nodes);
    }
    MergedAgain("", nodes);
  }

  lemma {:induction false} MergedAgain(pending: string, nodes: seq<Node>)
    ensures Merged("", Merged(pending, nodes)) == Merged(pending, nodes)
    decreases |nodes|
  {
    AppendNothing(pending);
    if nodes == [] {
      assert Merged("", TextIf(pending)) == TextIf(pending) by {
        if pending != "" {
          assert [Text(pending)][1..] == [];
          assert Merged("" + pending, []) == TextIf("" + pending);
        }
      }
    } else if nodes[0].Text? {
      MergedAgain(pending + nodes[0].data, nodes[1..]);
    } else {
      MergedAgain("", nodes[1..]);
      var rest := Merged("", nodes[1..]);
      AppendAssociates(TextIf(pending), [nodes[0]], rest);
      var tail := [nodes[0]] + rest;
      assert tail[0] == nodes[0] && tail[1..] == rest;
      AppendNothing([nodes[0]]);
      if pending == "" {
        AppendNothing(tail);
      } else {
        assert ([Text(pending)] + tail)[0] == Text(pending) && ([Text(pending)] + tail)[1..] == tail;
        MergedAfterText(pending, tail);
      }
    }
  }
}
