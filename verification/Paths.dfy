/// Nodes by their paths, and properties by their names: the vocabulary in which the effects on whole trees
/// are stated.
module Paths {
  import opened Bytes
  import opened Tree
  import opened Nodes

  /// The node at a path of names below `node`.
  function NodeAt(node: Node, path: seq<bytes>): Option<Node>
    decreases |path|
  {
    if path == [] then Some(node)
    else if Child(node, path[0]).None? then None
    else NodeAt(Child(node, path[0]).value, path[1..])
  }

  /// The names of the children, in order.
  function ChildNames(node: Node): (names: seq<bytes>)
    ensures |names| == |node.children|
    ensures forall i :: 0 <= i < |names| ==> names[i] == node.children[i].name
  {
    seq(|node.children|, i requires 0 <= i < |node.children| => node.children[i].name)
  }

  lemma {:induction false} GetAppend(xs: seq<Property>, ys: seq<Property>, name: bytes)
    ensures GetProp(xs + ys, name) == if GetProp(xs, name).Some? then GetProp(xs, name) else GetProp(ys, name)
  {
    if xs == [] {
      assert xs + ys == ys;
    } else {
      assert xs + ys == [xs[0]] + (xs[1..] + ys);
      GetCons(xs[0], xs[1..] + ys, name);
      GetAppend(xs[1..], ys, name);
    }
  }

  /// The child of this name, when names do not repeat.
  lemma ChildIs(node: Node, i: nat)
    requires UniqueChildren(node.children) && i < |node.children|
    ensures Child(node, node.children[i].name) == Some(node.children[i])
  {
  }

  lemma NoChild(node: Node, name: bytes)
    ensures Child(node, name).None? <==> forall n <- node.children :: n.name != name
  {
    if Child(node, name).Some? {
      assert Child(node, name).value in node.children;
    }
  }
}
