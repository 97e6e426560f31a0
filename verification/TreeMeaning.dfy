/// Which trees the two parsers take: how deep they may be, and what must not repeat.
module TreeMeaning {
  import opened Bytes
  import opened Tree
  import opened PatchMeaning
  import opened PrebootFdt

  predicate DistinctProps(node: Node) {
    forall i, j :: 0 <= i < j < |node.props| ==> node.props[i].name != node.props[j].name
  }

  predicate DistinctChildren(node: Node) {
    forall i, j :: 0 <= i < j < |node.children| ==> node.children[i].name != node.children[j].name
  }

  /// No node is as deep as `room`, and in none a property or a child repeats.
  ghost predicate WellFormed(node: Node, room: int) {
    forall path: seq<nat> :: Walk(node, path).Some? ==>
      |path| < room && DistinctProps(Last(Walk(node, path).value)) && DistinctChildren(Last(Walk(node, path).value))
  }

  ghost predicate Shallow(node: Node, room: int) { forall path: seq<nat> :: Walk(node, path).Some? ==> |path| < room }

  lemma Below(node: Node, child: Node, path: seq<nat>) returns (i: nat)
    requires child in node.children && Walk(child, path).Some?
    ensures i < |node.children| && Walk(node, [i] + path).Some?
    ensures Last(Walk(node, [i] + path).value) == Last(Walk(child, path).value)
  {
    i :| 0 <= i < |node.children| && node.children[i] == child;
    assert ([i] + path)[1..] == path;
  }

  lemma WellFormedStep(node: Node, room: int)
    ensures WellFormed(node, room) <==>
      room > 0 && DistinctProps(node) && DistinctChildren(node) && forall child <- node.children :: WellFormed(child, room - 1)
  {
    hide DistinctProps, DistinctChildren;
    if WellFormed(node, room) {
      assert Walk(node, []) == Some([node]);
      forall child <- node.children, path: seq<nat> | Walk(child, path).Some?
        ensures |path| < room - 1 && DistinctProps(Last(Walk(child, path).value)) && DistinctChildren(Last(Walk(child, path).value))
      {
        var i := Below(node, child, path);
      }
    }
    if room > 0 && DistinctProps(node) && DistinctChildren(node) && forall child <- node.children :: WellFormed(child, room - 1) {
      forall path: seq<nat> | Walk(node, path).Some?
        ensures |path| < room && DistinctProps(Last(Walk(node, path).value)) && DistinctChildren(Last(Walk(node, path).value))
      {
        if path != [] {
          var child := node.children[path[0]];
          assert child in node.children && Last(Walk(node, path).value) == Last(Walk(child, path[1..]).value);
        }
      }
    }
  }

  lemma {:induction false} NodeMeaning(node: Node, room: nat)
    ensures WfNode(node, room) <==> WellFormed(node, room)
    decreases node, 1
  {
    hide WellFormed, WfForest;
    WellFormedStep(node, room);
    if room > 0 {
      ForestMeaning(node.children, room - 1);
    }
  }

  lemma {:induction false} ForestMeaning(nodes: seq<Node>, room: nat)
    ensures WfForest(nodes, room) <==> forall node <- nodes :: WellFormed(node, room)
    decreases nodes, 0
  {
    hide WellFormed, WfNode;
    if nodes != [] {
      NodeMeaning(nodes[0], room);
      ForestMeaning(nodes[1..], room);
      assert forall n :: n in nodes <==> n == nodes[0] || n in nodes[1..];
    }
  }

  /// The trees of `contract_tree`: the root has no name, and nothing is 64 deep.
  lemma TreeIs(t: Node)
    ensures WfTree(t) <==> t.name == [] && WellFormed(t, 64)
  {
    NodeMeaning(t, 64);
    hide WfNode, WellFormed;
  }

  lemma ShallowStep(node: Node, room: int)
    ensures Shallow(node, room) <==> room > 0 && forall child <- node.children :: Shallow(child, room - 1)
  {
    if Shallow(node, room) {
      assert Walk(node, []) == Some([node]);
      forall child <- node.children, path: seq<nat> | Walk(child, path).Some? ensures |path| < room - 1 {
        var i := Below(node, child, path);
      }
    }
    if room > 0 && forall child <- node.children :: Shallow(child, room - 1) {
      forall path: seq<nat> | Walk(node, path).Some? ensures |path| < room {
        if path != [] {
          var child := node.children[path[0]];
          assert child in node.children && Walk(child, path[1..]).Some?;
        }
      }
    }
  }

  lemma {:induction false} DepthMeaning(node: Node, room: nat)
    ensures FitsDepth(node, room) <==> Shallow(node, room)
    decreases node, 1
  {
    hide Shallow, ForestFitsDepth;
    ShallowStep(node, room);
    if room > 0 {
      ForestDepth(node.children, room - 1);
    }
  }

  lemma {:induction false} ForestDepth(nodes: seq<Node>, room: nat)
    ensures ForestFitsDepth(nodes, room) <==> forall node <- nodes :: Shallow(node, room)
    decreases nodes, 0
  {
    hide Shallow, FitsDepth;
    if nodes != [] {
      DepthMeaning(nodes[0], room);
      ForestDepth(nodes[1..], room);
      assert forall n :: n in nodes <==> n == nodes[0] || n in nodes[1..];
    }
  }

  /// The trees that the path search of the other stage can go through: nothing is 32 deep.
  lemma ReaderDepth(t: Node)
    ensures FitsDepth(t, READER_DEPTH) <==> Shallow(t, 32)
  {
    DepthMeaning(t, 32);
    hide FitsDepth, Shallow;
  }
}
