/// When `power_domain_providers` of `src/kexec.rs` can list the providers of a tree: no two nodes have the same
/// phandle.
module TwiceMeaning {
  import opened Bytes
  import opened Handoff
  import opened Tree
  import opened Paths
  import opened Psci
  import opened SpinMeaning
  import opened ProviderMeaning

  /// The node at this path provides domains under the phandle.
  predicate HandleAt(root: Node, path: seq<bytes>, h: u32, cells: u32) {
    NodeAt(root, path).Some? && Provides(NodeAt(root, path).value, h, cells)
  }

  ghost predicate HasHandle(root: Node, h: u32) { exists path: seq<bytes>, cells: u32 :: HandleAt(root, path, h, cells) }

  /// Two nodes provide domains under one phandle.
  ghost predicate HandleTwice(root: Node) {
    exists p: seq<bytes>, q: seq<bytes>, h: u32, c: u32, d: u32 :: p != q && HandleAt(root, p, h, c) && HandleAt(root, q, h, d)
  }

  ghost predicate Provided(root: Node, h: u32) { exists cells: u32 :: Provides(root, h, cells) }

  ghost predicate AmongHandles(nodes: seq<Node>, h: u32) { exists node <- nodes :: HasHandle(node, h) }

  /// ... in one child, or in two.
  ghost predicate AmongTwice(nodes: seq<Node>) {
    || (exists node <- nodes :: HandleTwice(node))
    || exists i, j, h: u32 :: 0 <= i < j < |nodes| && HasHandle(nodes[i], h) && HasHandle(nodes[j], h)
  }

  lemma AtChild(root: Node, path: seq<bytes>, h: u32, cells: u32)
    ensures path == [] ==> (HandleAt(root, path, h, cells) <==> Provides(root, h, cells))
    ensures path != [] ==> (HandleAt(root, path, h, cells) <==>
              Child(root, path[0]).Some? && HandleAt(Child(root, path[0]).value, path[1..], h, cells))
  {
    hide Provides;
  }

  lemma BelowChild(root: Node, i: nat, path: seq<bytes>, h: u32, cells: u32)
    requires UniqueChildren(root.children) && i < |root.children|
    ensures HandleAt(root, [root.children[i].name] + path, h, cells) <==> HandleAt(root.children[i], path, h, cells)
  {
    hide Provides, HandleAt;
    ChildIs(root, i);
    AtChild(root, [root.children[i].name] + path, h, cells);
    assert ([root.children[i].name] + path)[1..] == path;
  }

  lemma HandleStep(root: Node, h: u32)
    requires UniqueChildren(root.children)
    ensures HasHandle(root, h) <==> Provided(root, h) || AmongHandles(root.children, h)
  {
    hide HandleAt, Provides;
    if HasHandle(root, h) {
      var path: seq<bytes>, cells: u32 :| HandleAt(root, path, h, cells);
      AtChild(root, path, h, cells);
      if path != [] {
        assert HasHandle(Child(root, path[0]).value, h);
      }
    }
    if Provided(root, h) {
      var cells: u32 :| Provides(root, h, cells);
      AtChild(root, [], h, cells);
    }
    if node :| node in root.children && HasHandle(node, h) {
      var path: seq<bytes>, cells: u32 :| HandleAt(node, path, h, cells);
      var i :| 0 <= i < |root.children| && root.children[i] == node;
      BelowChild(root, i, path, h, cells);
    }
  }

  lemma TwiceBelow(root: Node)
    requires UniqueChildren(root.children) && HandleTwice(root)
    ensures AmongTwice(root.children) || exists h: u32 :: Provided(root, h) && AmongHandles(root.children, h)
  {
    hide HandleAt, Provides, HasHandle, HandleTwice;
    var p: seq<bytes>, q: seq<bytes>, h: u32, c: u32, d: u32 := TwoPaths(root);
    AtChild(root, p, h, c);
    AtChild(root, q, h, d);
    if p == [] {
      OneBelow(root, q, h, c, d);
    } else if q == [] {
      OneBelow(root, p, h, d, c);
    } else {
      var i, j := ChildIndex(root.children, p[0]).value, ChildIndex(root.children, q[0]).value;
      SomeHandle(root.children[i], p[1..], h, c);
      SomeHandle(root.children[j], q[1..], h, d);
      if i == j {
        assert p == [p[0]] + p[1..] && q == [q[0]] + q[1..];
        IsTwice(root.children[i], p[1..], q[1..], h, c, d);
        assert root.children[i] in root.children;
      }
    }
  }

  lemma TwoPaths(root: Node) returns (p: seq<bytes>, q: seq<bytes>, h: u32, c: u32, d: u32)
    requires HandleTwice(root)
    ensures p != q && HandleAt(root, p, h, c) && HandleAt(root, q, h, d)
  {
    hide HandleAt;
    p, q, h, c, d :| p != q && HandleAt(root, p, h, c) && HandleAt(root, q, h, d);
  }

  lemma IsTwice(root: Node, p: seq<bytes>, q: seq<bytes>, h: u32, c: u32, d: u32)
    requires p != q && HandleAt(root, p, h, c) && HandleAt(root, q, h, d)
    ensures HandleTwice(root)
  {
    hide HandleAt;
  }

  lemma SomeHandle(root: Node, path: seq<bytes>, h: u32, cells: u32)
    requires HandleAt(root, path, h, cells)
    ensures HasHandle(root, h)
  {
    hide HandleAt;
  }

  lemma OneBelow(root: Node, q: seq<bytes>, h: u32, c: u32, d: u32)
    requires q != [] && Provides(root, h, c) && HandleAt(root, q, h, d)
    ensures Provided(root, h) && AmongHandles(root.children, h)
  {
    hide HandleAt, Provides;
    AtChild(root, q, h, d);
    var child := Child(root, q[0]).value;
    SomeHandle(child, q[1..], h, d);
    assert child in root.children;
  }

  lemma BelowTwice(root: Node)
    requires UniqueChildren(root.children)
    requires AmongTwice(root.children) || exists h: u32 :: Provided(root, h) && AmongHandles(root.children, h)
    ensures HandleTwice(root)
  {
    hide HandleAt, Provides, HandleTwice;
    if h: u32 :| Provided(root, h) && AmongHandles(root.children, h) {
      var c: u32 :| Provides(root, h, c);
      var node :| node in root.children && HasHandle(node, h);
      var path: seq<bytes>, d: u32 :| HandleAt(node, path, h, d);
      var i :| 0 <= i < |root.children| && root.children[i] == node;
      BelowChild(root, i, path, h, d);
      AtChild(root, [], h, c);
      IsTwice(root, [], [node.name] + path, h, c, d);
    } else if node :| node in root.children && HandleTwice(node) {
      var i :| 0 <= i < |root.children| && root.children[i] == node;
      var p, q, h, c, d := TwoPaths(node);
      BelowChild(root, i, p, h, c);
      BelowChild(root, i, q, h, d);
      assert ([node.name] + p)[1..] == p && ([node.name] + q)[1..] == q;
      IsTwice(root, [node.name] + p, [node.name] + q, h, c, d);
    } else {
      var i, j, h: u32 :| 0 <= i < j < |root.children| && HasHandle(root.children[i], h) && HasHandle(root.children[j], h);
      var p: seq<bytes>, c: u32 :| HandleAt(root.children[i], p, h, c);
      var q: seq<bytes>, d: u32 :| HandleAt(root.children[j], q, h, d);
      BelowChild(root, i, p, h, c);
      BelowChild(root, j, q, h, d);
      assert ([root.children[i].name] + p)[0] != ([root.children[j].name] + q)[0];
      IsTwice(root, [root.children[i].name] + p, [root.children[j].name] + q, h, c, d);
    }
  }

  lemma AmongStep(nodes: seq<Node>)
    requires nodes != []
    ensures AmongTwice(nodes) <==>
      HandleTwice(nodes[0]) || AmongTwice(nodes[1..]) || exists h: u32 :: HasHandle(nodes[0], h) && AmongHandles(nodes[1..], h)
    ensures forall h: u32 :: AmongHandles(nodes, h) <==> HasHandle(nodes[0], h) || AmongHandles(nodes[1..], h)
  {
    hide HandleTwice, HasHandle;
    var rest := nodes[1..];
    assert forall n :: n in nodes <==> n == nodes[0] || n in rest;
    assert forall j :: 0 < j < |nodes| ==> rest[j - 1] == nodes[j];
    if i, j, h: u32 :| 0 <= i < j < |nodes| && HasHandle(nodes[i], h) && HasHandle(nodes[j], h) {
      assert rest[j - 1] in rest && HasHandle(rest[j - 1], h);
      if i > 0 {
        assert HasHandle(rest[i - 1], h);
      }
    }
    if i, j, h: u32 :| 0 <= i < j < |rest| && HasHandle(rest[i], h) && HasHandle(rest[j], h) {
      assert HasHandle(nodes[i + 1], h) && HasHandle(nodes[j + 1], h);
    }
    if h: u32 :| HasHandle(nodes[0], h) && AmongHandles(rest, h) {
      var node :| node in rest && HasHandle(node, h);
      var j :| 0 <= j < |rest| && rest[j] == node;
      assert HasHandle(nodes[j + 1], h);
    }
  }

  // The list.

  ghost predicate InList(providers: seq<Provider>, h: u32) { exists p <- providers :: p.phandle == h }

  lemma DistinctBoth(x: seq<Provider>, y: seq<Provider>)
    ensures Distinct(x + y) <==> Distinct(x) && Distinct(y) && forall h: u32 :: !(InList(x, h) && InList(y, h))
  {
    if Distinct(x + y) {
      DistinctParts(x, y);
    }
    if Distinct(x) && Distinct(y) && forall h: u32 :: !(InList(x, h) && InList(y, h)) {
      forall p <- x, q <- y ensures p.phandle != q.phandle {
        assert InList(x, p.phandle) && (q.phandle == p.phandle ==> InList(y, p.phandle));
      }
      DistinctConcat(x, y);
    }
  }

  lemma OwnHandles(node: Node, psci: bool)
    requires OwnProvider(node, psci).Ok?
    ensures Distinct(OwnProvider(node, psci).value)
    ensures forall h: u32 :: InList(OwnProvider(node, psci).value, h) <==> Provided(node, h)
  {
    var own := OwnProvider(node, psci).value;
    hide Provides, OwnProvider;
    forall p: Provider ensures p in own <==> Provides(node, p.phandle, p.cells) && p.psci == psci {
      OwnMeaning(node, psci, p);
    }
    forall h: u32 | Provided(node, h) ensures InList(own, h) {
      var cells: u32 :| Provides(node, h, cells);
      assert Provider(h, cells, psci) in own;
    }
    OwnSingle(node, psci);
  }

  lemma OwnSingle(node: Node, psci: bool)
    requires OwnProvider(node, psci).Ok?
    ensures |OwnProvider(node, psci).value| <= 1
  {
    hide GetProp, Bytes.De32;
  }

  lemma InBoth(x: seq<Provider>, y: seq<Provider>, h: u32)
    ensures InList(x + y, h) <==> InList(x, h) || InList(y, h)
  {
    assert forall p :: p in x + y <==> p in x || p in y;
  }

  lemma {:induction false} NodeTwice(node: Node, above: bool, room: nat)
    requires WfNode(node, room) && ListProviders(node, above).Ok?
    ensures Distinct(ListProviders(node, above).value) <==> !HandleTwice(node)
    ensures forall h: u32 :: InList(ListProviders(node, above).value, h) <==> HasHandle(node, h)
    decreases node, 1
  {
    hide OwnProvider, HandleTwice, HasHandle, Provided, AmongHandles, AmongTwice, IsPsci, WfForest, UniqueChildren, Distinct, InList;
    var psci := above || IsPsci(node);
    OwnHandles(node, psci);
    ForestTwice(node.children, psci, room - 1);
    var own, rest := OwnProvider(node, psci).value, ListForestProviders(node.children, psci).value;
    DistinctBoth(own, rest);
    forall h: u32 ensures InList(own + rest, h) <==> HasHandle(node, h) {
      InBoth(own, rest, h);
      HandleStep(node, h);
    }
    if HandleTwice(node) {
      TwiceBelow(node);
    }
    if AmongTwice(node.children) || exists h: u32 :: Provided(node, h) && AmongHandles(node.children, h) {
      BelowTwice(node);
    }
  }

  lemma {:induction false} ForestTwice(nodes: seq<Node>, psci: bool, room: nat)
    requires WfForest(nodes, room) && ListForestProviders(nodes, psci).Ok?
    ensures Distinct(ListForestProviders(nodes, psci).value) <==> !AmongTwice(nodes)
    ensures forall h: u32 :: InList(ListForestProviders(nodes, psci).value, h) <==> AmongHandles(nodes, h)
    decreases nodes, 0
  {
    hide ListProviders, HandleTwice, HasHandle, AmongHandles, AmongTwice, WfNode, Distinct, InList;
    if nodes == [] {
      NothingListed();
    } else {
      NodeTwice(nodes[0], psci, room);
      ForestTwice(nodes[1..], psci, room);
      var first, rest := ListProviders(nodes[0], psci).value, ListForestProviders(nodes[1..], psci).value;
      DistinctBoth(first, rest);
      AmongStep(nodes);
      forall h: u32 ensures InList(first + rest, h) <==> InList(first, h) || InList(rest, h) {
        InBoth(first, rest, h);
      }
    }
  }

  lemma NothingListed()
    ensures Distinct([]) && !AmongTwice([]) && forall h: u32 :: !InList([], h) && !AmongHandles([], h)
  {
  }

  /// The providers can be listed exactly when each is good and no two have one phandle.
  lemma ProvidersReturn(root: Node)
    requires WfTree(root)
    ensures Providers(root).Ok? <==> AllGoodProviders(root) && !HandleTwice(root)
  {
    hide ListProviders, HandleTwice, AllGoodProviders, Distinct;
    NodeReturns(root, false, MAX_DEPTH);
    if ListProviders(root, false).Ok? {
      NodeTwice(root, false, MAX_DEPTH);
    }
  }
}
