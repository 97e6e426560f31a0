/// Which power-domain providers `power_domain_providers` of `src/kexec.rs` lists: every node that is one, by
/// its path.
module ProviderMeaning {
  import opened Bytes
  import opened Handoff
  import opened Tree
  import opened Reserved
  import opened Nodes
  import opened Paths
  import opened Psci
  import opened SpinMeaning

  /// A node that provides power domains: it has a cell count and a phandle, each of four bytes.
  predicate Provides(node: Node, phandle: u32, cells: u32) {
    var count, handle, linux := Get(node, Ascii("#power-domain-cells")), Get(node, Ascii("phandle")), Get(node, Ascii("linux,phandle"));
    && count.Some? && |count.value| == 4 && De32(count.value) == cells
    && (if handle.Some? then |handle.value| == 4 && De32(handle.value) == phandle
        else linux.Some? && |linux.value| == 4 && De32(linux.value) == phandle)
  }

  /// A firmware node is on the way to this path, the ends included.
  ghost predicate UnderFirmware(root: Node, path: seq<bytes>) {
    exists k :: 0 <= k <= |path| && NodeAt(root, path[..k]).Some? && IsFirmware(NodeAt(root, path[..k]).value)
  }

  /// The provider at this path.
  ghost predicate ProviderAt(root: Node, path: seq<bytes>, above: bool, p: Provider) {
    && NodeAt(root, path).Some? && Provides(NodeAt(root, path).value, p.phandle, p.cells)
    && (p.psci <==> above || UnderFirmware(root, path))
  }

  ghost predicate Listed(root: Node, above: bool, p: Provider) { exists path: seq<bytes> :: ProviderAt(root, path, above, p) }

  lemma OwnMeaning(node: Node, psci: bool, p: Provider)
    requires OwnProvider(node, psci).Ok?
    ensures p in OwnProvider(node, psci).value <==> Provides(node, p.phandle, p.cells) && p.psci == psci
  {
    hide Bytes.Ascii, GetProp, Bytes.De32;
  }

  lemma UnderStep(root: Node, path: seq<bytes>)
    requires path != [] && Child(root, path[0]).Some?
    ensures UnderFirmware(root, path) <==> IsFirmware(root) || UnderFirmware(Child(root, path[0]).value, path[1..])
  {
    hide IsFirmware, Child;
    var child := Child(root, path[0]).value;
    assert NodeAt(root, path[..0]) == Some(root);
    forall k | 0 < k <= |path| ensures NodeAt(root, path[..k]) == NodeAt(child, path[1..][..k - 1]) {
      assert path[..k][1..] == path[1..][..k - 1];
    }
    if UnderFirmware(child, path[1..]) {
      var k :| 0 <= k <= |path[1..]| && NodeAt(child, path[1..][..k]).Some? && IsFirmware(NodeAt(child, path[1..][..k]).value);
      assert NodeAt(root, path[..k + 1]).Some? && IsFirmware(NodeAt(root, path[..k + 1]).value);
    }
    if UnderFirmware(root, path) {
      var k :| 0 <= k <= |path| && NodeAt(root, path[..k]).Some? && IsFirmware(NodeAt(root, path[..k]).value);
      if k > 0 {
        assert NodeAt(child, path[1..][..k - 1]).Some?;
      }
    }
  }

  lemma AtStep(root: Node, path: seq<bytes>, above: bool, p: Provider)
    requires path != []
    ensures ProviderAt(root, path, above, p) <==>
      Child(root, path[0]).Some? && ProviderAt(Child(root, path[0]).value, path[1..], above || IsFirmware(root), p)
  {
    hide IsFirmware, Child, Provides, UnderFirmware;
    if Child(root, path[0]).Some? {
      UnderStep(root, path);
    }
  }

  lemma AtRoot(root: Node, above: bool, p: Provider)
    ensures ProviderAt(root, [], above, p) <==> Provides(root, p.phandle, p.cells) && (p.psci <==> above || IsFirmware(root))
  {
    hide IsFirmware, Provides;
    var path: seq<bytes> := [];
    assert path[..0] == [];
  }

  /// A provider of a tree is the root's own or a child's.
  lemma ListedStep(root: Node, above: bool, p: Provider)
    requires UniqueChildren(root.children)
    ensures Listed(root, above, p) <==>
      || (Provides(root, p.phandle, p.cells) && p.psci == (above || IsFirmware(root)))
      || exists child <- root.children :: Listed(child, above || IsFirmware(root), p)
  {
    hide IsFirmware, Provides, ProviderAt;
    AtRoot(root, above, p);
    if Listed(root, above, p) {
      var path: seq<bytes> :| ProviderAt(root, path, above, p);
      if path != [] {
        AtStep(root, path, above, p);
        var child := Child(root, path[0]).value;
        assert child in root.children && ProviderAt(child, path[1..], above || IsFirmware(root), p);
      }
    }
    forall child <- root.children | Listed(child, above || IsFirmware(root), p) ensures Listed(root, above, p) {
      var rest: seq<bytes> :| ProviderAt(child, rest, above || IsFirmware(root), p);
      var i :| 0 <= i < |root.children| && root.children[i] == child;
      ChildIs(root, i);
      var path := [child.name] + rest;
      assert path[1..] == rest;
      AtStep(root, path, above, p);
      assert ProviderAt(root, path, above, p);
    }
  }

  lemma {:induction false} NodeProviders(node: Node, above: bool, p: Provider, room: nat)
    requires WfNode(node, room) && ListProviders(node, above).Ok?
    ensures p in ListProviders(node, above).value <==> Listed(node, above, p)
    decreases node, 1
  {
    hide OwnProvider, Listed, IsFirmware, IsPsci, Provides, WfForest, UniqueChildren;
    FirmwareMeaning(node);
    ListedStep(node, above, p);
    var psci := above || IsPsci(node);
    OwnMeaning(node, psci, p);
    ForestProviders(node.children, psci, p, room - 1);
    assert p in ListProviders(node, above).value <==>
      p in OwnProvider(node, psci).value || p in ListForestProviders(node.children, psci).value;
  }

  lemma {:induction false} ForestProviders(nodes: seq<Node>, psci: bool, p: Provider, room: nat)
    requires WfForest(nodes, room) && ListForestProviders(nodes, psci).Ok?
    ensures p in ListForestProviders(nodes, psci).value <==> exists child <- nodes :: Listed(child, psci, p)
    decreases nodes, 0
  {
    hide ListProviders, Listed, WfNode;
    if nodes != [] {
      NodeProviders(nodes[0], psci, p, room);
      ForestProviders(nodes[1..], psci, p, room);
      assert forall child :: child in nodes <==> child == nodes[0] || child in nodes[1..];
      assert p in ListForestProviders(nodes, psci).value <==>
        p in ListProviders(nodes[0], psci).value || p in ListForestProviders(nodes[1..], psci).value;
    }
  }

  /// A node that has a cell count and a phandle has good ones.
  predicate GoodProvider(node: Node) {
    var count, handle, linux := Get(node, Ascii("#power-domain-cells")), Get(node, Ascii("phandle")), Get(node, Ascii("linux,phandle"));
    count.Some? && (handle.Some? || linux.Some?) ==>
      var value := if handle.Some? then handle.value else linux.value;
      |count.value| == 4 && |value| == 4 && De32(value) != 0 && De32(value) != 0xffff_ffff
  }

  ghost predicate AllGoodProviders(root: Node) {
    forall path: seq<bytes> :: NodeAt(root, path).Some? ==> GoodProvider(NodeAt(root, path).value)
  }

  lemma OwnReturns(node: Node, psci: bool)
    ensures OwnProvider(node, psci).Ok? <==> GoodProvider(node)
  {
    hide Bytes.Ascii, GetProp, Bytes.De32;
  }

  lemma AllGoodStep(root: Node)
    requires UniqueChildren(root.children)
    ensures AllGoodProviders(root) <==> GoodProvider(root) && forall child <- root.children :: AllGoodProviders(child)
  {
    hide GoodProvider;
    if AllGoodProviders(root) {
      assert NodeAt(root, []) == Some(root);
      forall child <- root.children, path: seq<bytes> | NodeAt(child, path).Some? ensures GoodProvider(NodeAt(child, path).value) {
        var i :| 0 <= i < |root.children| && root.children[i] == child;
        ChildIs(root, i);
        assert ([child.name] + path)[1..] == path;
        assert NodeAt(root, [child.name] + path) == NodeAt(child, path);
      }
    }
    if GoodProvider(root) && forall child <- root.children :: AllGoodProviders(child) {
      forall path: seq<bytes> | NodeAt(root, path).Some? ensures GoodProvider(NodeAt(root, path).value) {
        if path != [] {
          var child := Child(root, path[0]).value;
          assert child in root.children && NodeAt(root, path) == NodeAt(child, path[1..]);
        }
      }
    }
  }

  lemma {:induction false} NodeReturns(node: Node, above: bool, room: nat)
    requires WfNode(node, room)
    ensures ListProviders(node, above).Ok? <==> AllGoodProviders(node)
    decreases node, 1
  {
    hide OwnProvider, AllGoodProviders, GoodProvider, IsPsci, WfForest, UniqueChildren;
    AllGoodStep(node);
    OwnReturns(node, above || IsPsci(node));
    ForestReturns(node.children, above || IsPsci(node), room - 1);
  }

  lemma {:induction false} ForestReturns(nodes: seq<Node>, psci: bool, room: nat)
    requires WfForest(nodes, room)
    ensures ListForestProviders(nodes, psci).Ok? <==> forall child <- nodes :: AllGoodProviders(child)
    decreases nodes, 0
  {
    hide ListProviders, AllGoodProviders, WfNode;
    if nodes != [] {
      NodeReturns(nodes[0], psci, room);
      ForestReturns(nodes[1..], psci, room);
      assert forall child :: child in nodes <==> child == nodes[0] || child in nodes[1..];
    }
  }

  /// The list has exactly the providers of the tree; no phandle is listed twice.
  lemma ProvidersMeaning(root: Node, p: Provider)
    requires WfTree(root) && Providers(root).Ok?
    ensures AllGoodProviders(root) && (p in Providers(root).value <==> Listed(root, false, p))
    ensures forall i, j :: 0 <= i < j < |Providers(root).value| ==>
              Providers(root).value[i].phandle != Providers(root).value[j].phandle
  {
    hide ListProviders, Listed, AllGoodProviders;
    NodeProviders(root, false, p, MAX_DEPTH);
    NodeReturns(root, false, MAX_DEPTH);
  }
}
