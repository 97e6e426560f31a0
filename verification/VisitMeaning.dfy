/// Which power-domain providers `power_domain_providers` of `pocketpreboot/src/msm8916.rs` lists, by their
/// paths, and when `patch_fdt` accepts a tree.
module VisitMeaning {
  import opened Bytes
  import opened Handoff
  import opened Tree
  import opened Dtb
  import opened Contract
  import opened FormatMeaning
  import opened Msm8916
  import opened Msm8916Blob
  import opened DomainMeaning
  import opened PatchMeaning

  /// The first cell of a value.
  function Cell(value: Option<bytes>): Option<u32> {
    if value.Some? && |value.value| >= 4 then Some(De32(value.value[..4])) else None
  }

  /// The phandle of a node.
  function Handle(node: Node): Option<u32> {
    if Cell(Get(node, Ascii("phandle"))).Some? then Cell(Get(node, Ascii("phandle"))) else Cell(Get(node, Ascii("linux,phandle")))
  }

  /// A provider of power domains: a cell count of four bytes, and a phandle.
  predicate Provides(node: Node, phandle: u32, cells: u32) {
    var count := Get(node, Ascii("#power-domain-cells"));
    count.Some? && |count.value| == 4 && De32(count.value) == cells && Handle(node) == Some(phandle)
  }

  /// The provider at this path.
  ghost predicate ProviderAt(node: Node, path: seq<nat>, above: bool, p: Provider) {
    var nodes := Walk(node, path);
    && nodes.Some? && Provides(Last(nodes.value), p.phandle, p.cells)
    && (p.psci <==> above || UnderFirmware(nodes.value))
  }

  ghost predicate Listed(node: Node, above: bool, p: Provider) { exists path: seq<nat> :: ProviderAt(node, path, above, p) }

  lemma OwnMeaning(node: Node, psci: bool, providers: seq<Provider>, p: Provider)
    requires
      AddProvider(providers, psci, Get(node, POWER_DOMAIN_CELLS), PhandleOf(Get(node, PHANDLE), Get(node, LINUX_PHANDLE))).Ok?
    ensures
      p in AddProvider(providers, psci, Get(node, POWER_DOMAIN_CELLS), PhandleOf(Get(node, PHANDLE), Get(node, LINUX_PHANDLE))).value <==>
      p in providers || (Provides(node, p.phandle, p.cells) && p.psci == psci)
  {
    hide Bytes.Ascii, GetProp, Bytes.De32;
  }

  lemma UnderStep(node: Node, rest: seq<Node>)
    ensures UnderFirmware([node] + rest) <==> IsFirmware(node) || UnderFirmware(rest)
  {
    hide IsFirmware;
    assert forall n :: n in [node] + rest <==> n == node || n in rest;
  }

  lemma AtStep(node: Node, path: seq<nat>, above: bool, p: Provider)
    requires path != []
    ensures ProviderAt(node, path, above, p) <==>
      path[0] < |node.children| && ProviderAt(node.children[path[0]], path[1..], above || IsFirmware(node), p)
  {
    hide IsFirmware, Provides, UnderFirmware;
    if path[0] < |node.children| {
      var rest := Walk(node.children[path[0]], path[1..]);
      if rest.Some? {
        UnderStep(node, rest.value);
        assert Last([node] + rest.value) == Last(rest.value);
      }
    }
  }

  lemma AtRoot(node: Node, above: bool, p: Provider)
    ensures ProviderAt(node, [], above, p) <==> Provides(node, p.phandle, p.cells) && (p.psci <==> above || IsFirmware(node))
  {
    hide IsFirmware, Provides;
    UnderStep(node, []);
    assert [node] + [] == [node];
  }

  lemma ListedStep(node: Node, above: bool, p: Provider)
    ensures Listed(node, above, p) <==>
      || (Provides(node, p.phandle, p.cells) && p.psci == (above || IsFirmware(node)))
      || exists child <- node.children :: Listed(child, above || IsFirmware(node), p)
  {
    hide IsFirmware, Provides, ProviderAt;
    AtRoot(node, above, p);
    if Listed(node, above, p) {
      var path: seq<nat> :| ProviderAt(node, path, above, p);
      if path != [] {
        AtStep(node, path, above, p);
        assert node.children[path[0]] in node.children && ProviderAt(node.children[path[0]], path[1..], above || IsFirmware(node), p);
      }
    }
    forall child <- node.children | Listed(child, above || IsFirmware(node), p) ensures Listed(node, above, p) {
      var rest: seq<nat> :| ProviderAt(child, rest, above || IsFirmware(node), p);
      var i :| 0 <= i < |node.children| && node.children[i] == child;
      var path := [i] + rest;
      assert path[1..] == rest;
      AtStep(node, path, above, p);
      assert ProviderAt(node, path, above, p);
    }
  }

  lemma {:induction false} NodeProviders(node: Node, above: bool, depth: nat, providers: seq<Provider>, p: Provider)
    requires VisitNode(node, above, depth, providers).Ok?
    ensures p in VisitNode(node, above, depth, providers).value <==> p in providers || Listed(node, above, p)
    decreases node, 1
  {
    hide AddProvider, Listed, IsFirmware, Msm8916.IsPsci, Provides, VisitForest;
    FirmwareMeaning(node);
    ListedStep(node, above, p);
    var psci := above || Msm8916.IsPsci(Get(node, COMPATIBLE));
    OwnMeaning(node, psci, providers, p);
    var here := AddProvider(providers, psci, Get(node, POWER_DOMAIN_CELLS), PhandleOf(Get(node, PHANDLE), Get(node, LINUX_PHANDLE))).value;
    ForestProviders(node.children, psci, depth + 1, here, p);
  }

  lemma {:induction false} ForestProviders(nodes: seq<Node>, psci: bool, depth: nat, providers: seq<Provider>, p: Provider)
    requires VisitForest(nodes, psci, depth, providers).Ok?
    ensures p in VisitForest(nodes, psci, depth, providers).value <==> p in providers || exists child <- nodes :: Listed(child, psci, p)
    decreases nodes, 0
  {
    hide VisitNode, Listed;
    if nodes != [] {
      NodeProviders(nodes[0], psci, depth, providers, p);
      ForestProviders(nodes[1..], psci, depth, VisitNode(nodes[0], psci, depth, providers).value, p);
      assert forall child :: child in nodes <==> child == nodes[0] || child in nodes[1..];
    }
  }

  /// The list has exactly the providers of the tree.
  lemma ProvidersMeaning(t: Node, p: Provider)
    requires VisitNode(t, false, 0, []).Ok?
    ensures p in VisitNode(t, false, 0, []).value <==> Listed(t, false, p)
  {
    hide VisitNode, Listed;
    NodeProviders(t, false, 0, [], p);
  }

  /// What every list has: at most 64 providers, with distinct phandles that are not 0 or all ones.
  predicate GoodList(providers: seq<Provider>) {
    && |providers| <= 64
    && (forall i, j :: 0 <= i < j < |providers| ==> providers[i].phandle != providers[j].phandle)
    && forall p <- providers :: p.phandle != 0 && p.phandle != 0xffff_ffff
  }

  lemma AddKeepsGood(providers: seq<Provider>, psci: bool, cells: Option<bytes>, phandle: Option<u32>)
    requires GoodList(providers) && AddProvider(providers, psci, cells, phandle).Ok?
    ensures GoodList(AddProvider(providers, psci, cells, phandle).value)
  {
    hide Bytes.De32;
  }

  lemma {:induction false} NodeListGood(node: Node, above: bool, depth: nat, providers: seq<Provider>)
    requires GoodList(providers) && VisitNode(node, above, depth, providers).Ok?
    ensures GoodList(VisitNode(node, above, depth, providers).value)
    decreases node, 1
  {
    hide AddProvider, GoodList, Msm8916.IsPsci, VisitForest;
    var psci := above || Msm8916.IsPsci(Get(node, COMPATIBLE));
    var handle := PhandleOf(Get(node, PHANDLE), Get(node, LINUX_PHANDLE));
    AddKeepsGood(providers, psci, Get(node, POWER_DOMAIN_CELLS), handle);
    ForestListGood(node.children, psci, depth + 1, AddProvider(providers, psci, Get(node, POWER_DOMAIN_CELLS), handle).value);
  }

  lemma {:induction false} ForestListGood(nodes: seq<Node>, psci: bool, depth: nat, providers: seq<Provider>)
    requires GoodList(providers) && VisitForest(nodes, psci, depth, providers).Ok?
    ensures GoodList(VisitForest(nodes, psci, depth, providers).value)
    decreases nodes, 0
  {
    hide VisitNode, GoodList;
    if nodes != [] {
      NodeListGood(nodes[0], psci, depth, providers);
      ForestListGood(nodes[1..], psci, depth, VisitNode(nodes[0], psci, depth, providers).value);
    }
  }

  lemma ListIsGood(t: Node)
    requires VisitNode(t, false, 0, []).Ok?
    ensures GoodList(VisitNode(t, false, 0, []).value)
  {
    hide VisitNode;
    NodeListGood(t, false, 0, []);
  }

  // When the providers can be listed.

  /// The phandles of the providers, in document order.
  function Handles(node: Node): seq<u32>
    decreases node, 1
  {
    OwnHandle(node) + ForestHandles(node.children)
  }

  function ForestHandles(nodes: seq<Node>): seq<u32>
    decreases nodes, 0
  {
    if nodes == [] then [] else Handles(nodes[0]) + ForestHandles(nodes[1..])
  }

  function OwnHandle(node: Node): seq<u32> {
    if Get(node, Ascii("#power-domain-cells")).Some? && Handle(node).Some? then [Handle(node).value] else []
  }

  /// A cell count has four bytes, and the phandle of a node that has one is neither 0 nor all ones.
  predicate OwnGood(node: Node) {
    var count := Get(node, Ascii("#power-domain-cells"));
    count.Some? ==> |count.value| == 4 && (Handle(node).Some? ==> Handle(node).value != 0 && Handle(node).value != 0xffff_ffff)
  }

  /// Every node is good and less than 32 deep.
  ghost predicate Visitable(node: Node, depth: nat) {
    forall path: seq<nat> :: Walk(node, path).Some? ==> depth + |path| < 32 && OwnGood(Last(Walk(node, path).value))
  }

  predicate NoRepeats(handles: seq<u32>) { forall i, j :: 0 <= i < j < |handles| ==> handles[i] != handles[j] }

  function Phandles(providers: seq<Provider>): seq<u32> {
    seq(|providers|, i requires 0 <= i < |providers| => providers[i].phandle)
  }

  lemma VisitableStep(node: Node, depth: nat)
    ensures Visitable(node, depth) <==>
      depth < 32 && OwnGood(node) && forall child <- node.children :: Visitable(child, depth + 1)
  {
    hide OwnGood;
    if Visitable(node, depth) {
      assert Walk(node, []) == Some([node]);
      forall child <- node.children, path: seq<nat> | Walk(child, path).Some?
        ensures depth + 1 + |path| < 32 && OwnGood(Last(Walk(child, path).value))
      {
        var i :| 0 <= i < |node.children| && node.children[i] == child;
        assert ([i] + path)[1..] == path;
        assert Walk(node, [i] + path).Some? && Last(Walk(node, [i] + path).value) == Last(Walk(child, path).value);
      }
    }
    if depth < 32 && OwnGood(node) && forall child <- node.children :: Visitable(child, depth + 1) {
      forall path: seq<nat> | Walk(node, path).Some? ensures depth + |path| < 32 && OwnGood(Last(Walk(node, path).value)) {
        if path != [] {
          var child := node.children[path[0]];
          assert child in node.children && Last(Walk(node, path).value) == Last(Walk(child, path[1..]).value);
        }
      }
    }
  }

  lemma OwnReturns(node: Node, psci: bool, providers: seq<Provider>)
    requires NoRepeats(Phandles(providers)) && |providers| <= 64
    ensures
      var added := AddProvider(providers, psci, Get(node, POWER_DOMAIN_CELLS), PhandleOf(Get(node, PHANDLE), Get(node, LINUX_PHANDLE)));
      var all := Phandles(providers) + OwnHandle(node);
      && (added.Ok? <==> OwnGood(node) && |all| <= 64 && NoRepeats(all))
      && (added.Ok? ==> Phandles(added.value) == all)
  {
    hide Bytes.Ascii, GetProp, Bytes.De32;
    if OwnHandle(node) != [] {
      var h := Handle(node).value;
      assert Handle(node) == PhandleOf(Get(node, PHANDLE), Get(node, LINUX_PHANDLE));
      KnownMeaning(providers, h);
    } else {
      assert Phandles(providers) + [] == Phandles(providers);
    }
  }

  lemma KnownMeaning(providers: seq<Provider>, h: u32)
    requires NoRepeats(Phandles(providers))
    ensures NoRepeats(Phandles(providers) + [h]) <==> !KnownPhandle(providers, h)
  {
    var handles := Phandles(providers);
    if KnownPhandle(providers, h) {
      var i :| 0 <= i < |providers| && providers[i].phandle == h;
      assert (handles + [h])[i] == (handles + [h])[|handles|];
    }
  }

  lemma FewerRepeat(x: seq<u32>, y: seq<u32>)
    requires NoRepeats(x + y)
    ensures NoRepeats(x)
  {
    assert forall i :: 0 <= i < |x| ==> (x + y)[i] == x[i];
  }

  lemma {:induction false} NodeReturns(node: Node, psci: bool, depth: nat, providers: seq<Provider>)
    requires NoRepeats(Phandles(providers)) && |providers| <= 64
    ensures
      var visited, all := VisitNode(node, psci, depth, providers), Phandles(providers) + Handles(node);
      && (visited.Ok? <==> Visitable(node, depth) && |all| <= 64 && NoRepeats(all))
      && (visited.Ok? ==> Phandles(visited.value) == all)
    decreases node, 1
  {
    hide AddProvider, Visitable, OwnGood, NoRepeats, Msm8916.IsPsci, VisitForest, OwnHandle, ForestHandles, PhandleOf, Phandles;
    var psci' := psci || Msm8916.IsPsci(Get(node, COMPATIBLE));
    var added := AddProvider(providers, psci', Get(node, POWER_DOMAIN_CELLS), PhandleOf(Get(node, PHANDLE), Get(node, LINUX_PHANDLE)));
    VisitableStep(node, depth);
    OwnReturns(node, psci', providers);
    Parts(Phandles(providers), OwnHandle(node), ForestHandles(node.children));
    if added.Ok? {
      SameCount(added.value);
      ForestReturns(node.children, psci', depth + 1, added.value);
    }
  }

  lemma SameCount(providers: seq<Provider>)
    ensures |Phandles(providers)| == |providers|
  {
  }

  lemma Parts(x: seq<u32>, y: seq<u32>, z: seq<u32>)
    ensures x + (y + z) == x + y + z
    ensures NoRepeats(x + y + z) ==> NoRepeats(x + y)
  {
    assert x + (y + z) == x + y + z;
    if NoRepeats(x + y + z) {
      FewerRepeat(x + y, z);
    }
  }

  lemma {:induction false} ForestReturns(nodes: seq<Node>, psci: bool, depth: nat, providers: seq<Provider>)
    requires NoRepeats(Phandles(providers)) && |providers| <= 64
    ensures
      var visited, all := VisitForest(nodes, psci, depth, providers), Phandles(providers) + ForestHandles(nodes);
      && (visited.Ok? <==> (forall child <- nodes :: Visitable(child, depth)) && |all| <= 64 && NoRepeats(all))
      && (visited.Ok? ==> Phandles(visited.value) == all)
    decreases nodes, 0
  {
    hide VisitNode, Visitable, NoRepeats, Handles, Phandles;
    if nodes == [] {
      SameCount(providers);
      assert Phandles(providers) + [] == Phandles(providers);
    } else {
      var first := VisitNode(nodes[0], psci, depth, providers);
      NodeReturns(nodes[0], psci, depth, providers);
      Parts(Phandles(providers), Handles(nodes[0]), ForestHandles(nodes[1..]));
      assert forall child :: child in nodes <==> child == nodes[0] || child in nodes[1..];
      if first.Ok? {
        SameCount(first.value);
        ForestReturns(nodes[1..], psci, depth, first.value);
      }
    }
  }

  /// The providers can be listed exactly when every node is good and not too deep, and there are at most 64,
  /// with different phandles.
  lemma ProvidersReturn(t: Node)
    ensures VisitNode(t, false, 0, []).Ok? <==> Visitable(t, 0) && |Handles(t)| <= 64 && NoRepeats(Handles(t))
  {
    hide VisitNode, Visitable, Handles;
    NodeReturns(t, false, 0, []);
    assert Phandles([]) + Handles(t) == Handles(t);
  }

  // Whole blobs.

  /// The patched blob: every node as it should be, with the providers of the tree, and the map, the boot CPU
  /// and the versions of the input.
  lemma PatchedBlobMeaning(dtb: bytes, t: Node, capacity: nat, table: u32, path: seq<nat>)
    requires Denotes(dtb, t) && PatchedFdt(dtb, t, capacity, table).Ok?
    ensures PatchTree(t, table).Ok? && VisitNode(t, false, 0, []).Ok?
    ensures
      var out, t' := PatchedFdt(dtb, t, capacity, table).value, PatchTree(t, table).value;
      var providers := VisitNode(t, false, 0, []).value;
      && |out| <= capacity && Denotes(out, t') && GoodList(providers)
      && (forall p: Provider :: p in providers <==> Listed(t, false, p))
      && (Walk(t', path).Some? <==> Walk(t, path).Some?)
      && (Walk(t, path).Some? ==> NodeIs(Last(Walk(t', path).value), Walk(t, path).value, Platform(providers, table)))
      && ReserveMap(out) == ReserveMap(dtb) && HeaderKept(out, dtb)
  {
    hide *;
    PatchedHeader(dtb, t, capacity, table);
    PatchedFdtMeaning(dtb, t, capacity, table);
    PatchedTreeMeaning(t, table, path);
    ListIsGood(t);
    forall p: Provider ensures p in VisitNode(t, false, 0, []).value <==> Listed(t, false, p) {
      ProvidersMeaning(t, p);
    }
    FitsCapacity(dtb, t, capacity, table);
  }

  lemma PatchedHeader(dtb: bytes, t: Node, capacity: nat, table: u32)
    requires PatchedFdt(dtb, t, capacity, table).Ok?
    ensures HeaderKept(PatchedFdt(dtb, t, capacity, table).value, dtb)
  {
    hide ParseHeader, ReserveMap, BuildDtb, HeaderKept, PatchedTokens, InternNames, AsOffsets, Encoded;
    var b := PatchBlocks(ReadBlocks(dtb).value, t, table).value;
    BuiltHeader(dtb, ReserveMap(dtb).value, b.structure, b.strings);
  }

  /// The header that this stage accepts: of version 17, with everything behind it and in its alignment.
  lemma PrebootHeader(dtb: bytes)
    ensures ParsePreboot(dtb).Ok? <==>
      && |dtb| >= 40 && dtb[..4] == [0xd0, 0x0d, 0xfe, 0xed]
      && 40 <= Number(dtb, 4) <= |dtb|
      && 40 <= Number(dtb, 8) && Number(dtb, 8) % 4 == 0 && Number(dtb, 8) + Number(dtb, 36) <= Number(dtb, 4)
      && 40 <= Number(dtb, 12) && Number(dtb, 12) + Number(dtb, 32) <= Number(dtb, 4)
      && 40 <= Number(dtb, 16) < Number(dtb, 4) && Number(dtb, 16) % 8 == 0
      && Number(dtb, 20) >= 17 && Number(dtb, 24) <= 17
  {
    HeaderBytes(dtb);
    if ParseHeader(dtb).Ok? {
      BlockOffsets(dtb);
    }
    hide Number, ParseHeader;
  }

  lemma BlockOffsets(dtb: bytes)
    requires ParseHeader(dtb).Ok?
    ensures |dtb| >= 40 && ParseHeader(dtb).value.offDtStruct == Number(dtb, 8) && ParseHeader(dtb).value.offDtStrings == Number(dtb, 12)
  {
    hide Bytes.De32;
  }

  lemma FitsCapacity(dtb: bytes, t: Node, capacity: nat, table: u32)
    requires PatchedFdt(dtb, t, capacity, table).Ok?
    ensures |PatchedFdt(dtb, t, capacity, table).value| <= capacity
  {
    hide ReadBlocks, PatchBlocks, BuildDtb;
  }
}
