/// `graft_spin_table` of `src/kexec.rs` on whole blobs: the grafted blob parses to the grafted
/// tree, reserves the parking page, and can itself be handed on.
module SpinBlob {
  import opened Bytes
  import opened Handoff
  import opened Tokens
  import opened Tree
  import opened Dtb
  import opened Contract
  import opened Reserved
  import opened Nodes
  import opened Psci
  import opened SpinTable
  import opened SpinGraft

  // The grafted tree can be printed and parsed.

  ghost predicate Good(node: Node, room: nat) { WfNode(node, room) && Printable(node) }

  ghost predicate GoodForest(nodes: seq<Node>, room: nat) { WfForest(nodes, room) && PrintableForest(nodes) }

  lemma GoodCons(head: Node, rest: seq<Node>, room: nat)
    requires Good(head, room) && GoodForest(rest, room)
    ensures GoodForest([head] + rest, room)
  {
    assert ([head] + rest)[1..] == rest;
  }

  lemma GoodHead(nodes: seq<Node>, room: nat)
    requires nodes != [] && GoodForest(nodes, room)
    ensures Good(nodes[0], room) && GoodForest(nodes[1..], room)
  {
  }

  lemma GoodNode(node: Node, room: nat)
    requires Good(node, room)
    ensures room > 0 && GoodProps(node.props) && NulFree(node.name)
    ensures UniqueChildren(node.children) && GoodForest(node.children, room - 1)
  {
  }

  lemma MakeGood(node: Node, room: nat)
    requires room > 0 && GoodProps(node.props) && NulFree(node.name)
    requires UniqueChildren(node.children) && GoodForest(node.children, room - 1)
    ensures Good(node, room)
  {
  }

  lemma {:induction false} GoodForestUpdate(nodes: seq<Node>, i: nat, node: Node, room: nat)
    requires i < |nodes| && GoodForest(nodes, room) && Good(node, room)
    ensures GoodForest(nodes[i := node], room)
    decreases |nodes|
  {
    hide Good, GoodForest;
    GoodHead(nodes, room);
    var nodes' := nodes[i := node];
    if i == 0 {
      assert nodes' == [node] + nodes[1..];
      GoodCons(node, nodes[1..], room);
    } else {
      GoodForestUpdate(nodes[1..], i - 1, node, room);
      assert nodes' == [nodes[0]] + nodes[1..][i - 1 := node];
      GoodCons(nodes[0], nodes[1..][i - 1 := node], room);
    }
  }

  lemma {:induction false} GoodForestAt(nodes: seq<Node>, i: nat, room: nat)
    requires i < |nodes| && GoodForest(nodes, room)
    ensures Good(nodes[i], room)
    decreases |nodes|
  {
    hide Good, GoodForest;
    GoodHead(nodes, room);
    if i > 0 {
      GoodForestAt(nodes[1..], i - 1, room);
    }
  }

  lemma {:induction false} GoodForestSnoc(nodes: seq<Node>, node: Node, room: nat)
    requires GoodForest(nodes, room) && Good(node, room)
    ensures GoodForest(nodes + [node], room)
    decreases |nodes|
  {
    if nodes == [] {
      assert nodes + [node] == [node] + [];
      GoodCons(node, [], room);
    } else {
      GoodHead(nodes, room);
      GoodForestSnoc(nodes[1..], node, room);
      assert nodes + [node] == [nodes[0]] + (nodes[1..] + [node]);
      hide Good, GoodForest;
      GoodCons(nodes[0], nodes[1..] + [node], room);
    }
  }

  lemma EditNamesNulFree()
    ensures NulFree(PROP_ENABLE_METHOD) && NulFree(PROP_RELEASE_ADDR) && NulFree(PROP_STATUS)
    ensures |SPIN_TABLE_METHOD| == 11 && |DISABLED| == 9
  {
  }

  lemma EditCpuGood(cpu: Node, mpidr: nat, base: nat, providers: seq<Provider>)
    requires GoodProps(cpu.props) && EditCpu(cpu, mpidr, base, providers).Ok?
    ensures GoodProps(EditCpu(cpu, mpidr, base, providers).value.props)
  {
    EditNamesNulFree();
    hide SetProp, RemoveProp, RemoveDomains, GoodProps, Bytes.Ascii, Bytes.Be64;
    var a := SetProp(cpu.props, PROP_ENABLE_METHOD, SPIN_TABLE_METHOD);
    var b := SetProp(a, PROP_RELEASE_ADDR, ReleaseAddr(base, mpidr));
    SetPropGood(cpu.props, PROP_ENABLE_METHOD, SPIN_TABLE_METHOD);
    SetPropGood(a, PROP_RELEASE_ADDR, ReleaseAddr(base, mpidr));
    RemovePropGood(b, PROP_IDLE_STATES);
    RemoveDomainsGood(SlotCpu(cpu, mpidr, base), providers);
  }

  lemma EditNodeGood(node: Node, addressCells: u32, base: nat, providers: seq<Provider>, room: nat)
    requires Good(node, room) && EditNode(node, addressCells, base, providers).Ok?
    ensures Good(EditNode(node, addressCells, base, providers).value, room)
  {
    if IsCpu(node) {
      GoodNode(node, room);
      EditCpuGood(node, Mpidr(node, addressCells).value, base, providers);
      EditNodeKind(node, addressCells, base, providers, false);
      hide Good, GoodForest, GoodProps, EditCpu, IsCpu, Mpidr;
      MakeGood(EditNode(node, addressCells, base, providers).value, room);
    }
  }

  lemma {:induction false} EditCpusGood(nodes: seq<Node>, addressCells: u32, base: nat, providers: seq<Provider>, room: nat)
    requires GoodForest(nodes, room) && EditCpus(nodes, addressCells, base, providers).Ok?
    ensures
      var out := EditCpus(nodes, addressCells, base, providers).value;
      && GoodForest(out, room) && |out| == |nodes|
      && forall i :: 0 <= i < |nodes| ==> out[i].name == nodes[i].name
    decreases |nodes|
  {
    hide EditCpus, EditNode, Good, GoodForest, IsPsci, IsIdle, IsCpu, Mpidr, HasSlot;
    if nodes == [] {
      EditCpusNil(addressCells, base, providers);
    } else {
      EditCpusCons(nodes, addressCells, base, providers);
      GoodHead(nodes, room);
      EditCpusGood(nodes[1..], addressCells, base, providers, room);
      EditNodeGood(nodes[0], addressCells, base, providers, room);
      EditNodeKind(nodes[0], addressCells, base, providers, false);
      var out := EditCpus(nodes, addressCells, base, providers).value;
      assert out == [out[0]] + out[1..];
      GoodCons(out[0], out[1..], room);
      assert forall i :: 1 <= i < |nodes| ==> out[i] == out[1..][i - 1] && nodes[i] == nodes[1..][i - 1];
    }
  }

  lemma EditTargetGood(target: Node, base: nat, providers: seq<Provider>)
    requires Good(target, MAX_DEPTH) && EditTarget(target, base, providers).Ok?
    ensures Good(EditTarget(target, base, providers).value, MAX_DEPTH)
  {
    GoodNode(target, MAX_DEPTH);
    EditTargetShape(target, base, providers);
    var i := ChildIndex(target.children, CPUS).value;
    var cpus, room := target.children[i], MAX_DEPTH - 1;
    GoodForestAt(target.children, i, room);
    GoodNode(cpus, room);
    hide Good, GoodForest, CpuCells, EditCpus, GoodProps;
    var edited := EditCpus(cpus.children, CpuCells(cpus).value, base, providers).value;
    EditCpusGood(cpus.children, CpuCells(cpus).value, base, providers, room - 1);
    UniqueNames(cpus.children, edited);
    var cpus' := cpus.(children := edited);
    MakeGood(cpus', room);
    GoodForestUpdate(target.children, i, cpus', room);
    var target' := EditTarget(target, base, providers).value;
    UniqueNames(target.children, target'.children);
    MakeGood(target', MAX_DEPTH);
  }

  lemma {:induction false} DisableGood(node: Node, room: nat)
    requires Good(node, room)
    ensures Good(Disable(node), room)
    decreases node, 1
  {
    hide Good, GoodForest, GoodProps, IsPsci;
    GoodNode(node, room);
    EditNamesNulFree();
    SetPropGood(node.props, PROP_STATUS, DISABLED);
    DisableForestGood(node.children, room - 1);
    MakeGood(Disable(node), room);
  }

  lemma {:induction false} DisableForestGood(nodes: seq<Node>, room: nat)
    requires GoodForest(nodes, room) && UniqueChildren(nodes)
    ensures GoodForest(DisableForest(nodes), room) && UniqueChildren(DisableForest(nodes))
    ensures forall n <- DisableForest(nodes) :: exists m <- nodes :: m.name == n.name
    decreases nodes, 0
  {
    hide Good, GoodForest, IsIdle;
    if nodes != [] {
      GoodHead(nodes, room);
      assert UniqueChildren(nodes[1..]) by { assert forall i :: 0 <= i < |nodes| - 1 ==> nodes[1..][i] == nodes[i + 1]; }
      DisableForestGood(nodes[1..], room);
      var out := DisableForest(nodes[1..]);
      assert forall m <- nodes[1..] :: m in nodes && m.name != nodes[0].name;
      if !IsIdle(nodes[0]) {
        DisableGood(nodes[0], room);
        var head := Disable(nodes[0]);
        GoodCons(head, out, room);
        assert nodes[0] in nodes && head.name == nodes[0].name;
        assert forall n <- out :: n.name != head.name;
        HeadUnique(head, out);
      }
    }
  }

  lemma HeadUnique(head: Node, rest: seq<Node>)
    requires UniqueChildren(rest) && forall n <- rest :: n.name != head.name
    ensures UniqueChildren([head] + rest)
  {
  }

  lemma SnocUnique(nodes: seq<Node>, last: Node)
    requires UniqueChildren(nodes) && forall n <- nodes :: n.name != last.name
    ensures UniqueChildren(nodes + [last])
  {
  }

  lemma ThreeGood(p: Property, q: Property, r: Property)
    requires p.name != q.name && p.name != r.name && q.name != r.name
    requires forall x <- [p, q, r] :: NulFree(x.name) && |x.value| < U32_LIMIT
    ensures GoodProps([p, q, r])
  {
  }

  lemma ParkingNamesNulFree()
    ensures NulFree(PROP_COMPATIBLE) && NulFree(PROP_NO_MAP) && NulFree(PROP_REG)
  {
  }

  lemma PrefixNulFree()
    ensures NulFree(Ascii("spin-table@"))
  {
  }

  lemma ReservedNamesNulFree()
    ensures NulFree(PROP_ADDRESS_CELLS) && NulFree(PROP_SIZE_CELLS)
    ensures NulFree(PROP_RANGES) && NulFree(RESERVED_MEMORY)
  {
  }

  lemma NewNodesGood(root: Node, base: u64, addressCells: u32, sizeCells: u32, room: nat)
    requires room > 0 && ValidBase(base)
    ensures NewReserved(root).Ok? ==> Good(NewReserved(root).value, room)
    ensures NewParking(base, addressCells, sizeCells).Ok? ==> Good(NewParking(base, addressCells, sizeCells).value, room)
  {
    ParkingNames();
    ParkingNamesNulFree();
    PrefixNulFree();
    ReservedNamesNulFree();
    hide Bytes.Ascii, Bytes.Be32, Bytes.Be64, GoodProps, GetProp;
    if NewReserved(root).Ok? {
      var p := NewReserved(root).value.props;
      ThreeGood(p[0], p[1], p[2]);
      MakeGood(NewReserved(root).value, room);
    }
    if NewParking(base, addressCells, sizeCells).Ok? {
      var node := NewParking(base, addressCells, sizeCells).value;
      ThreeGood(node.props[0], node.props[1], node.props[2]);
      assert NulFree(ParkingName(base));
      MakeGood(node, room);
    }
  }

  lemma GraftParkingGood(root: Node, base: u64)
    requires Good(root, MAX_DEPTH) && ValidBase(base) && GraftParking(root, base).Ok?
    ensures Good(GraftParking(root, base).value, MAX_DEPTH)
  {
    var room := MAX_DEPTH - 1;
    GoodNode(root, MAX_DEPTH);
    hide Good, GoodForest, GoodProps, NewReserved, NewParking, ReservedCells, CheckReservations, Contracts, RegRanges, IsParking;
    var root' := WithReserved(root).value;
    NewNodesGood(root, base, 1, 1, room);
    if Child(root, RESERVED_MEMORY).None? {
      var reserved := NewReserved(root).value;
      NewReservedName(root);
      GoodForestSnoc(root.children, reserved, room);
      SnocUnique(root.children, reserved);
    }
    var i := ChildIndex(root'.children, RESERVED_MEMORY).value;
    var reserved := root'.children[i];
    var (a, z) := ReservedCells(root', reserved).value;
    MakeGood(root', MAX_DEPTH);
    if !CheckReservations(reserved.children, a, z, base, false).value {
      CheckedContracts(reserved.children, a, z, base, false);
      ParkingAdded(root', i, base, a, z);
    }
  }

  lemma ParkingAdded(root: Node, i: nat, base: u64, a: u32, z: u32)
    requires Good(root, MAX_DEPTH) && ValidBase(base) && i < |root.children| && NewParking(base, a, z).Ok?
    requires forall n <- root.children[i].children :: n.name != ParkingName(base)
    ensures
      var reserved := root.children[i];
      Good(root.(children := root.children[i := reserved.(children := reserved.children + [NewParking(base, a, z).value])]), MAX_DEPTH)
  {
    var room, reserved, parking := MAX_DEPTH - 1, root.children[i], NewParking(base, a, z).value;
    assert parking.name == ParkingName(base);
    hide Good, GoodForest, GoodProps, NewParking, ParkingName;
    GoodNode(root, MAX_DEPTH);
    GoodForestAt(root.children, i, room);
    GoodNode(reserved, room);
    NewNodesGood(root, base, a, z, room - 1);
    GoodForestSnoc(reserved.children, parking, room - 1);
    SnocUnique(reserved.children, parking);
    var child := reserved.(children := reserved.children + [parking]);
    MakeGood(child, room);
    GoodForestUpdate(root.children, i, child, room);
    var root' := root.(children := root.children[i := child]);
    UniqueNames(root.children, root'.children);
    MakeGood(root', MAX_DEPTH);
  }

  lemma GraftTargetGood(target: Node, base: u64)
    requires WfTree(target) && Printable(target) && ValidBase(base) && GraftTarget(target, base).Ok?
    ensures WfTree(GraftTarget(target, base).value) && Printable(GraftTarget(target, base).value)
  {
    hide EditTarget, GraftParking, Disable, Providers;
    var providers := Providers(target).value;
    var edited := EditTarget(target, base, providers).value;
    EditTargetGood(target, base, providers);
    EditTargetShape(target, base, providers);
    DisableGood(edited, MAX_DEPTH);
    GraftParkingGood(Disable(edited), base);
    GraftParkingShape(Disable(edited), base);
  }

  // The reservation map.

  lemma MapStep(m: bytes, cursor: nat)
    requires cursor + 16 <= |m|
    ensures
      var address, size := De64(m[cursor..cursor + 8]), De64(m[cursor + 8..cursor + 16]);
      && MapEnd(m, |m|, cursor) == (if address == 0 && size == 0 then Ok(cursor + 16) else MapEnd(m, |m|, cursor + 16))
      && MapRanges(m, |m|, cursor) ==
         if address == 0 && size == 0 then Ok([])
         else if size == 0 then MapRanges(m, |m|, cursor + 16)
         else if address + size >= U64_LIMIT then InvalidData
         else
           var rest :- MapRanges(m, |m|, cursor + 16);
           Ok([Range(address, address + size)] + rest)
  {
    hide Bytes.De64;
  }

  lemma AddedEntry(m: bytes, base: u64)
    requires |m| >= 16
    ensures
      var m', n := AddToMap(m, base), |m| - 16;
      && |m'| == |m| + 16 && m'[..n] == m[..n] && m'[n..n + 8] == Be64(base) && m'[n + 8..n + 16] == Be64(SPIN_TABLE_BYTES)
      && m'[n + 16..n + 24] == Zeros(8) && m'[n + 24..n + 32] == Zeros(8)
  {
    hide Bytes.Be64;
  }

  lemma ZeroEntry()
    ensures De64(Zeros(8)) == 0
  {
  }

  /// Appending the page before the terminator appends its range.
  lemma {:induction false} AddToMapRanges(m: bytes, base: u64, cursor: nat)
    requires |m| >= 16 && ValidBase(base) && MapEnd(m, |m|, cursor) == Ok(|m|) && MapRanges(m, |m|, cursor).Ok?
    ensures
      var m' := AddToMap(m, base);
      && MapEnd(m', |m'|, cursor) == Ok(|m'|)
      && MapRanges(m', |m'|, cursor) == Ok(MapRanges(m, |m|, cursor).value + [Range(base, base + SPIN_TABLE_BYTES)])
    decreases |m| - cursor
  {
    hide MapEnd, MapRanges, AddToMap, Bytes.De64, Bytes.Be64, Bytes.Zeros;
    var m', n := AddToMap(m, base), |m| - 16;
    AddedEntry(m, base);
    MapEndBound(m, cursor);
    MapStep(m, cursor);
    MapStep(m', cursor);
    if cursor == n {
      De64Be64(base);
      De64Be64(SPIN_TABLE_BYTES);
      ZeroEntry();
      MapStep(m', cursor + 16);
      MapEndLast(m, cursor);
      assert [Range(base, base + SPIN_TABLE_BYTES)] + [] == [] + [Range(base, base + SPIN_TABLE_BYTES)];
    } else {
      MapEndLast(m, cursor);
      SameEntry(m, m', n, cursor);
      AddToMapRanges(m, base, cursor + 16);
      assert forall r: Range, rest: seq<Range>, x: Range :: [r] + (rest + [x]) == [r] + rest + [x];
    }
  }

  lemma MapEndBound(m: bytes, cursor: nat)
    requires MapEnd(m, |m|, cursor).Ok?
    ensures cursor + 16 <= |m|
  {
  }

  /// The terminator is the last entry, and only the last.
  lemma MapEndLast(m: bytes, cursor: nat)
    requires MapEnd(m, |m|, cursor) == Ok(|m|)
    ensures
      var zero := De64(m[cursor..cursor + 8]) == 0 && De64(m[cursor + 8..cursor + 16]) == 0;
      && cursor + 16 <= |m|
      && (zero <==> cursor == |m| - 16)
      && (!zero ==> cursor + 16 <= |m| - 16)
  {
    hide Bytes.De64;
    if !(De64(m[cursor..cursor + 8]) == 0 && De64(m[cursor + 8..cursor + 16]) == 0) {
      MapEndBound(m, cursor + 16);
    }
  }

  lemma SameEntry(m: bytes, m': bytes, n: nat, cursor: nat)
    requires n <= |m| && n <= |m'| && m'[..n] == m[..n] && cursor + 16 <= n
    ensures m'[cursor..cursor + 8] == m[cursor..cursor + 8] && m'[cursor + 8..cursor + 16] == m[cursor + 8..cursor + 16]
  {
    SubSlice(m, 0, n, cursor, cursor + 8);
    SubSlice(m', 0, n, cursor, cursor + 8);
    SubSlice(m, 0, n, cursor + 8, cursor + 16);
    SubSlice(m', 0, n, cursor + 8, cursor + 16);
  }

  lemma {:induction false} MapReservesSnoc(ranges: seq<Range>, base: nat)
    requires MapReserves(ranges, base).Ok?
    ensures MapReserves(ranges + [Range(base, base + SPIN_TABLE_BYTES)], base) == Ok(true)
  {
    var last := Range(base, base + SPIN_TABLE_BYTES);
    if ranges == [] {
      assert ranges + [last] == [last] && [last][1..] == [];
      assert MapReserves([], base) == Ok(false);
    } else {
      MapReservesSnoc(ranges[1..], base);
      assert (ranges + [last])[1..] == ranges[1..] + [last];
    }
  }

  lemma {:induction false} MapReservesMeaning(ranges: seq<Range>, base: nat)
    requires MapReserves(ranges, base).Ok?
    ensures MapReserves(ranges, base).value <==> Range(base, base + SPIN_TABLE_BYTES) in ranges
  {
    if ranges != [] {
      MapReservesMeaning(ranges[1..], base);
    }
  }

  // The whole graft.

  /// The reservation map of the grafted blob.
  function GraftMap(dtb: bytes, base: u64): Result<bytes> {
    var reserveMap :- ReserveMap(dtb);
    var ranges :- ReserveMapRanges(dtb);
    var already :- MapReserves(ranges, base);
    if already then Ok(reserveMap)
    else if |reserveMap| < 16 then InvalidData
    else Ok(AddToMap(reserveMap, base))
  }

  /// Grafting the contract with this page into a blob.
  function GraftPage(dtb: bytes, base: u64, liveIds: set<nat>): Result<bytes>
    requires ValidBase(base)
  {
    var target :- ContractTree(dtb);
    var header :- ParseHeader(dtb);
    if header.bootCpuidPhys != 0 then InvalidData
    else
      var ids :- CpuIds(target);
      if IdSet(ids) != liveIds then InvalidData
      else
        var grafted :- GraftTarget(target, base);
        var reserveMap :- GraftMap(dtb, base);
        assert Printable(grafted) by {
          ParsedWf(dtb);
          ParsedPrintable(StructBlock(dtb).value, StringsBlock(dtb).value);
          GraftTargetGood(target, base);
        }
        BuildContractTree(header, grafted, reserveMap)
  }

  /// `graft_spin_table`.
  function GraftSpinTable(dtb: bytes, liveDtb: bytes): Result<bytes> {
    var live :- ContractTree(liveDtb);
    var contract :- LiveContract(liveDtb);
    match contract
    case None => Ok(dtb)
    case Some(base) =>
      var liveIds :- CpuIds(live);
      GraftPage(dtb, base, IdSet(liveIds))
  }

  const FOUR_CPUS: set<nat> := {0, 1, 2, 3}

  lemma LiveIds(liveDtb: bytes, base: u64)
    requires LiveContract(liveDtb) == Ok(Some(base))
    ensures ContractTree(liveDtb).Ok? && CpuIds(ContractTree(liveDtb).value).Ok?
    ensures IdSet(CpuIds(ContractTree(liveDtb).value).value) == FOUR_CPUS
  {
    hide GraftParking, MapReserves, OwnedBase, HasSpinTableCpu;
  }

  /// With a live contract, grafting depends on the live blob through its page only.
  lemma GraftUsesPage(dtb: bytes, liveDtb: bytes, base: u64)
    requires LiveContract(liveDtb) == Ok(Some(base))
    ensures GraftSpinTable(dtb, liveDtb) == GraftPage(dtb, base, FOUR_CPUS)
  {
    LiveIds(liveDtb, base);
    hide GraftPage, LiveContract, CpuIds;
  }

  lemma GraftMapMeaning(dtb: bytes, base: u64)
    requires ValidBase(base) && GraftMap(dtb, base).Ok?
    ensures
      var m, ranges := GraftMap(dtb, base).value, ReserveMapRanges(dtb).value;
      && MapOk(m) && m != []
      && ReserveMap(dtb).Ok? && ReserveMapRanges(dtb).Ok? && MapReserves(ranges, base).Ok?
      && MapRanges(m, |m|, 0) ==
         Ok(if Range(base, base + SPIN_TABLE_BYTES) in ranges then ranges else ranges + [Range(base, base + SPIN_TABLE_BYTES)])
  {
    hide MapEnd, MapRanges, ParseHeader;
    ReadMapOk(dtb);
    var m, ranges := ReserveMap(dtb).value, ReserveMapRanges(dtb).value;
    MapReservesMeaning(ranges, base);
    MapEndBound(m, 0);
    if !MapReserves(ranges, base).value {
      AddToMapRanges(m, base, 0);
    }
  }

  /// The grafted blob parses to the grafted tree, and its map reserves the page.
  lemma GraftPageParses(dtb: bytes, base: u64)
    requires ValidBase(base) && GraftPage(dtb, base, FOUR_CPUS).Ok?
    ensures
      var out, target := GraftPage(dtb, base, FOUR_CPUS).value, ContractTree(dtb);
      && target.Ok? && WfTree(target.value) && CpuIds(target.value).Ok? && IdSet(CpuIds(target.value).value) == FOUR_CPUS
      && GraftTarget(target.value, base).Ok? && ContractTree(out) == Ok(GraftTarget(target.value, base).value)
      && GraftMap(dtb, base).Ok? && ReserveMap(out) == GraftMap(dtb, base)
      && ReserveMapRanges(dtb).Ok? && ReserveMapRanges(out).Ok?
      && (var ranges := ReserveMapRanges(dtb).value;
          ReserveMapRanges(out).value ==
          if Range(base, base + SPIN_TABLE_BYTES) in ranges then ranges else ranges + [Range(base, base + SPIN_TABLE_BYTES)])
      && MapReserves(ReserveMapRanges(out).value, base) == Ok(true)
      && SameBoot(dtb, out) && ParseHeader(dtb).value.bootCpuidPhys == 0
      && Printable(GraftTarget(target.value, base).value)
      && BuildContractTree(ParseHeader(dtb).value, GraftTarget(target.value, base).value, GraftMap(dtb, base).value) == Ok(out)
  {
    ParsedWf(dtb);
    ParsedPrintable(StructBlock(dtb).value, StringsBlock(dtb).value);
    var target, header, out := ContractTree(dtb).value, ParseHeader(dtb).value, GraftPage(dtb, base, FOUR_CPUS).value;
    hide ContractTree, GraftTarget, GraftMap, MapReserves, BuildContractTree, ParseHeader, WfTree, Printable, MapRanges, ReserveMap;
    hide CpuIds, ReserveMapRanges;
    GraftTargetGood(target, base);
    GraftMapMeaning(dtb, base);
    var m, ranges := GraftMap(dtb, base).value, ReserveMapRanges(dtb).value;
    RoundTrip(header, GraftTarget(target, base).value, m);
    RoundTripHeader(header, GraftTarget(target, base).value, m);
    MapReservesMeaning(ranges, base);
    if Range(base, base + SPIN_TABLE_BYTES) !in ranges {
      MapReservesSnoc(ranges, base);
    }
  }

  /// Version and boot CPU survive printing.
  ghost predicate SameBoot(dtb: bytes, out: bytes) {
    var h, h' := ParseHeader(dtb), ParseHeader(out);
    && h.Ok? && h'.Ok? && h'.value.version == h.value.version && h'.value.lastCompVersion == h.value.lastCompVersion
    && h'.value.bootCpuidPhys == h.value.bootCpuidPhys
  }

  lemma RoundTripHeader(header: Header, root: Node, reserveMap: bytes)
    requires Printable(root) && reserveMap != [] && BuildContractTree(header, root, reserveMap).Ok?
    ensures
      var out := BuildContractTree(header, root, reserveMap).value;
      && ParseHeader(out).Ok? && ParseHeader(out).value.version == header.version
      && ParseHeader(out).value.lastCompVersion == header.lastCompVersion
      && ParseHeader(out).value.bootCpuidPhys == header.bootCpuidPhys
  {
    hide ParseHeader, BuildDtb, Enc, EncAll;
    WriteNodeMeaning(root, []);
    var printed := WriteNode(root, []).value;
    BuiltBlocks(header, reserveMap, EncAll(printed.tokens) + Enc(Fin), printed.strings);
  }

  /// Only version and boot CPU are taken from the old header.
  lemma BuildIgnoresRest(h: Header, h': Header, root: Node, reserveMap: bytes)
    requires Printable(root)
    requires h'.version == h.version && h'.lastCompVersion == h.lastCompVersion && h'.bootCpuidPhys == h.bootCpuidPhys
    ensures BuildContractTree(h', root, reserveMap) == BuildContractTree(h, root, reserveMap)
  {
  }

  /// The contract is kept by the graft, page and slots and CPU order included, if and only if
  /// the destination's CPUs and its own reservation of the page, if any, allow it.
  lemma GraftedBlobContract(dtb: bytes, base: u64)
    requires ValidBase(base) && GraftPage(dtb, base, FOUR_CPUS).Ok?
    ensures
      var out, target := GraftPage(dtb, base, FOUR_CPUS).value, ContractTree(dtb);
      && target.Ok? && ContractTree(out).Ok?
      && (SpinTableContract(ContractTree(out).value) == Ok(Some(base)) <==> CpusKept(target.value) && SingleTuples(target.value))
      && (CpusKept(target.value) ==>
            CpuIds(ContractTree(out).value) == CpuIds(target.value) && CpusOwnSlots(ContractTree(out).value, base))
      && ReserveMapRanges(out).Ok? && Range(base, base + SPIN_TABLE_BYTES) in ReserveMapRanges(out).value
      && (LiveContract(out) == Ok(Some(base)) <==> CpusKept(target.value) && SingleTuples(target.value))
  {
    hide *;
    GraftPageParses(dtb, base);
    var target, out := ContractTree(dtb).value, GraftPage(dtb, base, FOUR_CPUS).value;
    FourCpus();
    GraftKeepsContract(target, base);
    GraftedCanHandOn(target, base, dtb, out);
    assert Range(base, base + SPIN_TABLE_BYTES) in ReserveMapRanges(out).value;
  }

  lemma FourCpus()
    ensures FOUR_CPUS == {0, 1, 2, 3}
  {
  }

  lemma GraftedCanHandOn(target: Node, base: u64, dtb: bytes, out: bytes)
    requires ValidBase(base) && GraftTarget(target, base).Ok? && ContractTree(out) == Ok(GraftTarget(target, base).value)
    requires ReserveMapRanges(out).Ok? && MapReserves(ReserveMapRanges(out).value, base) == Ok(true)
    requires SameBoot(dtb, out) && ParseHeader(dtb).value.bootCpuidPhys == 0
    ensures LiveContract(out) == Ok(Some(base)) <==> SpinTableContract(ContractTree(out).value) == Ok(Some(base))
  {
    hide SpinTableContract, EditTarget, Disable, Providers, GraftParking, MapReserves, ContractTree, ReserveMapRanges, ParseHeader;
    var edited := EditTarget(target, base, Providers(target).value).value;
    ParkingAgain(Disable(edited), base);
  }

  /// Grafting a grafted blob again, from any live blob with the same page, gives the same bytes exactly
  /// when no CPU was lost and the providers its CPUs still refer to are still there; otherwise it is refused.
  lemma GraftPageAgain(dtb: bytes, base: u64)
    requires ValidBase(base) && GraftPage(dtb, base, FOUR_CPUS).Ok?
    ensures
      var target, out := ContractTree(dtb), GraftPage(dtb, base, FOUR_CPUS);
      && target.Ok?
      && GraftPage(out.value, base, FOUR_CPUS) ==
         if CpusKept(target.value) && ProvidersKept(target.value) then out else InvalidData
  {
    GraftPageParses(dtb, base);
    var target, out := ContractTree(dtb).value, GraftPage(dtb, base, FOUR_CPUS).value;
    var t := GraftTarget(target, base).value;
    FourCpus();
    assert HasFourCpus(target);
    assert GraftMap(out, base) == GraftMap(dtb, base);
    GraftPageOf(out, t, base);
    hide *;
    CheckedIs(target, base);
    GraftCheckedAgain(target, base);
    BuildIgnoresRest(ParseHeader(dtb).value, ParseHeader(out).value, t, GraftMap(dtb, base).value);
  }

  lemma CheckedIs(target: Node, base: u64)
    requires HasFourCpus(target)
    ensures GraftChecked(target, base) == GraftTarget(target, base)
  {
    hide GraftTarget;
  }

  /// What the graft makes of a blob that parses and hands on boot CPU 0, when the tree stays the same.
  lemma GraftPageOf(dtb: bytes, t: Node, base: u64)
    requires ValidBase(base) && ContractTree(dtb) == Ok(t) && Printable(t) && GraftMap(dtb, base).Ok?
    requires ParseHeader(dtb).Ok? && ParseHeader(dtb).value.bootCpuidPhys == 0
    ensures GraftChecked(t, base).InvalidData? ==> GraftPage(dtb, base, FOUR_CPUS) == InvalidData
    ensures GraftChecked(t, base) == Ok(t) ==>
      GraftPage(dtb, base, FOUR_CPUS) == BuildContractTree(ParseHeader(dtb).value, t, GraftMap(dtb, base).value)
  {
    FourCpus();
    hide ContractTree, GraftTarget, GraftMap, BuildContractTree, ParseHeader, Printable, CpuIds;
  }

  /// The same with `live` again: the same bytes under the same condition.
  lemma GraftSpinTableAgain(dtb: bytes, liveDtb: bytes, base: u64)
    requires LiveContract(liveDtb) == Ok(Some(base)) && GraftSpinTable(dtb, liveDtb).Ok?
    ensures
      var target, out := ContractTree(dtb), GraftSpinTable(dtb, liveDtb);
      && target.Ok?
      && GraftSpinTable(out.value, liveDtb) ==
         if CpusKept(target.value) && ProvidersKept(target.value) then out else InvalidData
  {
    hide GraftPage, LiveContract, CpusKept, ProvidersKept, ContractTree, GraftSpinTable;
    GraftUsesPage(dtb, liveDtb, base);
    var out := GraftSpinTable(dtb, liveDtb).value;
    GraftPageAgain(dtb, base);
    GraftUsesPage(out, liveDtb, base);
  }

  /// The output as its own live blob: unchanged when no CPU was left to start through the page, or when
  /// the output is a contract whose CPUs' providers are still there; refused in every other case.
  lemma GraftSpinTableSelf(dtb: bytes, liveDtb: bytes, base: u64)
    requires LiveContract(liveDtb) == Ok(Some(base)) && GraftSpinTable(dtb, liveDtb).Ok?
    ensures
      var target, out := ContractTree(dtb), GraftSpinTable(dtb, liveDtb);
      && target.Ok?
      && GraftSpinTable(out.value, out.value) ==
         if !SomeCpuKept(target.value) || (CpusKept(target.value) && SingleTuples(target.value) && ProvidersKept(target.value))
         then out else InvalidData
  {
    hide *;
    GraftUsesPage(dtb, liveDtb, base);
    LiveBase(liveDtb);
    GraftPageParses(dtb, base);
    GraftPageAgain(dtb, base);
    GraftedBlobContract(dtb, base);
    var target, out := ContractTree(dtb).value, GraftSpinTable(dtb, liveDtb).value;
    FourCpus();
    FourIs(target);
    CheckedIs(target, base);
    GraftedClaims(target, base);
    SomeOfFour(target);
    var t := GraftChecked(target, base).value;
    if LiveContract(out) == Ok(Some(base)) {
      GraftUsesPage(out, out, base);
    } else {
      NotLive(out, t, base);
    }
  }

  lemma LiveBase(liveDtb: bytes)
    ensures LiveContract(liveDtb).Ok? && LiveContract(liveDtb).value.Some? ==> ValidBase(LiveContract(liveDtb).value.value)
  {
  }

  lemma FourIs(target: Node)
    requires CpuIds(target).Ok? && IdSet(CpuIds(target).value) == FOUR_CPUS
    ensures HasFourCpus(target)
  {
    hide CpuIds;
  }

  /// Of four CPUs some is kept when all are.
  lemma SomeOfFour(target: Node)
    requires HasFourCpus(target)
    ensures CpusKept(target) ==> SomeCpuKept(target)
  {
    hide Ids, IsCpu, Survives, DistinctIds;
    var cpus := Child(target, CPUS).value;
    var a := CpuCells(cpus).value;
    assert Ids(cpus.children, a).value != [] by {
      assert 0 in IdSet(CpuIds(target).value);
    }
    SomeAmong(cpus.children, a);
  }

  lemma {:induction false} SomeAmong(nodes: seq<Node>, addressCells: u32)
    requires Ids(nodes, addressCells).Ok? && Ids(nodes, addressCells).value != []
    ensures exists cpu <- nodes :: IsCpu(cpu)
    decreases |nodes|
  {
    hide IsCpu, Mpidr;
    assert nodes[0] in nodes;
    if !IsCpu(nodes[0]) {
      SomeAmong(nodes[1..], addressCells);
      assert forall cpu <- nodes[1..] :: cpu in nodes;
    }
  }

  /// A grafted blob that is no contract for its page: passed through when no CPU uses a page, refused otherwise.
  lemma NotLive(out: bytes, t: Node, base: u64)
    requires ContractTree(out) == Ok(t) && (OwnedBase(t).Ok? ==> OwnedBase(t) == Ok(base))
    requires SpinTableContract(t) != Ok(Some(base))
    ensures GraftSpinTable(out, out) == if HasSpinTableCpu(t) then InvalidData else Ok(out)
  {
    hide ContractTree, OwnedBase, HasSpinTableCpu, CpusOwnSlots, GraftPage, CpuIds;
  }
}
