/// When `graft_spin_table` of `src/kexec.rs` returns: the edits of the tree add a bounded amount, so the
/// grafted blob fits 32 bits unless the supplied one is very large.
module SpinFits {
  import opened Bytes
  import opened Handoff
  import opened Tokens
  import opened Tree
  import opened Dtb
  import opened Contract
  import opened Reserved
  import opened Nodes
  import opened Psci
  import opened SpinTable
  import opened SpinGraft
  import opened SpinBlob
  import opened Fits

  // A bound on the bytes of the blob that a node needs, its names included.

  function PropWeight(p: Property): nat { 16 + |p.value| + |p.name| }

  function PropsWeight(props: seq<Property>): nat {
    if props == [] then 0 else PropWeight(props[0]) + PropsWeight(props[1..])
  }

  function Weight(node: Node): nat
    decreases node, 1
  {
    12 + |node.name| + PropsWeight(node.props) + ForestWeight(node.children)
  }

  function ForestWeight(nodes: seq<Node>): nat
    decreases nodes, 0
  {
    if nodes == [] then 0 else Weight(nodes[0]) + ForestWeight(nodes[1..])
  }

  lemma {:induction false} PropsFit(props: seq<Property>, strings: bytes)
    ensures EventSizes(PropEvents(props)) + |GrownAll(strings, PropEvents(props))| <= PropsWeight(props) + |strings|
  {
    hide FindString;
    if props != [] {
      PropsFit(props[1..], Grown(strings, props[0].name));
      assert PropEvents(props)[1..] == PropEvents(props[1..]);
    }
  }

  /// The structure and the strings of a printed node together stay below its weight.
  lemma {:induction false} NodeFits(node: Node, strings: bytes)
    ensures EventSizes(Events(node)) + |GrownAll(strings, Events(node))| <= Weight(node) + |strings|
    decreases node, 1
  {
    hide Events, GrownAll, EventSizes, PropsWeight;
    var names := GrownAll(strings, PropEvents(node.props));
    GrownNode(strings, node);
    NodeSizes(node);
    PropsFit(node.props, strings);
    ForestFits(node.children, names);
  }

  lemma {:induction false} ForestFits(nodes: seq<Node>, strings: bytes)
    ensures EventSizes(ForestEvents(nodes)) + |GrownAll(strings, ForestEvents(nodes))| <= ForestWeight(nodes) + |strings|
    decreases nodes, 0
  {
    hide Events;
    if nodes != [] {
      NodeFits(nodes[0], strings);
      ForestFits(nodes[1..], GrownAll(strings, Events(nodes[0])));
      GrownAllAppend(strings, Events(nodes[0]), ForestEvents(nodes[1..]));
      EventSizesAppend(Events(nodes[0]), ForestEvents(nodes[1..]));
    }
  }

  // What the edits add.

  lemma {:induction false} SetWeight(props: seq<Property>, name: bytes, value: bytes)
    ensures PropsWeight(SetProp(props, name, value)) <= PropsWeight(props) + PropWeight(Property(name, value))
  {
    var set' := SetProp(props, name, value);
    if props == [] || props[0].name == name {
      assert set'[1..] == if props == [] then [] else props[1..];
    } else {
      SetWeight(props[1..], name, value);
      assert set'[1..] == SetProp(props[1..], name, value);
    }
  }

  lemma {:induction false} RemoveWeight(props: seq<Property>, name: bytes)
    ensures PropsWeight(RemoveProp(props, name)) <= PropsWeight(props)
  {
    if props != [] {
      RemoveWeight(props[1..], name);
      var rest := RemoveProp(props[1..], name);
      assert [] + rest == rest && ([props[0]] + rest)[1..] == rest;
    }
  }

  lemma {:induction false} GetWeight(props: seq<Property>, name: bytes)
    requires GetProp(props, name).Some?
    ensures PropWeight(Property(name, GetProp(props, name).value)) <= PropsWeight(props)
  {
    if props[0].name != name {
      GetWeight(props[1..], name);
    }
  }

  lemma DomainsWeight(cpu: Node, providers: seq<Provider>)
    requires RemoveDomains(cpu, providers).Ok?
    ensures
      var out := RemoveDomains(cpu, providers).value;
      && out.name == cpu.name && out.children == cpu.children
      && PropsWeight(out.props) <= 3 * PropsWeight(cpu.props)
  {
    hide Tuples, RetainedNames, PropsWeight, SetProp, RemoveProp, GetProp;
    var domains := Get(cpu, PROP_POWER_DOMAINS);
    if domains.Some? {
      var tuples := Tuples(domains.value, providers).value;
      var old', retained := Get(cpu, PROP_POWER_DOMAIN_NAMES), Retained(tuples);
      var names := RetainedNames(old', tuples).value;
      TuplesAgain(domains.value, providers, providers);
      GetWeight(cpu.props, PROP_POWER_DOMAINS);
      SetWeight(cpu.props, PROP_POWER_DOMAINS, retained);
      RemoveWeight(cpu.props, PROP_POWER_DOMAINS);
      RemoveWeight(RemoveProp(cpu.props, PROP_POWER_DOMAINS), PROP_POWER_DOMAIN_NAMES);
      if names.Some? && retained != [] {
        NamesGiven(old', tuples);
        NamesAgain(old', tuples);
        GetWeight(cpu.props, PROP_POWER_DOMAIN_NAMES);
        SetWeight(SetProp(cpu.props, PROP_POWER_DOMAINS, retained), PROP_POWER_DOMAIN_NAMES, names.value);
      }
    }
  }

  lemma NamesGiven(value: Option<bytes>, tuples: seq<Tuple>)
    requires RetainedNames(value, tuples).Ok? && RetainedNames(value, tuples).value.Some?
    ensures value.Some?
  {
  }

  lemma AddedLengths()
    ensures |PROP_ENABLE_METHOD| == 13 && |SPIN_TABLE_METHOD| == 11 && |PROP_RELEASE_ADDR| == 16
    ensures |PROP_STATUS| == 6 && |DISABLED| == 9
  {
  }

  lemma EditCpuWeight(cpu: Node, mpidr: nat, base: nat, providers: seq<Provider>)
    requires EditCpu(cpu, mpidr, base, providers).Ok?
    ensures Weight(EditCpu(cpu, mpidr, base, providers).value) <= 23 * Weight(cpu)
  {
    AddedLengths();
    hide PropsWeight, ForestWeight, SetProp, RemoveProp, RemoveDomains, Bytes.Be64;
    var one := SetProp(cpu.props, PROP_ENABLE_METHOD, SPIN_TABLE_METHOD);
    var two := SetProp(one, PROP_RELEASE_ADDR, ReleaseAddr(base, mpidr));
    SetWeight(cpu.props, PROP_ENABLE_METHOD, SPIN_TABLE_METHOD);
    SetWeight(one, PROP_RELEASE_ADDR, ReleaseAddr(base, mpidr));
    RemoveWeight(two, PROP_IDLE_STATES);
    DomainsWeight(Node(cpu.name, RemoveProp(two, PROP_IDLE_STATES), cpu.children), providers);
  }

  lemma {:induction false} EditCpusWeight(nodes: seq<Node>, addressCells: u32, base: nat, providers: seq<Provider>)
    requires EditCpus(nodes, addressCells, base, providers).Ok?
    ensures ForestWeight(EditCpus(nodes, addressCells, base, providers).value) <= 23 * ForestWeight(nodes)
  {
    hide EditCpu, IsCpu, Mpidr, Weight;
    if nodes != [] {
      if IsCpu(nodes[0]) {
        EditCpuWeight(nodes[0], Mpidr(nodes[0], addressCells).value, base, providers);
      }
      EditCpusWeight(nodes[1..], addressCells, base, providers);
      assert EditCpus(nodes, addressCells, base, providers).value[1..] == EditCpus(nodes[1..], addressCells, base, providers).value;
    }
  }

  lemma {:induction false} UpdateWeight(nodes: seq<Node>, i: nat, node: Node)
    requires i < |nodes|
    ensures ForestWeight(nodes[i := node]) + Weight(nodes[i]) == ForestWeight(nodes) + Weight(node)
    decreases i
  {
    hide Weight;
    if i == 0 {
      assert nodes[0 := node][1..] == nodes[1..];
    } else {
      UpdateWeight(nodes[1..], i - 1, node);
      assert nodes[i := node][1..] == nodes[1..][i - 1 := node];
    }
  }

  lemma {:induction false} SnocWeight(nodes: seq<Node>, node: Node)
    ensures ForestWeight(nodes + [node]) == ForestWeight(nodes) + Weight(node)
  {
    hide Weight;
    if nodes == [] {
      assert [node][1..] == [] && nodes + [node] == [node];
    } else {
      SnocWeight(nodes[1..], node);
      assert (nodes + [node])[1..] == nodes[1..] + [node];
    }
  }

  lemma {:induction false} MemberWeight(nodes: seq<Node>, i: nat)
    requires i < |nodes|
    ensures Weight(nodes[i]) <= ForestWeight(nodes)
    decreases i
  {
    hide Weight;
    if i > 0 {
      MemberWeight(nodes[1..], i - 1);
    }
  }

  lemma EditTargetWeight(target: Node, base: nat, providers: seq<Provider>)
    requires EditTarget(target, base, providers).Ok?
    ensures Weight(EditTarget(target, base, providers).value) <= 23 * Weight(target)
  {
    hide EditCpus, CpuCells, PropsWeight, ForestWeight;
    var i := ChildIndex(target.children, CPUS).value;
    var cpus := target.children[i];
    var edited := EditCpus(cpus.children, CpuCells(cpus).value, base, providers).value;
    EditCpusWeight(cpus.children, CpuCells(cpus).value, base, providers);
    UpdateWeight(target.children, i, cpus.(children := edited));
    MemberWeight(target.children, i);
  }

  lemma {:induction false} DisableWeight(node: Node)
    ensures Weight(Disable(node)) <= 4 * Weight(node)
    decreases node, 1
  {
    AddedLengths();
    hide PropsWeight, ForestWeight, IsPsci, SetProp, DisableForest;
    SetWeight(node.props, PROP_STATUS, DISABLED);
    DisableForestWeight(node.children);
  }

  lemma {:induction false} DisableForestWeight(nodes: seq<Node>)
    ensures ForestWeight(DisableForest(nodes)) <= 4 * ForestWeight(nodes)
    decreases nodes, 0
  {
    hide IsIdle, Weight, Disable;
    if nodes != [] {
      DisableWeight(nodes[0]);
      DisableForestWeight(nodes[1..]);
      assert ([Disable(nodes[0])] + DisableForest(nodes[1..]))[1..] == DisableForest(nodes[1..]);
    }
  }

  lemma ThreeProps(a: Property, b: Property, c: Property)
    ensures PropsWeight([a, b, c]) == PropWeight(a) + PropWeight(b) + PropWeight(c)
  {
    hide PropWeight;
    assert [a, b, c][1..] == [b, c] && [b, c][1..] == [c] && [c][1..] == [];
    assert PropsWeight([c]) == PropWeight(c) + PropsWeight([]);
    assert PropsWeight([b, c]) == PropWeight(b) + PropsWeight([c]);
  }

  lemma NewReservedWeight(root: Node)
    requires NewReserved(root).Ok?
    ensures Weight(NewReserved(root).value) <= 150
  {
    assert |RESERVED_MEMORY| == 15 && |PROP_ADDRESS_CELLS| == 14 && |PROP_SIZE_CELLS| == 11 && |PROP_RANGES| == 6;
    hide Bytes.Ascii, Bytes.Be32, NodeCells, PropsWeight;
    var p := NewReserved(root).value.props;
    ThreeProps(p[0], p[1], p[2]);
  }

  lemma NewParkingWeight(base: u64, addressCells: u32, sizeCells: u32)
    requires NewParking(base, addressCells, sizeCells).Ok?
    ensures Weight(NewParking(base, addressCells, sizeCells).value) <= 150 + |ParkingName(base)|
  {
    assert |PROP_COMPATIBLE| == 10 && |SPIN_TABLE_COMPAT| == 24 && |PROP_NO_MAP| == 6 && |PROP_REG| == 3;
    hide Bytes.Ascii, Bytes.Be32, Bytes.Be64, Hex, PropsWeight;
    var p := NewParking(base, addressCells, sizeCells).value.props;
    ThreeProps(p[0], p[1], p[2]);
  }

  lemma WithReservedWeight(root: Node)
    requires WithReserved(root).Ok?
    ensures Weight(WithReserved(root).value) <= Weight(root) + 150
  {
    hide PropsWeight, ForestWeight, NewReserved, Child;
    if Child(root, RESERVED_MEMORY).None? {
      NewReservedWeight(root);
      SnocWeight(root.children, NewReserved(root).value);
    }
  }

  lemma ParkingWeight(root: Node, base: u64)
    requires GraftParking(root, base).Ok?
    ensures Weight(GraftParking(root, base).value) <= Weight(root) + 300 + |ParkingName(base)|
  {
    hide PropsWeight, ForestWeight, WithReserved, CheckReservations, NewParking, ReservedCells, ParkingName;
    WithReservedWeight(root);
    var root' := WithReserved(root).value;
    var i := ChildIndex(root'.children, RESERVED_MEMORY).value;
    var reserved := root'.children[i];
    var (addressCells, sizeCells) := ReservedCells(root', reserved).value;
    if !CheckReservations(reserved.children, addressCells, sizeCells, base, false).value {
      var parking := NewParking(base, addressCells, sizeCells).value;
      NewParkingWeight(base, addressCells, sizeCells);
      SnocWeight(reserved.children, parking);
      UpdateWeight(root'.children, i, reserved.(children := reserved.children + [parking]));
    }
  }

  lemma GraftTargetWeight(target: Node, base: u64)
    requires GraftTarget(target, base).Ok?
    ensures Weight(GraftTarget(target, base).value) <= 92 * Weight(target) + 300 + |ParkingName(base)|
  {
    hide Providers, EditTarget, Disable, GraftParking, Weight, ParkingName;
    var providers := Providers(target).value;
    var edited := EditTarget(target, base, providers).value;
    EditTargetWeight(target, base, providers);
    DisableWeight(edited);
    ParkingWeight(Disable(edited), base);
  }

  lemma TreeFits(header: Header, root: Node, reserveMap: bytes)
    requires Printable(root) && Weight(root) + |reserveMap| + 47 < U32_LIMIT
    ensures BuildContractTree(header, root, reserveMap).Ok?
  {
    hide Weight, EventSizes, GrownAll, Events, BuildContractTree, Printable;
    PrintReturns(header, root, reserveMap);
    NodeFits(root, []);
  }

  lemma GraftMapLength(dtb: bytes, base: u64)
    requires GraftMap(dtb, base).Ok?
    ensures ReserveMap(dtb).Ok? && |GraftMap(dtb, base).value| <= |ReserveMap(dtb).value| + 16
  {
    hide ReserveMap, ReserveMapRanges, MapReserves, Bytes.Be64;
  }

  /// For a blob that is not very large: grafting returns exactly when the blob hands on boot CPU 0, its
  /// tree has the four CPUs and takes the contract, and its map takes the page.
  lemma GraftPageReturns(dtb: bytes, base: u64)
    requires ValidBase(base) && ContractTree(dtb).Ok?
    requires ReserveMap(dtb).Ok? ==>
      92 * Weight(ContractTree(dtb).value) + |ParkingName(base)| + |ReserveMap(dtb).value| + 400 < U32_LIMIT
    ensures ParseHeader(dtb).Ok?
    ensures GraftPage(dtb, base, FOUR_CPUS).Ok? <==>
      && ParseHeader(dtb).value.bootCpuidPhys == 0
      && GraftChecked(ContractTree(dtb).value, base).Ok?
      && GraftMap(dtb, base).Ok?
  {
    var t := ContractTree(dtb).value;
    ParsedWf(dtb);
    ParsedPrintable(StructBlock(dtb).value, StringsBlock(dtb).value);
    FourCpus();
    hide TreeOf, GraftTarget, GraftMap, BuildContractTree, WfTree, Printable, CpuIds, Weight, ParkingName, CellAt, ReserveMap;
    if GraftTarget(t, base).Ok? && GraftMap(dtb, base).Ok? {
      GraftTargetGood(t, base);
      GraftTargetWeight(t, base);
      GraftMapLength(dtb, base);
      TreeFits(ParseHeader(dtb).value, GraftTarget(t, base).value, GraftMap(dtb, base).value);
    }
  }
}
