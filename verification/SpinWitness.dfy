/// Destination trees that `graft_spin_table` of `src/kexec.rs` accepts, and for which a condition of
/// `SpinGraft.GraftKeepsContract` or `SpinGraft.GraftCheckedAgain` fails.
module SpinWitness {
  import opened Bytes
  import opened Handoff
  import opened Tree
  import opened Dtb
  import opened Contract
  import opened Reserved
  import opened Nodes
  import opened Psci
  import opened SpinTable
  import opened SpinGraft

  const PAGE: u64 := 0x8000_0000

  /// CPU `id`, whose `reg` has one cell.
  function CpuNode(id: nat, extra: seq<Property>): Node
    requires id < 4
  {
    Node([99, 48 + id], [Property(PROP_DEVICE_TYPE, CPU_TYPE), Property(PROP_REG, Be32(id))] + extra, [])
  }

  function CpusNode(extra: seq<Property>): Node {
    Node(CPUS, [Property(PROP_ADDRESS_CELLS, Be32(1)), Property(PROP_SIZE_CELLS, Be32(0))],
         [CpuNode(0, extra), CpuNode(1, []), CpuNode(2, []), CpuNode(3, [])])
  }

  /// Four CPUs, the first with some more properties, and other children of the root.
  function Target(extra: seq<Property>, others: seq<Node>): Node { Node([], [], [CpusNode(extra)] + others) }

  /// The names do not clash.
  lemma NamesApart()
    ensures PROP_DEVICE_TYPE != PROP_REG && PROP_DEVICE_TYPE != PROP_STATUS && PROP_REG != PROP_STATUS
    ensures PROP_ADDRESS_CELLS != PROP_SIZE_CELLS && CPUS != RESERVED_MEMORY
    ensures PROP_COMPATIBLE != PROP_DEVICE_TYPE && PROP_COMPATIBLE != PROP_REG && PROP_COMPATIBLE != PROP_STATUS
    ensures PROP_POWER_DOMAINS != PROP_DEVICE_TYPE && PROP_POWER_DOMAINS != PROP_REG && PROP_POWER_DOMAINS != PROP_STATUS
  {
    assert |PROP_DEVICE_TYPE| == 11 && |PROP_REG| == 3 && |PROP_STATUS| == 6 && |PROP_COMPATIBLE| == 10;
    assert |PROP_ADDRESS_CELLS| == 14 && |PROP_SIZE_CELLS| == 11 && |PROP_POWER_DOMAINS| == 13;
    assert |CPUS| == 4 && |RESERVED_MEMORY| == 15;
  }

  lemma GetTwoMore(p: Property, q: Property, extra: seq<Property>, name: bytes)
    ensures GetProp([p, q] + extra, name) ==
      if p.name == name then Some(p.value) else if q.name == name then Some(q.value) else GetProp(extra, name)
  {
    assert [p, q] + extra == [p] + ([q] + extra);
    GetCons(p, [q] + extra, name);
    GetCons(q, extra, name);
  }

  /// Extra properties that leave a CPU what it is.
  predicate Harmless(extra: seq<Property>) {
    |extra| <= 1 && forall p <- extra :: p.name == PROP_COMPATIBLE || p.name == PROP_POWER_DOMAINS
  }

  lemma CpuIsCpu(id: nat, extra: seq<Property>)
    requires id < 4 && Harmless(extra)
    ensures IsCpu(CpuNode(id, extra)) && Mpidr(CpuNode(id, extra), 1) == Ok(id)
    ensures UniqueProps(CpuNode(id, extra).props)
  {
    NamesApart();
    De32Be32(id);
    hide Bytes.Ascii, Bytes.Be32, Bytes.De32;
    forall name | name == PROP_DEVICE_TYPE || name == PROP_REG || name == PROP_STATUS
      ensures GetProp(extra, name).None?
    {
      GetNone(extra, name);
    }
    GetTwoMore(Property(PROP_DEVICE_TYPE, CPU_TYPE), Property(PROP_REG, Be32(id)), extra, PROP_DEVICE_TYPE);
    GetTwoMore(Property(PROP_DEVICE_TYPE, CPU_TYPE), Property(PROP_REG, Be32(id)), extra, PROP_REG);
    GetTwoMore(Property(PROP_DEVICE_TYPE, CPU_TYPE), Property(PROP_REG, Be32(id)), extra, PROP_STATUS);
  }

  lemma CpusCells(extra: seq<Property>)
    ensures CpuCells(CpusNode(extra)) == Ok(1)
  {
    NamesApart();
    De32Be32(1);
    De32Be32(0);
    hide Bytes.Ascii, Bytes.Be32, Bytes.De32, CpuNode;
    GetCons(Property(PROP_ADDRESS_CELLS, Be32(1)), [Property(PROP_SIZE_CELLS, Be32(0))], PROP_ADDRESS_CELLS);
    GetCons(Property(PROP_ADDRESS_CELLS, Be32(1)), [Property(PROP_SIZE_CELLS, Be32(0))], PROP_SIZE_CELLS);
    GetOne(Property(PROP_SIZE_CELLS, Be32(0)), PROP_SIZE_CELLS);
    assert [Property(PROP_ADDRESS_CELLS, Be32(1))] + [Property(PROP_SIZE_CELLS, Be32(0))] == CpusNode(extra).props;
  }

  lemma IdsStep(node: Node, id: nat, rest: seq<Node>, ids: seq<nat>)
    requires IsCpu(node) && Mpidr(node, 1) == Ok(id) && Ids(rest, 1) == Ok(ids)
    ensures Ids([node] + rest, 1) == Ok([id] + ids)
  {
    hide IsCpu, Mpidr;
    assert ([node] + rest)[1..] == rest;
  }

  lemma FourIds(extra: seq<Property>)
    requires Harmless(extra)
    ensures Ids(CpusNode(extra).children, 1) == Ok([0, 1, 2, 3])
  {
    CpuIsCpu(0, extra);
    CpuIsCpu(1, []);
    CpuIsCpu(2, []);
    CpuIsCpu(3, []);
    hide *;
    NoIdsLeft();
    var a, b, c, d := CpuNode(0, extra), CpuNode(1, []), CpuNode(2, []), CpuNode(3, []);
    assert [c] + [d] == [c, d] && [b] + [c, d] == [b, c, d] && [d] + [] == [d];
    assert [3] + [] == [3] && [2] + [3] == [2, 3] && [1] + [2, 3] == [1, 2, 3] && [0] + [1, 2, 3] == [0, 1, 2, 3];
    IdsStep(d, 3, [], []);
    IdsStep(c, 2, [d], [3]);
    IdsStep(b, 1, [c, d], [2, 3]);
    IdsStep(a, 0, [b, c, d], [1, 2, 3]);
    Displayed(extra);
  }

  lemma NoIdsLeft()
    ensures Ids([], 1) == Ok([])
  {
  }

  lemma Displayed(extra: seq<Property>)
    ensures CpusNode(extra).children == [CpuNode(0, extra)] + [CpuNode(1, []), CpuNode(2, []), CpuNode(3, [])]
  {
    hide CpuNode;
  }

  lemma TargetChild(extra: seq<Property>, others: seq<Node>)
    requires forall n <- others :: n.name != CPUS
    ensures Child(Target(extra, others), CPUS) == Some(CpusNode(extra)) && ChildIndex(Target(extra, others).children, CPUS) == Some(0)
    ensures (forall n <- others :: n.name != RESERVED_MEMORY) ==> Child(Target(extra, others), RESERVED_MEMORY).None?
  {
    NamesApart();
    hide Bytes.Ascii, CpuNode;
  }

  /// The identifiers of the CPUs of these trees.
  lemma TargetIds(extra: seq<Property>, others: seq<Node>)
    requires Harmless(extra) && forall n <- others :: n.name != CPUS
    ensures CpuIds(Target(extra, others)) == Ok([0, 1, 2, 3]) && IdSet([0, 1, 2, 3]) == {0, 1, 2, 3}
  {
    TargetChild(extra, others);
    CpusCells(extra);
    FourIds(extra);
    hide CpusNode, Child, CpuCells, Ids, Target;
  }

  // The trees are accepted.

  lemma CpusDistinct(extra: seq<Property>)
    ensures UniqueChildren(CpusNode(extra).children)
  {
    var nodes := CpusNode(extra).children;
    assert forall i :: 0 <= i < 4 ==> nodes[i].name[1] == 48 + i;
  }

  lemma LeafWf(node: Node, room: nat)
    requires room > 0 && UniqueProps(node.props) && node.children == []
    ensures WfNode(node, room)
  {
  }

  lemma CpusWf(extra: seq<Property>, room: nat)
    requires Harmless(extra) && room > 1
    ensures WfNode(CpusNode(extra), room)
  {
    CpuIsCpu(0, extra);
    CpuIsCpu(1, []);
    CpuIsCpu(2, []);
    CpuIsCpu(3, []);
    CpusDistinct(extra);
    NamesApart();
    hide IsCpu, Mpidr, Bytes.Ascii, Bytes.Be32, UniqueChildren;
    var nodes := CpusNode(extra).children;
    forall n | n in nodes ensures WfNode(n, room - 1) {
      LeafWf(n, room - 1);
    }
    WfForestFromAll(nodes, room - 1);
  }

  lemma TargetWf(extra: seq<Property>, others: seq<Node>)
    requires Harmless(extra) && UniqueChildren(others) && WfForest(others, MAX_DEPTH - 1)
    requires forall n <- others :: n.name != CPUS
    ensures WfTree(Target(extra, others))
  {
    CpusWf(extra, MAX_DEPTH - 1);
    var nodes := [CpusNode(extra)] + others;
    hide CpuNode, WfForest, UniqueProps, Bytes.Ascii;
    assert nodes[1..] == others;
    assert UniqueChildren(nodes) by {
      assert forall i :: 1 <= i < |nodes| ==> nodes[i] == others[i - 1] && nodes[i] in others;
    }
    WfForestCons(CpusNode(extra), others, MAX_DEPTH - 1);
    NoProps();
  }

  lemma NoProps()
    ensures UniqueProps([])
  {
  }

  lemma WfForestCons(node: Node, rest: seq<Node>, room: nat)
    requires WfNode(node, room) && WfForest(rest, room)
    ensures WfForest([node] + rest, room)
  {
    hide WfNode;
    assert ([node] + rest)[1..] == rest;
  }

  /// The power domains of the first CPU, if any, name known providers.
  predicate DomainsReadable(extra: seq<Property>, providers: seq<Provider>) {
    var domains := GetProp(extra, PROP_POWER_DOMAINS);
    GetProp(extra, PROP_POWER_DOMAIN_NAMES).None?
    && (domains.Some? ==> |domains.value| % 4 == 0 && Tuples(domains.value, providers).Ok?)
  }

  lemma CpuGets(id: nat, extra: seq<Property>)
    requires id < 4
    ensures Get(CpuNode(id, extra), PROP_POWER_DOMAINS) == GetProp(extra, PROP_POWER_DOMAINS)
    ensures Get(CpuNode(id, extra), PROP_POWER_DOMAIN_NAMES) == GetProp(extra, PROP_POWER_DOMAIN_NAMES)
    ensures Get(CpuNode(id, extra), PROP_POWER_DOMAIN_CELLS) == GetProp(extra, PROP_POWER_DOMAIN_CELLS)
    ensures Get(CpuNode(id, extra), PROP_COMPATIBLE) == GetProp(extra, PROP_COMPATIBLE)
  {
    NamesApart();
    UneditedNames();
    assert |PROP_POWER_DOMAIN_NAMES| == 18 && |PROP_POWER_DOMAIN_CELLS| == 19;
    assert |PROP_DEVICE_TYPE| == 11 && |PROP_REG| == 3;
    hide Bytes.Ascii, Bytes.Be32;
    var p, q := Property(PROP_DEVICE_TYPE, CPU_TYPE), Property(PROP_REG, Be32(id));
    GetTwoMore(p, q, extra, PROP_POWER_DOMAINS);
    GetTwoMore(p, q, extra, PROP_POWER_DOMAIN_NAMES);
    GetTwoMore(p, q, extra, PROP_POWER_DOMAIN_CELLS);
    GetTwoMore(p, q, extra, PROP_COMPATIBLE);
  }

  lemma CpuEdits(id: nat, extra: seq<Property>, base: nat, providers: seq<Provider>)
    requires id < 4 && Harmless(extra) && DomainsReadable(extra, providers)
    ensures EditNode(CpuNode(id, extra), 1, base, providers).Ok?
  {
    CpuIsCpu(id, extra);
    CpuGets(id, extra);
    EditedNamesDiffer();
    hide CpuNode, IsCpu, Mpidr, GetProp, Bytes.Ascii, SlotCpu;
    SlotCpuGet(CpuNode(id, extra), id, base, PROP_POWER_DOMAINS);
    SlotCpuGet(CpuNode(id, extra), id, base, PROP_POWER_DOMAIN_NAMES);
    EditCpuIs(CpuNode(id, extra), id, base, providers);
  }

  lemma EditCpuIs(cpu: Node, mpidr: nat, base: nat, providers: seq<Provider>)
    ensures EditCpu(cpu, mpidr, base, providers) == RemoveDomains(SlotCpu(cpu, mpidr, base), providers)
  {
  }

  lemma {:induction false} AllEdit(nodes: seq<Node>, base: nat, providers: seq<Provider>)
    requires forall n <- nodes :: EditNode(n, 1, base, providers).Ok?
    ensures EditCpus(nodes, 1, base, providers).Ok?
    decreases |nodes|
  {
    hide IsCpu, Mpidr, EditCpu;
    if nodes != [] {
      assert nodes[0] in nodes;
      AllEdit(nodes[1..], base, providers);
    }
  }

  lemma TargetEdits(extra: seq<Property>, others: seq<Node>, base: nat, providers: seq<Provider>)
    requires Harmless(extra) && DomainsReadable(extra, providers) && forall n <- others :: n.name != CPUS
    ensures EditTarget(Target(extra, others), base, providers).Ok?
  {
    CpuEdits(0, extra, base, providers);
    CpuEdits(1, [], base, providers);
    CpuEdits(2, [], base, providers);
    CpuEdits(3, [], base, providers);
    CpusCells(extra);
    TargetChild(extra, others);
    CpuLeaves(extra);
    hide CpuNode, EditNode, CpuCells, ChildIndex, Child, DomainsReadable, Bytes.Ascii, CpusNode;
    AllEdit(CpusNode(extra).children, base, providers);
    hide EditCpus;
  }

  lemma NoCells(node: Node, psci: bool)
    requires Get(node, PROP_POWER_DOMAIN_CELLS).None? && node.children == []
    ensures ListProviders(node, psci) == Ok([])
  {
    hide GetProp, IsPsci;
    var none: seq<Provider> := [];
    assert none + none == none;
  }

  lemma {:induction false} NoneAmong(nodes: seq<Node>, psci: bool)
    requires forall n <- nodes :: Get(n, PROP_POWER_DOMAIN_CELLS).None? && n.children == []
    ensures ListForestProviders(nodes, psci) == Ok([])
    decreases |nodes|
  {
    hide Get, ListProviders;
    if nodes != [] {
      assert nodes[0] in nodes;
      NoCells(nodes[0], psci);
      NoneAmong(nodes[1..], psci);
      BothNil(ListProviders(nodes[0], psci));
    }
  }

  lemma CpusProvideNothing(extra: seq<Property>, psci: bool)
    requires Harmless(extra)
    ensures ListProviders(CpusNode(extra), psci) == Ok([])
  {
    CpuGets(0, extra);
    CpuGets(1, []);
    CpuGets(2, []);
    CpuGets(3, []);
    assert |PROP_COMPATIBLE| == 10 && |PROP_POWER_DOMAINS| == 13 && |PROP_POWER_DOMAIN_CELLS| == 19;
    assert |PROP_ADDRESS_CELLS| == 14 && |PROP_SIZE_CELLS| == 11;
    hide Bytes.Ascii, Bytes.Be32, ListForestProviders, IsPsci, GetProp;
    GetNone(extra, PROP_POWER_DOMAIN_CELLS);
    GetNone([], PROP_POWER_DOMAIN_CELLS);
    GetNone(CpusNode(extra).props, PROP_POWER_DOMAIN_CELLS);
    CpuLeaves(extra);
    NoneAmong(CpusNode(extra).children, psci || IsPsci(CpusNode(extra)));
    var none: seq<Provider> := [];
    assert none + none == none;
  }

  lemma CpuLeaves(extra: seq<Property>)
    ensures forall n <- CpusNode(extra).children :: n.children == []
    ensures forall n <- CpusNode(extra).children :: n == CpuNode(0, extra) || n == CpuNode(1, []) || n == CpuNode(2, []) || n == CpuNode(3, [])
  {
  }

  lemma TargetProviders(extra: seq<Property>, others: seq<Node>)
    requires Harmless(extra)
    ensures ListProviders(Target(extra, others), false) == ListForestProviders(others, false)
  {
    CpusProvideNothing(extra, false);
    assert ([CpusNode(extra)] + others)[1..] == others;
    hide CpusNode, ListForestProviders, Bytes.Ascii;
    ForestStep(CpusNode(extra), others, false);
    BothNil(ListForestProviders(others, false));
    RootIsPlain(extra, others);
  }

  lemma RootIsPlain(extra: seq<Property>, others: seq<Node>)
    ensures !IsPsci(Target(extra, others)) && OwnProvider(Target(extra, others), false) == Ok([])
    ensures Get(Target(extra, others), PROP_ADDRESS_CELLS).None? && Get(Target(extra, others), PROP_SIZE_CELLS).None?
  {
    hide CpusNode, Items, Bytes.Ascii;
  }

  lemma ForestStep(node: Node, rest: seq<Node>, psci: bool)
    ensures ListForestProviders([node] + rest, psci) == Both(ListProviders(node, psci), ListForestProviders(rest, psci))
  {
    hide ListProviders;
    assert ([node] + rest)[1..] == rest;
  }

  /// The root has the default cells, so a new /reserved-memory with one new page fits.
  lemma ParkingFits(root: Node, base: u64)
    requires ValidBase(base) && Child(root, RESERVED_MEMORY).None?
    requires Get(root, PROP_ADDRESS_CELLS).None? && Get(root, PROP_SIZE_CELLS).None?
    ensures GraftParking(root, base).Ok?
  {
    hide GetProp, Bytes.Ascii, DecodeReg, Bytes.Be32, Bytes.Be64, ParkingName;
    NewReservedName(root);
    NewReservedLaws(root);
    ChildAppended(root, NewReserved(root).value, RESERVED_MEMORY);
    hide NewReserved, Enabled;
  }

  lemma GraftAccepts(extra: seq<Property>, others: seq<Node>, base: u64, providers: seq<Provider>)
    requires Harmless(extra) && DomainsReadable(extra, providers) && ValidBase(base) && UniqueChildren(others)
    requires forall n <- others :: n.name != CPUS && n.name != RESERVED_MEMORY
    requires Providers(Target(extra, others)) == Ok(providers)
    ensures GraftTarget(Target(extra, others), base).Ok?
  {
    var t := Target(extra, others);
    TargetEdits(extra, others, base, providers);
    TargetChild(extra, others);
    RootIsPlain(extra, others);
    RootUnique(extra, others);
    var edited := EditTarget(t, base, providers).value;
    EditedRoot(t, base, providers);
    hide *;
    assert Child(t, RESERVED_MEMORY).None?;
    ChildDisabled(edited, RESERVED_MEMORY);
    SamePropsProviders(t, edited, false);
    DisabledRoot(edited);
    ParkingFits(Disable(edited), base);
    GraftTargetIs(t, base, providers, edited);
  }

  lemma RootUnique(extra: seq<Property>, others: seq<Node>)
    requires UniqueChildren(others) && forall n <- others :: n.name != CPUS
    ensures UniqueChildren(Target(extra, others).children)
  {
    var nodes := Target(extra, others).children;
    hide CpuNode, Bytes.Ascii;
    assert forall i :: 1 <= i < |nodes| ==> nodes[i] == others[i - 1] && nodes[i] in others;
  }

  lemma EditedRoot(t: Node, base: nat, providers: seq<Provider>)
    requires EditTarget(t, base, providers).Ok? && UniqueChildren(t.children)
    ensures
      var edited := EditTarget(t, base, providers).value;
      && edited.props == t.props && UniqueChildren(edited.children)
      && Child(edited, RESERVED_MEMORY) == Child(t, RESERVED_MEMORY)
  {
    NamesApart();
    hide EditCpus, CpuCells, Bytes.Ascii;
    var edited, i := EditTarget(t, base, providers).value, ChildIndex(t.children, CPUS).value;
    UniqueNames(t.children, edited.children);
    ChildUpdated(t, i, edited.children[i], RESERVED_MEMORY);
  }

  lemma DisabledRoot(root: Node)
    requires !IsPsci(root)
    ensures forall name: bytes :: Get(Disable(root), name) == Get(root, name)
  {
  }

  lemma GraftTargetIs(t: Node, base: u64, providers: seq<Provider>, edited: Node)
    requires Providers(t) == Ok(providers) && EditTarget(t, base, providers) == Ok(edited)
    ensures GraftTarget(t, base) == GraftParking(Disable(edited), base)
  {
  }

  // A CPU that is itself a PSCI node is disabled, so the grafted tree carries no contract.

  const PSCI_CPU: seq<Property> := [Property(PROP_COMPATIBLE, Ascii("arm,psci") + [0])]

  lemma PsciCpu()
    ensures Harmless(PSCI_CPU) && IsPsci(CpuNode(0, PSCI_CPU))
    ensures GetProp(PSCI_CPU, PROP_POWER_DOMAINS).None? && GetProp(PSCI_CPU, PROP_POWER_DOMAIN_NAMES).None?
  {
    CpuGets(0, PSCI_CPU);
    NamesApart();
    assert |PROP_COMPATIBLE| == 10 && |PROP_POWER_DOMAINS| == 13 && |PROP_POWER_DOMAIN_NAMES| == 18;
    var arm := Ascii("arm,psci");
    ItemsConcat(arm, []);
    assert arm + [0] + [] == arm + [0];
    assert Items(arm + [0])[0] == arm;
    hide Items, CpuNode, Bytes.Ascii;
    GetOne(PSCI_CPU[0], PROP_COMPATIBLE);
    GetOne(PSCI_CPU[0], PROP_POWER_DOMAINS);
    GetOne(PSCI_CPU[0], PROP_POWER_DOMAIN_NAMES);
  }

  lemma NoOthers()
    ensures UniqueChildren([]) && WfForest([], MAX_DEPTH - 1) && ListForestProviders([], false) == Ok([])
  {
  }

  /// The graft succeeds, and its result is not a contract for the page that was grafted.
  lemma ContractLostToPsciCpu()
    ensures
      var t := Target(PSCI_CPU, []);
      && WfTree(t) && CpuIds(t) == Ok([0, 1, 2, 3])
      && GraftTarget(t, PAGE).Ok?
      && SpinTableContract(GraftTarget(t, PAGE).value) != Ok(Some(PAGE))
  {
    var t := Target(PSCI_CPU, []);
    PsciCpu();
    NoOthers();
    TargetWf(PSCI_CPU, []);
    TargetIds(PSCI_CPU, []);
    TargetProviders(PSCI_CPU, []);
    TargetChild(PSCI_CPU, []);
    Displayed(PSCI_CPU);
    CpuIsCpu(0, PSCI_CPU);
    assert Providers(t) == Ok([]) by { hide Target, ListProviders; }
    PsciCpuLost();
    hide *;
    assert DomainsReadable(PSCI_CPU, []) by { Readable(PSCI_CPU, []); }
    GraftAccepts(PSCI_CPU, [], PAGE, []);
    GraftKeepsContract(t, PAGE);
  }

  /// The first graft succeeds with all providers kept, and grafting its result again is refused.
  lemma SecondGraftRefusedToPsciCpu()
    ensures
      var t := Target(PSCI_CPU, []);
      && WfTree(t) && ProvidersKept(t) && GraftChecked(t, PAGE).Ok?
      && GraftChecked(GraftChecked(t, PAGE).value, PAGE) == InvalidData
  {
    var t := Target(PSCI_CPU, []);
    PsciCpu();
    NoDomainsKept(PSCI_CPU);
    NoOthers();
    TargetWf(PSCI_CPU, []);
    TargetIds(PSCI_CPU, []);
    PsciCpuLost();
    ContractLostToPsciCpu();
    assert GraftChecked(t, PAGE) == GraftTarget(t, PAGE) by { hide CpuIds, GraftTarget, Target; }
    hide *;
    PageValid();
    GraftCheckedAgain(t, PAGE);
  }

  lemma PsciCpuLost()
    ensures !CpusKept(Target(PSCI_CPU, []))
  {
    PsciCpu();
    TargetChild(PSCI_CPU, []);
    Displayed(PSCI_CPU);
    CpuIsCpu(0, PSCI_CPU);
    hide Target, Child, IsCpu, IsPsci, CpuNode;
    assert CpuNode(0, PSCI_CPU) in CpusNode(PSCI_CPU).children;
  }

  /// Without power domains there is no provider to lose.
  lemma NoDomainsKept(extra: seq<Property>)
    requires Harmless(extra) && GetProp(extra, PROP_POWER_DOMAINS).None? && GetProp(extra, PROP_POWER_DOMAIN_NAMES).None?
    ensures ProvidersKept(Target(extra, []))
  {
    var t := Target(extra, []);
    NoOthers();
    TargetProviders(extra, []);
    TargetChild(extra, []);
    CpuGets(0, extra);
    CpuGets(1, []);
    CpuGets(2, []);
    CpuGets(3, []);
    CpuLeaves(extra);
    assert Providers(t) == Ok([]) by { hide Target, ListProviders; }
    KeptWithin(t, false);
    hide Target, Child, IsCpu, CpuNode, Providers, KeptProviders, ListProviders, Tuples, Kept, Found, GetProp;
    assert GetProp([], PROP_POWER_DOMAINS).None? by { GetNone([], PROP_POWER_DOMAINS); }
  }

  lemma Readable(extra: seq<Property>, providers: seq<Provider>)
    requires GetProp(extra, PROP_POWER_DOMAINS).None? && GetProp(extra, PROP_POWER_DOMAIN_NAMES).None?
    ensures DomainsReadable(extra, providers)
  {
  }

  // A provider that is an idle state is removed, so a CPU that refers to it cannot be grafted again.

  const REFERRING_CPU: seq<Property> := [Property(PROP_POWER_DOMAINS, Be32(1))]

  const IDLE_PROVIDER: Node :=
    Node([115], [Property(PROP_SUSPEND_PARAM, []), Property(PROP_POWER_DOMAIN_CELLS, Be32(0)), Property(PROP_PHANDLE, Be32(1))], [])

  const IDLE_LISTED: Provider := Provider(1, 0, false)

  lemma IdleProvider()
    ensures IsIdle(IDLE_PROVIDER) && ListForestProviders([IDLE_PROVIDER], false) == Ok([IDLE_LISTED])
    ensures UniqueChildren([IDLE_PROVIDER]) && WfForest([IDLE_PROVIDER], MAX_DEPTH - 1)
    ensures IDLE_PROVIDER.name != CPUS && IDLE_PROVIDER.name != RESERVED_MEMORY
  {
    assert |PROP_SUSPEND_PARAM| == 22 && |PROP_POWER_DOMAIN_CELLS| == 19 && |PROP_PHANDLE| == 7;
    assert |PROP_COMPATIBLE| == 10 && |PROP_ENTRY_METHOD| == 12 && |CPUS| == 4 && |RESERVED_MEMORY| == 15;
    De32Be32(0);
    De32Be32(1);
    hide Bytes.Ascii, Bytes.Be32, Bytes.De32, Items;
    var p := IDLE_PROVIDER.props;
    GetThree(p[0], p[1], p[2], PROP_SUSPEND_PARAM);
    GetThree(p[0], p[1], p[2], PROP_POWER_DOMAIN_CELLS);
    GetThree(p[0], p[1], p[2], PROP_PHANDLE);
    GetThree(p[0], p[1], p[2], PROP_COMPATIBLE);
    hide GetProp;
    assert OwnProvider(IDLE_PROVIDER, false) == Ok([IDLE_LISTED]);
    BothNil(OwnProvider(IDLE_PROVIDER, false));
    ListOne(IDLE_PROVIDER, false);
    LeafWf(IDLE_PROVIDER, MAX_DEPTH - 1);
    OneWf(IDLE_PROVIDER, MAX_DEPTH - 1);
  }

  lemma OneWf(node: Node, room: nat)
    requires WfNode(node, room)
    ensures WfForest([node], room) && UniqueChildren([node])
  {
    WfForestCons(node, [], room);
    assert [node] + [] == [node];
  }

  lemma ReferringCpu()
    ensures Harmless(REFERRING_CPU) && DomainsReadable(REFERRING_CPU, [IDLE_LISTED])
    ensures GetProp(REFERRING_CPU, PROP_POWER_DOMAINS) == Some(Be32(1)) && GetProp(REFERRING_CPU, PROP_COMPATIBLE).None?
    ensures !Found(Kept(Tuples(Be32(1), [IDLE_LISTED]).value), [])
  {
    assert |PROP_POWER_DOMAINS| == 13 && |PROP_POWER_DOMAIN_NAMES| == 18 && |PROP_COMPATIBLE| == 10;
    De32Be32(1);
    hide Bytes.Ascii, Bytes.Be32, Bytes.De32;
    GetOne(REFERRING_CPU[0], PROP_POWER_DOMAINS);
    GetOne(REFERRING_CPU[0], PROP_POWER_DOMAIN_NAMES);
    GetOne(REFERRING_CPU[0], PROP_COMPATIBLE);
    OneTupleRead();
    assert [Tuple(Be32(1), true)][0].bytes == Be32(1);
  }

  lemma OneTupleRead()
    ensures Tuples(Be32(1), [IDLE_LISTED]) == Ok([Tuple(Be32(1), true)]) && Kept([Tuple(Be32(1), true)]) == [Tuple(Be32(1), true)]
    ensures De32(Be32(1)[..4]) == 1
  {
    De32Be32(1);
    hide Bytes.Be32, Bytes.De32;
    var domains, none := Be32(1), Tuples([], [IDLE_LISTED]);
    assert domains[..4] == domains && domains[4..] == [];
    assert FindProvider([IDLE_LISTED], 1) == Some(IDLE_LISTED);
    assert none == Ok([]) && [Tuple(domains, true)] + [] == [Tuple(domains, true)];
    assert [Tuple(domains, true)][1..] == [] && Kept([]) == [];
  }

  lemma PlainCpusSurvive(extra: seq<Property>)
    requires Harmless(extra) && GetProp(extra, PROP_COMPATIBLE).None?
    ensures forall cpu <- CpusNode(extra).children :: Survives(cpu)
    ensures !IsIdle(CpusNode(extra))
  {
    PlainCpu(0, extra);
    PlainCpu(1, []);
    PlainCpu(2, []);
    PlainCpu(3, []);
    CpuLeaves(extra);
    assert |PROP_ADDRESS_CELLS| == 14 && |PROP_SIZE_CELLS| == 11 && |PROP_ENTRY_METHOD| == 12 && |PROP_SUSPEND_PARAM| == 22;
    hide Bytes.Ascii, Bytes.Be32, Survives, CpuNode, GetProp;
    GetNone(CpusNode(extra).props, PROP_ENTRY_METHOD);
    GetNone(CpusNode(extra).props, PROP_SUSPEND_PARAM);
  }

  lemma PlainCpu(id: nat, extra: seq<Property>)
    requires id < 4 && Harmless(extra) && GetProp(extra, PROP_COMPATIBLE).None?
    ensures Survives(CpuNode(id, extra))
  {
    CpuGets(id, extra);
    assert |PROP_COMPATIBLE| == 10 && |PROP_POWER_DOMAINS| == 13 && |PROP_ENTRY_METHOD| == 12 && |PROP_SUSPEND_PARAM| == 22;
    assert |PROP_DEVICE_TYPE| == 11 && |PROP_REG| == 3;
    hide Bytes.Ascii, Bytes.Be32, Items, GetProp;
    GetNone(CpuNode(id, extra).props, PROP_ENTRY_METHOD);
    GetNone(CpuNode(id, extra).props, PROP_SUSPEND_PARAM);
  }

  lemma KeptNothing(extra: seq<Property>)
    requires Harmless(extra)
    ensures KeptProviders(Target(extra, [IDLE_PROVIDER]), false).Ok? ==> KeptProviders(Target(extra, [IDLE_PROVIDER]), false) == Ok([])
  {
    var t := Target(extra, [IDLE_PROVIDER]);
    IdleProvider();
    RootIsPlain(extra, [IDLE_PROVIDER]);
    CpusProvideNothing(extra, false);
    var none: seq<Provider> := [];
    hide CpusNode, IsPsci, IsIdle, ListProviders, Bytes.Ascii, OwnProvider;
    assert ([CpusNode(extra)] + [IDLE_PROVIDER])[1..] == [IDLE_PROVIDER] && [IDLE_PROVIDER][1..] == [];
    assert KeptForestProviders([], false) == Ok([]) && KeptForestProviders([IDLE_PROVIDER], false) == Ok([]);
    KeptWithinListed(CpusNode(extra), false);
    BothNil(KeptProviders(CpusNode(extra), false));
    BothNil(KeptForestProviders(t.children, false));
  }

  lemma KeptWithinListed(node: Node, psci: bool)
    requires ListProviders(node, psci) == Ok([])
    ensures KeptProviders(node, psci) == Ok([])
  {
    hide ListProviders, KeptProviders;
    KeptWithin(node, psci);
    var kept := KeptProviders(node, psci).value;
    var none: seq<Provider> := [];
    assert Distinct(none) && forall p <- kept :: p in none;
    SomeOrNone(kept);
  }

  lemma SomeOrNone<T>(s: seq<T>)
    ensures s == [] || exists x :: x in s
  {
    assert s != [] ==> s[0] in s;
  }

  lemma ReferringKept()
    ensures CpusKept(Target(REFERRING_CPU, [IDLE_PROVIDER]))
  {
    IdleProvider();
    ReferringCpu();
    TargetChild(REFERRING_CPU, [IDLE_PROVIDER]);
    PlainCpusSurvive(REFERRING_CPU);
    hide Target, Child, IsCpu, Survives, CpusNode, GetProp, IsIdle;
  }

  lemma ReferringListed()
    ensures Providers(Target(REFERRING_CPU, [IDLE_PROVIDER])) == Ok([IDLE_LISTED])
  {
    IdleProvider();
    ReferringCpu();
    TargetProviders(REFERRING_CPU, [IDLE_PROVIDER]);
    hide Target, ListProviders;
  }

  lemma ProviderLost()
    ensures !ProvidersKept(Target(REFERRING_CPU, [IDLE_PROVIDER]))
  {
    IdleProvider();
    ReferringCpu();
    ReferringListed();
    TargetChild(REFERRING_CPU, [IDLE_PROVIDER]);
    CpuIsCpu(0, REFERRING_CPU);
    CpuGets(0, REFERRING_CPU);
    Displayed(REFERRING_CPU);
    KeptNothing(REFERRING_CPU);
    OneTupleRead();
    hide Target, Child, IsCpu, Found, CpuNode, Providers, KeptProviders, Kept, Tuples, GetProp, Bytes.Be32;
    assert CpuNode(0, REFERRING_CPU) in CpusNode(REFERRING_CPU).children;
  }

  /// The graft succeeds, and grafting its result again is refused.
  lemma SecondGraftRefused()
    ensures
      var t := Target(REFERRING_CPU, [IDLE_PROVIDER]);
      && WfTree(t) && CpuIds(t) == Ok([0, 1, 2, 3])
      && GraftTarget(t, PAGE).Ok?
      && GraftTarget(GraftTarget(t, PAGE).value, PAGE) == InvalidData
  {
    var t := Target(REFERRING_CPU, [IDLE_PROVIDER]);
    IdleProvider();
    ReferringCpu();
    hide *;
    TargetWf(REFERRING_CPU, [IDLE_PROVIDER]);
    TargetIds(REFERRING_CPU, [IDLE_PROVIDER]);
    ReferringListed();
    ReferringKept();
    ProviderLost();
    PageValid();
    GraftAccepts(REFERRING_CPU, [IDLE_PROVIDER], PAGE, [IDLE_LISTED]);
    GraftTargetAgain(t, PAGE);
  }

  lemma PageValid()
    ensures ValidBase(PAGE)
  {
  }

  // A reservation of the page with a second, empty tuple is accepted by the graft, but not by the contract.

  const TWO_TUPLES: bytes := Be64(PAGE) + Be32(SPIN_TABLE_BYTES) + Zeros(12)

  const PAGE_NODE: Node :=
    Node(ParkingName(PAGE), [Property(PROP_COMPATIBLE, SPIN_TABLE_COMPAT + [0]), Property(PROP_NO_MAP, []), Property(PROP_REG, TWO_TUPLES)], [])

  const RESERVED_NODE: Node :=
    Node(RESERVED_MEMORY,
         [Property(PROP_ADDRESS_CELLS, Be32(2)), Property(PROP_SIZE_CELLS, Be32(1)), Property(PROP_RANGES, [])],
         [PAGE_NODE])

  lemma TwoTuplesRead()
    ensures DecodeReg(TWO_TUPLES, 2, 1) == Ok([Range(PAGE, PAGE + SPIN_TABLE_BYTES)]) && |TWO_TUPLES| == 24
  {
    De64Be64(PAGE);
    De32Be32(SPIN_TABLE_BYTES);
    var zeros: bytes := Zeros(12);
    assert zeros[8..12] == [0, 0, 0, 0] && De32([0, 0, 0, 0]) == 0;
    assert TWO_TUPLES[..8] == Be64(PAGE) && TWO_TUPLES[8..12] == Be32(SPIN_TABLE_BYTES) && TWO_TUPLES[12..] == zeros;
    hide Bytes.Be64, Bytes.Be32, Bytes.De32, Bytes.De64, DecodeTuples, Zeros;
    assert Whole(zeros, 12) && Whole(TWO_TUPLES, 12);
    TuplesStep(zeros, 8, 12);
    assert zeros[12..] == [];
    var page := [Range(PAGE, PAGE + SPIN_TABLE_BYTES)];
    NoTuplesLeft(8, 12, []);
    NoTuplesLeft(8, 12, page);
    JoinTwice([], Range(0, 0), DecodeTuples([], 8, 12));
    TuplesStep(TWO_TUPLES, 8, 12);
  }

  /// Like the node that the graft would add, but for its `reg`.
  lemma PageNode()
    ensures
      var node := NewParking(PAGE, 2, 1);
      node.Ok? && forall name: bytes :: name != PROP_REG ==> Get(PAGE_NODE, name) == Get(node.value, name)
    ensures Get(PAGE_NODE, PROP_REG) == Some(TWO_TUPLES)
  {
    ParkingNames();
    hide GetProp, Bytes.Ascii, Bytes.Be64, Bytes.Be32, ParkingName, Zeros;
    var node := NewParking(PAGE, 2, 1).value;
    forall name: bytes | name != PROP_REG ensures Get(PAGE_NODE, name) == Get(node, name) {
      GetThree(PAGE_NODE.props[0], PAGE_NODE.props[1], PAGE_NODE.props[2], name);
      GetThree(node.props[0], node.props[1], node.props[2], name);
    }
    GetThree(PAGE_NODE.props[0], PAGE_NODE.props[1], PAGE_NODE.props[2], PROP_REG);
  }

  lemma PageKind()
    ensures Survives(PAGE_NODE) && WellOwned(PAGE_NODE) && IsContract(PAGE_NODE) && Disable(PAGE_NODE) == PAGE_NODE
    ensures UniqueProps(PAGE_NODE.props)
    ensures RegRanges(PAGE_NODE, 2, 1) == Ok([Range(PAGE, PAGE + SPIN_TABLE_BYTES)])
  {
    PageNode();
    TwoTuplesRead();
    ParkingNames();
    assert |PROP_COMPATIBLE| == 10 && |PROP_NO_MAP| == 6 && |PROP_REG| == 3;
    assert UniqueProps(PAGE_NODE.props) && PAGE_NODE.children == [] by {
      hide Bytes.Ascii, ParkingName, NewParking, Zeros, Bytes.Be64, Bytes.Be32;
    }
    NewParkingLaws(PAGE, 2, 1);
    hide Bytes.Ascii, ParkingName, NewParking, Zeros, Bytes.Be64, Bytes.Be32, GetProp;
    SameKind(NewParking(PAGE, 2, 1).value, PAGE_NODE);
    SurvivingLeaf(PAGE_NODE);
    hide DecodeReg;
  }

  lemma SameKind(x: Node, y: Node)
    requires Inert(x) && WellOwned(x) && IsContract(x)
    requires forall name: bytes :: name != PROP_REG ==> Get(y, name) == Get(x, name)
    ensures Survives(y) && WellOwned(y) && IsContract(y)
  {
    ParkingNames();
    hide GetProp, Bytes.Ascii, Items, StatusEnabled;
  }

  lemma SurvivingLeaf(node: Node)
    requires Survives(node) && node.children == []
    ensures Disable(node) == node
  {
    hide IsPsci, IsIdle;
  }

  lemma ReservedNode(extra: seq<Property>)
    ensures Survives(RESERVED_NODE) && Disable(RESERVED_NODE) == RESERVED_NODE && UniqueProps(RESERVED_NODE.props)
    ensures ReservedCells(Target(extra, [RESERVED_NODE]), RESERVED_NODE) == Ok((2, 1))
  {
    var t := Target(extra, [RESERVED_NODE]);
    RootIsPlain(extra, [RESERVED_NODE]);
    PageKind();
    NewReservedLaws(t);
    NamesApart();
    assert |PROP_RANGES| == 6 && |PROP_ADDRESS_CELLS| == 14 && |PROP_SIZE_CELLS| == 11;
    hide CpusNode, GetProp, Bytes.Ascii, Bytes.Be32, Items;
    var node := NewReserved(t).value;
    assert node.props == RESERVED_NODE.props;
    assert IsPsci(node) == IsPsci(RESERVED_NODE) && IsIdle(node) == IsIdle(RESERVED_NODE);
    assert DisableForest([PAGE_NODE]) == [PAGE_NODE] by {
      assert [PAGE_NODE][1..] == [] && [PAGE_NODE] + [] == [PAGE_NODE];
    }
  }

  lemma ReservationFits(root: Node)
    requires Child(root, RESERVED_MEMORY) == Some(RESERVED_NODE) && ReservedCells(root, RESERVED_NODE) == Ok((2, 1))
    ensures GraftParking(root, PAGE) == Ok(root)
  {
    PageKind();
    hide ReservedCells, RegRanges, WellOwned, Bytes.Ascii, GetProp, IsContract;
    CheckOne(PAGE_NODE, 2, 1, PAGE);
  }

  lemma EmptyTupleWf()
    ensures WfTree(Target([], [RESERVED_NODE])) && UniqueChildren([RESERVED_NODE])
  {
    NamesApart();
    PageKind();
    ReservedNode([]);
    hide UniqueProps, Bytes.Ascii, CpusNode, Bytes.Be32, ParkingName, Zeros, Survives, Disable;
    LeafWf(PAGE_NODE, MAX_DEPTH - 2);
    OneWf(PAGE_NODE, MAX_DEPTH - 2);
    assert WfNode(RESERVED_NODE, MAX_DEPTH - 1);
    OneWf(RESERVED_NODE, MAX_DEPTH - 1);
    TargetWf([], [RESERVED_NODE]);
  }

  lemma ReservedProvidesNothing()
    ensures ListForestProviders([RESERVED_NODE], false) == Ok([])
  {
    PageNode();
    NewParkingLaws(PAGE, 2, 1);
    ParkingNames();
    hide Bytes.Ascii, Bytes.Be32, ParkingName, NewParking, Zeros, GetProp, IsPsci, ListForestProviders;
    GetThree(RESERVED_NODE.props[0], RESERVED_NODE.props[1], RESERVED_NODE.props[2], PROP_POWER_DOMAIN_CELLS);
    NoneAmong([PAGE_NODE], false || IsPsci(RESERVED_NODE));
    BothNil(OwnProvider(RESERVED_NODE, false || IsPsci(RESERVED_NODE)));
    ListOne(RESERVED_NODE, false);
  }

  lemma EmptyTupleAccepted()
    ensures GraftTarget(Target([], [RESERVED_NODE]), PAGE).Ok?
  {
    var others := [RESERVED_NODE];
    var t := Target([], others);
    ReservedProvidesNothing();
    TargetProviders([], others);
    TargetChild([], others);
    RootIsPlain([], others);
    EmptyTupleWf();
    RootUnique([], others);
    ReservedNode([]);
    NamesApart();
    assert Providers(t) == Ok([]) by { hide Target, ListProviders; }
    assert Child(t, RESERVED_MEMORY) == Some(RESERVED_NODE) by { hide CpuNode, Bytes.Ascii; }
    assert DomainsReadable([], []);
    assert others[0].name != CPUS;
    TargetEdits([], others, PAGE, []);
    EditedRoot(t, PAGE, []);
    var edited := EditTarget(t, PAGE, []).value;
    hide *;
    SurvivorStays(RESERVED_NODE);
    ChildDisabled(edited, RESERVED_MEMORY);
    SamePropsProviders(t, edited, false);
    PlainProps(edited);
    SameReservedCells(t, Disable(edited), RESERVED_NODE, RESERVED_NODE);
    ReservationFits(Disable(edited));
    GraftTargetIs(t, PAGE, [], edited);
  }

  lemma SurvivorStays(node: Node)
    requires Survives(node)
    ensures !IsIdle(node)
  {
  }

  lemma PlainProps(root: Node)
    requires !IsPsci(root)
    ensures Disable(root).props == root.props
  {
  }

  lemma EmptyTupleFound()
    ensures CpusKept(Target([], [RESERVED_NODE])) && !SingleTuples(Target([], [RESERVED_NODE]))
  {
    var t := Target([], [RESERVED_NODE]);
    TargetChild([], [RESERVED_NODE]);
    PlainCpusSurvive([]);
    PageKind();
    PageNode();
    TwoTuplesRead();
    ReservedNode([]);
    NamesApart();
    assert CpusKept(t) by { hide Target, Child, IsCpu, Survives, CpusNode, GetProp; }
    assert Child(t, RESERVED_MEMORY) == Some(RESERVED_NODE) by { hide CpuNode, Bytes.Ascii; }
    hide Target, Child, GetProp, IsContract, IsPsci, Bytes.Ascii, Bytes.Be32, Bytes.Be64, ParkingName, NewParking;
    assert PAGE_NODE in RESERVED_NODE.children;
    assert !SingleTuple(RESERVED_NODE, PAGE_NODE) by { ReservedCellsAre(t, RESERVED_NODE); }
  }

  lemma ReservedCellsAre(root: Node, reserved: Node)
    requires ReservedCells(root, reserved).Ok?
    ensures
      var (a, z) := ReservedCells(root, reserved).value;
      NodeCells(reserved, PROP_ADDRESS_CELLS, 0) == Ok(a) && NodeCells(reserved, PROP_SIZE_CELLS, 0) == Ok(z)
  {
    hide GetProp, Bytes.Ascii;
  }

  /// The graft succeeds, and its result is not a contract.
  lemma ContractLostToEmptyTuple()
    ensures
      var t := Target([], [RESERVED_NODE]);
      && WfTree(t) && CpuIds(t) == Ok([0, 1, 2, 3])
      && GraftTarget(t, PAGE).Ok?
      && SpinTableContract(GraftTarget(t, PAGE).value) != Ok(Some(PAGE))
  {
    var t := Target([], [RESERVED_NODE]);
    EmptyTupleWf();
    TargetIds([], [RESERVED_NODE]);
    TargetChild([], [RESERVED_NODE]);
    EmptyTupleAccepted();
    EmptyTupleFound();
    hide *;
    GraftKeepsContract(t, PAGE);
  }
}
