/// The trees of `SpinWitness` as blobs: `graft_spin_table` of `src/kexec.rs` returns on them, and a second
/// graft gives the same bytes or is refused.
module BlobWitness {
  import opened Bytes
  import opened Tree
  import opened Dtb
  import opened Contract
  import opened Reserved
  import opened Nodes
  import opened Psci
  import opened SpinTable
  import opened SpinGraft
  import opened SpinBlob
  import opened SpinFits
  import opened SpinWitness
  import PrebootWitness

  /// The tree as a blob that reserves nothing and hands on boot CPU 0.
  ghost function Blob(t: Node): bytes {
    if !Printable(t) then []
    else
      var r := BuildContractTree(PrebootWitness.FORMAT, t, PrebootWitness.NO_RESERVATIONS);
      if r.Ok? then r.value else []
  }

  lemma PageNameShort()
    ensures |ParkingName(PAGE)| == 19 && NulFree(ParkingName(PAGE))
  {
    hide Hex, Bytes.Ascii;
    PrefixNulFree();
    PrefixLength();
    PageHex();
  }

  lemma PageHex()
    ensures |Hex(PAGE)| == 8
  {
    assert |Hex(0x8)| == 1 && |Hex(0x80)| == 2 && |Hex(0x800)| == 3 && |Hex(0x8000)| == 4;
    assert |Hex(0x8_0000)| == 5 && |Hex(0x80_0000)| == 6 && |Hex(0x800_0000)| == 7;
  }

  lemma PrefixLength()
    ensures |Ascii("spin-table@")| == 11
  {
  }

  lemma BlobReads(t: Node)
    requires WfTree(t) && Printable(t) && Weight(t) <= 2000
    ensures ContractTree(Blob(t)) == Ok(t) && ReserveMap(Blob(t)) == Ok(PrebootWitness.NO_RESERVATIONS)
    ensures ReserveMapRanges(Blob(t)) == Ok([])
    ensures ParseHeader(Blob(t)).Ok? && ParseHeader(Blob(t)).value.bootCpuidPhys == 0
  {
    var m := PrebootWitness.NO_RESERVATIONS;
    assert MapOk(m) && MapRanges(m, |m|, 0) == Ok([]) && m != [] && |m| == 16 by {
      PrebootWitness.ZeroMap();
    }
    hide Weight, BuildContractTree, WfTree, Printable, ContractTree, ReserveMap, ReserveMapRanges, ParseHeader, MapEnd, MapRanges;
    TreeFits(PrebootWitness.FORMAT, t, m);
    RoundTrip(PrebootWitness.FORMAT, t, m);
    RoundTripHeader(PrebootWitness.FORMAT, t, m);
  }

  /// A small tree that takes the contract gives a blob that takes it.
  lemma BlobGrafts(t: Node)
    requires WfTree(t) && Printable(t) && Weight(t) <= 2000 && GraftChecked(t, PAGE).Ok?
    ensures ContractTree(Blob(t)) == Ok(t) && ValidBase(PAGE) && GraftPage(Blob(t), PAGE, FOUR_CPUS).Ok?
  {
    BlobReads(t);
    PageNameShort();
    PageValid();
    var dtb := Blob(t);
    assert GraftMap(dtb, PAGE).Ok? by {
      assert MapReserves([], PAGE) == Ok(false);
      hide ReserveMap, ReserveMapRanges, Bytes.Be64, Blob;
    }
    hide Weight, WfTree, Printable, ContractTree, ReserveMap, ParseHeader, GraftPage, GraftChecked, ParkingName, GraftMap, Blob;
    GraftPageReturns(dtb, PAGE);
  }

  // The trees are small and printable.

  lemma CpuTextsNulFree()
    ensures NulFree(PROP_DEVICE_TYPE) && NulFree(PROP_REG) && NulFree(CPUS)
    ensures |PROP_DEVICE_TYPE| == 11 && |PROP_REG| == 3 && |CPUS| == 4 && |CPU_TYPE| == 4
  {
  }

  lemma CpuPrints(id: nat, extra: seq<Property>)
    requires id < 4 && PrintableProps(extra)
    ensures Printable(CpuNode(id, extra)) && Weight(CpuNode(id, extra)) == 68 + PropsWeight(extra)
  {
    CpuTextsNulFree();
    hide Bytes.Ascii, Bytes.Be32, PropsWeight;
    TwoMoreWeight(Property(PROP_DEVICE_TYPE, CPU_TYPE), Property(PROP_REG, Be32(id)), extra);
    assert forall p <- CpuNode(id, extra).props ::
      p == Property(PROP_DEVICE_TYPE, CPU_TYPE) || p == Property(PROP_REG, Be32(id)) || p in extra;
    assert ForestWeight([]) == 0;
  }

  lemma TwoMoreWeight(p: Property, q: Property, rest: seq<Property>)
    ensures PropsWeight([p, q] + rest) == PropWeight(p) + PropWeight(q) + PropsWeight(rest)
  {
    hide PropWeight;
    assert ([p, q] + rest)[1..] == [q] + rest && ([q] + rest)[1..] == rest;
    assert PropsWeight([q] + rest) == PropWeight(q) + PropsWeight(rest);
  }

  lemma FourPrint(a: Node, b: Node, c: Node, d: Node)
    requires Printable(a) && Printable(b) && Printable(c) && Printable(d)
    ensures PrintableForest([a, b, c, d])
    ensures ForestWeight([a, b, c, d]) == Weight(a) + Weight(b) + Weight(c) + Weight(d)
  {
    hide Printable, Weight;
    assert [a, b, c, d][1..] == [b, c, d] && [b, c, d][1..] == [c, d] && [c, d][1..] == [d] && [d][1..] == [];
    assert PrintableForest([d]) && ForestWeight([d]) == Weight(d);
    assert PrintableForest([c, d]) && ForestWeight([c, d]) == Weight(c) + Weight(d);
    assert PrintableForest([b, c, d]) && ForestWeight([b, c, d]) == Weight(b) + Weight(c) + Weight(d);
  }

  lemma CpusPrint(extra: seq<Property>)
    requires PrintableProps(extra)
    ensures Printable(CpusNode(extra)) && Weight(CpusNode(extra)) <= 400 + PropsWeight(extra)
  {
    CpuPrints(0, extra);
    CpuPrints(1, []);
    CpuPrints(2, []);
    CpuPrints(3, []);
    CpuTextsNulFree();
    ReservedNamesNulFree();
    assert |PROP_ADDRESS_CELLS| == 14 && |PROP_SIZE_CELLS| == 11;
    FourPrint(CpuNode(0, extra), CpuNode(1, []), CpuNode(2, []), CpuNode(3, []));
    var p, q := Property(PROP_ADDRESS_CELLS, Be32(1)), Property(PROP_SIZE_CELLS, Be32(0));
    TwoMoreWeight(p, q, []);
    assert [p, q] + [] == [p, q] && CpusNode(extra).props == [p, q];
    assert PropsWeight([]) == 0;
    hide ForestWeight, PrintableForest, PropsWeight, Bytes.Ascii, Bytes.Be32, CpuNode;
  }

  lemma TargetPrints(extra: seq<Property>, others: seq<Node>)
    requires PrintableProps(extra) && PrintableForest(others) && PropsWeight(extra) + ForestWeight(others) <= 1500
    ensures Printable(Target(extra, others)) && Weight(Target(extra, others)) <= 2000
  {
    CpusPrint(extra);
    hide CpusNode;
    var nodes := Target(extra, others).children;
    assert nodes[1..] == others && nodes[0] == CpusNode(extra);
  }

  // A live blob with the contract.

  const PLAIN: Node := Target([], [])

  ghost function Live(): bytes {
    var r := if ValidBase(PAGE) then GraftPage(Blob(PLAIN), PAGE, FOUR_CPUS) else InvalidData;
    if r.Ok? then r.value else []
  }

  lemma PlainKept()
    ensures CpusKept(PLAIN) && SingleTuples(PLAIN)
  {
    NoExtra();
    TargetChild([], []);
    PlainCpusSurvive([]);
    hide Child, IsCpu, Survives, CpusNode, GetProp, Target;
  }

  lemma NoExtra()
    ensures Harmless([]) && GetProp([], PROP_COMPATIBLE).None? && DomainsReadable([], []) && PrintableProps([])
    ensures GetProp([], PROP_POWER_DOMAINS).None?
  {
  }

  lemma PlainAccepted()
    ensures WfTree(PLAIN) && GraftChecked(PLAIN, PAGE).Ok?
  {
    NoExtra();
    NoOthers();
    TargetWf([], []);
    TargetIds([], []);
    TargetProviders([], []);
    PageValid();
    assert Providers(PLAIN) == Ok([]) by { hide Target, ListProviders; }
    hide *;
    GraftAccepts([], [], PAGE, []);
    Checked(PLAIN);
  }

  lemma Checked(t: Node)
    requires CpuIds(t) == Ok([0, 1, 2, 3]) && IdSet([0, 1, 2, 3]) == {0, 1, 2, 3} && GraftTarget(t, PAGE).Ok?
    ensures GraftChecked(t, PAGE).Ok?
  {
    hide GraftTarget, CpuIds, IdSet;
  }

  lemma LiveHasContract()
    ensures LiveContract(Live()) == Ok(Some(PAGE))
  {
    PlainAccepted();
    PlainKept();
    NoExtra();
    PageValid();
    NothingPrints();
    LiveIs();
    hide *;
    TargetPrints([], []);
    BlobGrafts(PLAIN);
    GraftedBlobContract(Blob(PLAIN), PAGE);
  }

  lemma LiveIs()
    requires ValidBase(PAGE)
    ensures GraftPage(Blob(PLAIN), PAGE, FOUR_CPUS).Ok? ==> Live() == GraftPage(Blob(PLAIN), PAGE, FOUR_CPUS).value
    ensures PLAIN == Target([], [])
  {
    hide GraftPage, Blob, ValidBase, Target;
  }

  /// On a small tree that takes the contract the whole function returns, and a second graft does what the
  /// tree says.
  lemma GraftedTwice(t: Node)
    requires WfTree(t) && Printable(t) && Weight(t) <= 2000 && GraftChecked(t, PAGE).Ok?
    ensures GraftSpinTable(Blob(t), Live()).Ok?
    ensures
      var out := GraftSpinTable(Blob(t), Live());
      && GraftSpinTable(out.value, Live()) == (if CpusKept(t) && ProvidersKept(t) then out else InvalidData)
      && GraftSpinTable(out.value, out.value) ==
         if !SomeCpuKept(t) || (CpusKept(t) && SingleTuples(t) && ProvidersKept(t)) then out else InvalidData
  {
    hide *;
    LiveHasContract();
    BlobGrafts(t);
    GraftUsesPage(Blob(t), Live(), PAGE);
    GraftSpinTableAgain(Blob(t), Live(), PAGE);
    GraftSpinTableSelf(Blob(t), Live(), PAGE);
  }

  // The three trees, and one that is grafted twice.

  lemma ExtraPrints()
    ensures PrintableProps(PSCI_CPU) && PropsWeight(PSCI_CPU) == 35
    ensures PrintableProps(REFERRING_CPU) && PropsWeight(REFERRING_CPU) == 33
  {
    ParkingNamesNulFree();
    DomainPropsNulFree();
    assert |PROP_COMPATIBLE| == 10 && |Ascii("arm,psci")| == 8 && |PROP_POWER_DOMAINS| == 13;
    hide Bytes.Ascii, Bytes.Be32;
  }

  lemma IdleTextsNulFree()
    ensures NulFree(PROP_SUSPEND_PARAM) && |PROP_SUSPEND_PARAM| == 22
  {
  }

  lemma ProviderTextsNulFree()
    ensures NulFree(PROP_POWER_DOMAIN_CELLS) && NulFree(PROP_PHANDLE)
    ensures |PROP_POWER_DOMAIN_CELLS| == 19 && |PROP_PHANDLE| == 7
  {
  }

  lemma ThreePropsPrint(node: Node)
    requires NulFree(node.name) && |node.props| == 3 && PrintableProps(node.props) && PrintableForest(node.children)
    ensures PrintableForest([node])
    ensures ForestWeight([node]) ==
      12 + |node.name| + PropWeight(node.props[0]) + PropWeight(node.props[1]) + PropWeight(node.props[2]) + ForestWeight(node.children)
  {
    var p := node.props;
    hide PropsWeight, PropWeight;
    ThreeProps(p[0], p[1], p[2]);
    assert p == [p[0], p[1], p[2]];
    assert PrintableForest([]) && ForestWeight([]) == 0;
    assert [node][1..] == [];
  }

  lemma NothingPrints()
    ensures PrintableForest([]) && ForestWeight([]) == 0 && PrintableProps([]) && PropsWeight([]) == 0
  {
  }

  lemma IdlePrints()
    ensures PrintableForest([IDLE_PROVIDER]) && ForestWeight([IDLE_PROVIDER]) <= 200
  {
    IdleTextsNulFree();
    ProviderTextsNulFree();
    NothingPrints();
    hide Bytes.Ascii, Bytes.Be32, ForestWeight, PrintableForest;
    ThreePropsPrint(IDLE_PROVIDER);
  }

  lemma ReservedPrints()
    ensures PrintableForest([RESERVED_NODE]) && ForestWeight([RESERVED_NODE]) <= 400
  {
    ParkingNamesNulFree();
    ReservedNamesNulFree();
    PageNameShort();
    NothingPrints();
    assert |PROP_COMPATIBLE| == 10 && |SPIN_TABLE_COMPAT| == 24 && |PROP_NO_MAP| == 6 && |PROP_REG| == 3;
    assert |RESERVED_MEMORY| == 15 && |PROP_ADDRESS_CELLS| == 14 && |PROP_SIZE_CELLS| == 11 && |PROP_RANGES| == 6;
    hide Bytes.Ascii, Bytes.Be32, Bytes.Be64, Zeros, ParkingName, ForestWeight, PrintableForest;
    ThreePropsPrint(PAGE_NODE);
    ThreePropsPrint(RESERVED_NODE);
  }

  /// A CPU that is a PSCI node is lost, so the second graft is refused.
  lemma RefusedToPsciCpu()
    ensures
      var out := GraftSpinTable(Blob(Target(PSCI_CPU, [])), Live());
      out.Ok? && GraftSpinTable(out.value, Live()) == InvalidData
  {
    SecondGraftRefusedToPsciCpu();
    PsciCpuLost();
    ExtraPrints();
    NothingPrints();
    hide *;
    TargetPrints(PSCI_CPU, []);
    GraftedTwice(Target(PSCI_CPU, []));
  }

  /// The provider of a power domain is removed as an idle state, so the second graft is refused.
  lemma RefusedToIdleProvider()
    ensures
      var out := GraftSpinTable(Blob(Target(REFERRING_CPU, [IDLE_PROVIDER])), Live());
      out.Ok? && GraftSpinTable(out.value, Live()) == InvalidData
  {
    SecondGraftRefused();
    ProviderLost();
    ExtraPrints();
    IdlePrints();
    IdleProvider();
    TargetIds(REFERRING_CPU, [IDLE_PROVIDER]) by { ReferringCpu(); }
    hide *;
    TargetPrints(REFERRING_CPU, [IDLE_PROVIDER]);
    Checked(Target(REFERRING_CPU, [IDLE_PROVIDER]));
    GraftedTwice(Target(REFERRING_CPU, [IDLE_PROVIDER]));
  }

  /// The reservation of the page has a second, empty tuple, so the output is no contract, and is refused as
  /// its own live blob.
  lemma RefusedToEmptyTuple()
    ensures
      var out := GraftSpinTable(Blob(Target([], [RESERVED_NODE])), Live());
      && out.Ok? && LiveContract(out.value) != Ok(Some(PAGE))
      && GraftSpinTable(out.value, out.value) == InvalidData
  {
    var t := Target([], [RESERVED_NODE]);
    ContractLostToEmptyTuple();
    EmptyTupleFound();
    ReservedPrints();
    NothingPrints();
    assert t.children[1].name != CPUS by { NamesApart(); }
    TargetIds([], [RESERVED_NODE]) by { NoExtra(); }
    hide *;
    TargetPrints([], [RESERVED_NODE]);
    Checked(t);
    GraftedTwice(t);
    SomeOfFour(t) by { FourOf(t); }
    BlobGrafts(t);
    LiveHasContract();
    GraftUsesPage(Blob(t), Live(), PAGE);
    GraftedBlobContract(Blob(t), PAGE);
  }

  lemma FourOf(t: Node)
    requires GraftChecked(t, PAGE).Ok?
    ensures HasFourCpus(t)
  {
    hide HasFourCpus;
  }

  /// A tree without power domains, whose CPUs are neither PSCI nor idle nodes, is grafted again to the same
  /// bytes, also as its own live blob.
  lemma GraftedToItself()
    ensures
      var out := GraftSpinTable(Blob(PLAIN), Live());
      out.Ok? && GraftSpinTable(out.value, Live()) == out && GraftSpinTable(out.value, out.value) == out
  {
    PlainAccepted();
    PlainKept();
    NoExtra();
    NoDomainsKept([]);
    NothingPrints();
    LiveIs() by { PageValid(); }
    hide *;
    TargetPrints([], []);
    GraftedTwice(PLAIN);
  }
}
