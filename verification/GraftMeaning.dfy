/// When `graft_spin_table` of `src/kexec.rs` returns, and what it leaves of a blob, in its own names and bytes.
module GraftMeaning {
  import opened Bytes
  import opened Handoff
  import opened Tree
  import opened Tokens
  import opened Dtb
  import opened Contract
  import opened FormatMeaning
  import opened Paths
  import opened Psci
  import opened SpinTable
  import opened SpinGraft
  import opened SpinBlob
  import opened SpinMeaning
  import opened ContractMeaning
  import opened ProviderMeaning
  import opened TwiceMeaning
  import opened AcceptMeaning
  import SpinFits

  // The live blob.

  /// The map of the blob can be read, and an entry that touches the page is the page.
  predicate MapTakes(dtb: bytes, base: nat) { ReserveMapRanges(dtb).Ok? && MapAccepts(ReserveMapRanges(dtb).value, base) }

  /// The live blob hands on a page exactly when some CPU waits in a spin table, its tree carries the contract,
  /// CPU 0 booted, and neither its reservations nor its map dispute the page; it hands on nothing exactly
  /// when no CPU speaks of a spin table.
  lemma LiveMeaning(liveDtb: bytes, base: nat)
    requires ContractTree(liveDtb).Ok?
    ensures |liveDtb| >= 40
    ensures
      var live := ContractTree(liveDtb).value;
      && (LiveContract(liveDtb) == Ok(None) <==> !SaysSpinTable(live))
      && (base < U64_LIMIT && LiveContract(liveDtb) == Ok(Some(base)) <==>
            && SaysSpinTable(live) && Carries(live, base) && Number(liveDtb, 28) == 0
            && HasPlace(live, base) && MapTakes(liveDtb, base))
  {
    hide HasPlace, Carries, SaysSpinTable, SpinTableContract, GraftParking, MapReserves, ReserveMapRanges, TreeOf, ParseHeader, Bytes.De32;
    var live := ContractTree(liveDtb).value;
    HeaderBytes(liveDtb);
    SpinTableMeaning(live, base);
    if base < U64_LIMIT && SpinTableContract(live) == Ok(Some(base)) {
      ParkingMeaning(live, base);
    }
    if ReserveMapRanges(liveDtb).Ok? {
      MapReturns(ReserveMapRanges(liveDtb).value, base);
    }
  }

  // The destination.

  /// The CPUs can be edited with the providers of the tree.
  ghost predicate CpusGood(target: Node, providers: seq<Provider>) {
    exists cells: u32 :: CoreCells(target, cells) && 1 <= cells <= 2
      && CoresGood(Child(target, Ascii("cpus")).value.children, cells, providers)
  }

  lemma TargetMeaning(target: Node, base: u64)
    requires WfTree(target) && ValidBase(base)
    ensures GraftTarget(target, base).Ok? <==>
      && AllGoodProviders(target) && !HandleTwice(target) && Providers(target).Ok?
      && CpusGood(target, Providers(target).value) && EditTarget(target, base, Providers(target).value).Ok?
      && HasPlace(Disable(EditTarget(target, base, Providers(target).value).value), base)
  {
    hide HasPlace, AllGoodProviders, HandleTwice, EditTarget, Providers, GraftParking, CoresGood, CoreCells, Disable, WfTree;
    ProvidersReturn(target);
    if Providers(target).Ok? {
      var providers := Providers(target).value;
      TargetReturns(target, base, providers);
      if EditTarget(target, base, providers).Ok? {
        ParkingMeaning(Disable(EditTarget(target, base, providers).value), base);
      }
    }
  }

  /// For a blob that is not very large: the destination is accepted exactly when CPU 0 boots it, its tree has
  /// the four CPUs, its providers and its CPUs are good, and tree and map take the page.
  lemma AcceptedMeaning(dtb: bytes, base: u64)
    requires ValidBase(base) && ContractTree(dtb).Ok?
    requires ReserveMap(dtb).Ok? ==>
      92 * SpinFits.Weight(ContractTree(dtb).value) + |ParkingName(base)| + |ReserveMap(dtb).value| + 400 < U32_LIMIT
    ensures |dtb| >= 40
    ensures GraftPage(dtb, base, FOUR_CPUS).Ok? <==>
      var target := ContractTree(dtb).value;
      && Number(dtb, 28) == 0 && FourCores(target)
      && AllGoodProviders(target) && !HandleTwice(target) && Providers(target).Ok?
      && CpusGood(target, Providers(target).value) && EditTarget(target, base, Providers(target).value).Ok?
      && HasPlace(Disable(EditTarget(target, base, Providers(target).value).value), base)
      && ReserveMap(dtb).Ok? && MapTakes(dtb, base)
  {
    hide GraftPage, HasPlace, AllGoodProviders, HandleTwice, EditTarget, Providers, CpusGood, Disable, FourCores, HasFourCpus,
      GraftTarget, TreeOf, ParseHeader, Bytes.De32, WfTree, SpinFits.Weight, ReserveMapRanges, ReserveMap, GraftMap;
    var target := ContractTree(dtb).value;
    ParsedWf(dtb);
    HeaderBytes(dtb);
    SpinFits.GraftPageReturns(dtb, base);
    FourMeaning(target);
    TargetMeaning(target, base);
    MapGrafts(dtb, base);
  }

  lemma MapGrafts(dtb: bytes, base: u64)
    ensures GraftMap(dtb, base).Ok? <==> ReserveMap(dtb).Ok? && MapTakes(dtb, base)
  {
    hide ParseHeader, MapRanges, MapReserves;
    if ReserveMapRanges(dtb).Ok? {
      MapReturns(ReserveMapRanges(dtb).value, base);
    }
  }

  // The result.

  lemma GraftedHeader(dtb: bytes, base: u64)
    requires ValidBase(base) && GraftPage(dtb, base, FOUR_CPUS).Ok?
    ensures HeaderKept(GraftPage(dtb, base, FOUR_CPUS).value, dtb)
  {
    hide ParseHeader, GraftPage, HeaderKept, GraftTarget, BuildDtb, Printable, ReserveMapRanges, MapReserves, WfTree, CpuIds, IdSet, Providers,
      TreeOf, GraftMap, SameBoot;
    GraftPageParses(dtb, base);
    MapOfGraft(dtb, base);
    var root, reserveMap := GraftTarget(ContractTree(dtb).value, base).value, GraftMap(dtb, base).value;
    var printed := WriteNode(root, []).value;
    WriteNodeMeaning(root, []);
    BuiltHeader(dtb, reserveMap, EncAll(printed.tokens) + Enc(Fin), printed.strings);
  }

  lemma MapOfGraft(dtb: bytes, base: u64)
    requires ValidBase(base) && GraftPage(dtb, base, FOUR_CPUS).Ok?
    ensures GraftMap(dtb, base).Ok? && GraftMap(dtb, base).value != []
    ensures
      var before, after := ReserveMapRanges(dtb), ReserveMapRanges(GraftPage(dtb, base, FOUR_CPUS).value);
      && before.Ok? && after.Ok?
      && after.value == if Range(base, base + 0x1000) in before.value then before.value else before.value + [Range(base, base + 0x1000)]
  {
    hide ReserveMapRanges, GraftPage, GraftMap, GraftTarget, TreeOf, ParseHeader, MapReserves, CpuIds, WfTree, Printable, MapRanges;
    GraftPageParses(dtb, base);
    GraftMapMeaning(dtb, base);
  }

  /// The grafted blob: the header and the map of the destination, with the page in the map, and a tree in
  /// which each node is what the graft makes of it.
  lemma GraftedBlobMeaning(dtb: bytes, liveDtb: bytes, base: u64, path: seq<bytes>)
    requires LiveContract(liveDtb) == Ok(Some(base)) && GraftSpinTable(dtb, liveDtb).Ok?
    ensures ContractTree(dtb).Ok? && Providers(ContractTree(dtb).value).Ok?
    ensures
      var out, was := GraftSpinTable(dtb, liveDtb).value, ContractTree(dtb).value;
      && HeaderKept(out, dtb) && ContractTree(out).Ok? && PageReserved(ContractTree(out).value, base)
      && var before, after := ReserveMapRanges(dtb), ReserveMapRanges(out);
      && before.Ok? && after.Ok?
      && after.value == (if Range(base, base + 0x1000) in before.value then before.value else before.value + [Range(base, base + 0x1000)])
      && var now, node := NodeAt(ContractTree(out).value, path), NodeAt(was, path);
      && (node.Some? && !Removed(was, path) ==>
            now.Some? && NodeIs(now.value, node.value, was, path, base, Providers(was).value))
      && (now.Some? && (path == [] || path[0] != Ascii("reserved-memory")) ==> node.Some? && !Removed(was, path))
  {
    hide *;
    GraftUsesPage(dtb, liveDtb, base);
    LiveBase(liveDtb);
    GraftPageParses(dtb, base);
    MapOfGraft(dtb, base);
    GraftedHeader(dtb, base);
    TargetPrintable(dtb);
    GraftedMeaning(ContractTree(dtb).value, base, path);
  }

  lemma TargetPrintable(dtb: bytes)
    requires ContractTree(dtb).Ok?
    ensures Printable(ContractTree(dtb).value)
  {
    ParsedPrintable(StructBlock(dtb).value, StringsBlock(dtb).value);
  }

  /// Without a contract in the live blob nothing changes.
  lemma NothingToGraft(dtb: bytes, liveDtb: bytes)
    requires ContractTree(liveDtb).Ok? && !SaysSpinTable(ContractTree(liveDtb).value)
    ensures GraftSpinTable(dtb, liveDtb) == Ok(dtb)
  {
    LiveMeaning(liveDtb, 0);
    hide LiveContract, SaysSpinTable, TreeOf;
  }
}
