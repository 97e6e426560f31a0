/// Blobs and trees that `pocketpreboot/src/msm8916.rs` accepts, and for which the condition of
/// `Msm8916Blob.PatchFdtTwice`, `PrebootFdt.LookupAnswered` or `Msm8916Cpus.ResidentAfterPatch` fails.
module PrebootWitness {
  import opened Bytes
  import opened Tokens
  import opened Tree
  import opened Dtb
  import opened Contract
  import opened Msm8916
  import opened Msm8916Stream
  import opened Msm8916Blob
  import opened Msm8916Cpus
  import opened PrebootFdt

  // A strings block that ends inside a string.

  const LETTER: bytes := [120]

  const EMPTY_ROOT: Node := Node([], [], [])

  const ROOT_TOKENS: seq<Token> := [Begin([], [0, 0, 0]), End]

  const FORMAT := Header(0, 0, 0, 0, 17, 16, 0, 0, 0)

  const NO_RESERVATIONS: bytes := Zeros(16)

  lemma RootTokens()
    ensures AllWf(ROOT_TOKENS) && |EncAll(ROOT_TOKENS)| == 12 && Fin !in ROOT_TOKENS
    ensures forall strings: bytes :: Resolve(strings, ROOT_TOKENS) == Some(Events(EMPTY_ROOT))
  {
    var begin := Begin([], [0, 0, 0]);
    assert ROOT_TOKENS == [begin] + [End];
    assert Wf(begin) && Wf(End);
    hide Bytes.Be32;
    EncAllOne(begin);
    EncAllSnoc([begin], End);
    assert |Enc(begin)| == 8 && |Enc(End)| == 4;
    forall strings: bytes ensures Resolve(strings, ROOT_TOKENS) == Some(Events(EMPTY_ROOT)) {
      ResolveAppend(strings, [begin], [End]);
      ResolveOne(strings, begin);
      ResolveOne(strings, End);
      assert Events(EMPTY_ROOT) == [Open([])] + [Close];
    }
  }

  lemma ZeroMap()
    ensures MapOk(NO_RESERVATIONS) && NO_RESERVATIONS != [] && |PaddedMap(NO_RESERVATIONS)| == 16
    ensures MapRanges(NO_RESERVATIONS, |NO_RESERVATIONS|, 0) == Ok([])
  {
    var m: bytes := NO_RESERVATIONS;
    assert m[0..8] == Zeros(8) && m[8..16] == Zeros(8);
    assert De64(Zeros(8)) == 0 by {
      assert Zeros(8)[..4] == [0, 0, 0, 0] && Zeros(8)[4..] == [0, 0, 0, 0] && De32([0, 0, 0, 0]) == 0;
    }
    hide Bytes.De64, Zeros;
    assert MapEnd(m, 16, 0) == Ok(16) && MapRanges(m, 16, 0) == Ok([]);
  }

  function LetterBlob(): Result<bytes> { BuildDtb(FORMAT, NO_RESERVATIONS, Encoded(ROOT_TOKENS), LETTER) }

  lemma EncodedLength(tokens: seq<Token>)
    requires AllWf(tokens)
    ensures |Encoded(tokens)| == |EncAll(tokens)| + 4
  {
    hide EncAll, Bytes.Be32;
  }

  lemma LetterReads()
    ensures AllWf(ROOT_TOKENS) && LetterBlob().Ok? && ReadBlocks(LetterBlob().value).Ok?
    ensures
      var b := ReadBlocks(LetterBlob().value).value;
      && b.structure == Encoded(ROOT_TOKENS) && b.strings == LETTER && b.reserveMap == NO_RESERVATIONS
      && BlocksDenote(b, EMPTY_ROOT)
    ensures StringsBlock(LetterBlob().value) == Ok(LETTER)
  {
    RootTokens();
    ZeroMap();
    EncodedLength(ROOT_TOKENS);
    EncodedAt(ROOT_TOKENS, LETTER, EMPTY_ROOT);
    EncodedBegin(ROOT_TOKENS);
    SmallBlob(Encoded(ROOT_TOKENS));
    hide *;
    var structure := Encoded(ROOT_TOKENS);
    BuiltBlocks(FORMAT, NO_RESERVATIONS, structure, LETTER);
    BuiltMap(FORMAT, NO_RESERVATIONS, structure, LETTER);
    BlobIs();
    FormatReads(LetterBlob().value, structure);
    RootDenoted(ReadBlocks(LetterBlob().value).value);
  }

  lemma SmallBlob(structure: bytes)
    requires |structure| == 16 && |PaddedMap(NO_RESERVATIONS)| == 16
    ensures BuildDtb(FORMAT, NO_RESERVATIONS, structure, LETTER).Ok?
  {
    hide Cells, Zeros, PaddedMap;
  }

  lemma BlobIs()
    requires AllWf(ROOT_TOKENS)
    ensures LetterBlob() == BuildDtb(FORMAT, NO_RESERVATIONS, Encoded(ROOT_TOKENS), LETTER)
  {
    hide BuildDtb, Encoded;
  }

  lemma FormatReads(dtb: bytes, structure: bytes)
    requires ParseHeader(dtb).Ok? && |PaddedMap(NO_RESERVATIONS)| == 16 && |structure| == 16
    requires
      var h := ParseHeader(dtb).value;
      && h.offMemRsvmap == HEADER_SIZE && h.offDtStruct == HEADER_SIZE + |PaddedMap(NO_RESERVATIONS)|
      && h.offDtStrings == HEADER_SIZE + |PaddedMap(NO_RESERVATIONS)| + |structure|
      && h.version == FORMAT.version && h.lastCompVersion == FORMAT.lastCompVersion
    requires StructBlock(dtb) == Ok(structure) && StringsBlock(dtb) == Ok(LETTER) && ReserveMap(dtb) == Ok(NO_RESERVATIONS)
    ensures ReadBlocks(dtb).Ok?
    ensures
      var b := ReadBlocks(dtb).value;
      b.structure == structure && b.strings == LETTER && b.reserveMap == NO_RESERVATIONS
  {
    hide ParseHeader, StructBlock, StringsBlock, ReserveMap, PaddedMap, Zeros;
  }

  lemma RootDenoted(b: Blocks)
    requires PrebootFdt.At(b.structure, b.strings, 0, Events(EMPTY_ROOT))
    requires TokenAt(b.structure, 0).Some? && TokenAt(b.structure, 0).value.0.Begin?
    ensures BlocksDenote(b, EMPTY_ROOT)
  {
  }

  lemma {:induction false} InternBounds(base: bytes, strings: bytes, names: seq<bytes>)
    requires forall n <- names :: |n| <= 18 && FindString(base, n, 0).None?
    ensures
      var r := InternNames(base, strings, names);
      |r.strings| <= |strings| + 19 * |names| && forall o <- r.offsets :: o <= |r.strings|
    decreases |names|
  {
    hide FindString;
    if names != [] {
      InternBounds(base, strings + names[0] + [0], names[1..]);
    }
  }

  lemma LetterHoldsNothing()
    ensures !Settled(LETTER) && forall n <- PATCH_NAMES :: FindString(LETTER, n, 0).None?
  {
    assert FindNul(LETTER, 0).None?;
    hide Bytes.Ascii;
    assert PATCH_NAMES[0] in PATCH_NAMES;
  }

  lemma RootPatched(p: Platform)
    ensures VisitNode(EMPTY_ROOT, false, 0, []) == Ok([]) && PatchNode(p, [], EMPTY_ROOT) == Ok(EMPTY_ROOT)
  {
    hide Bytes.Ascii;
    assert SeenIn([]) == Seen(None, None, None, None);
    assert !Msm8916.IsPsci(None);
    var c := Context(RootNode, false);
    assert ContextOf([], [], SeenIn([])) == c;
    var none: seq<Property> := [];
    assert none + none == none;
    assert Additions(p, c, SeenIn([])) == Ok([]);
    assert [] + [c] == [c];
    assert PatchForest(p, [c], []) == Ok([]);
    assert Kept(c, []) == [];
  }

  lemma RootStream(p: Platform, offsets: Offsets)
    ensures Fin !in ROOT_TOKENS && PatchFrom(p, LETTER, offsets, [], ROOT_TOKENS) == Ok(ROOT_TOKENS)
  {
    hide Bytes.Ascii;
    var begin := Begin([], [0, 0, 0]);
    var c := Context(RootNode, false);
    assert ROOT_TOKENS[1..] == [End] && [End][1..] == [];
    assert PatchFrom(p, LETTER, offsets, [], []) == Ok([]);
    assert [c][..0] == [] && [End] + [] == [End];
    assert PatchFrom(p, LETTER, offsets, [c], [End]) == Ok([End]);
    assert SeenAt(LETTER, [End]) == Seen(None, None, None, None);
    assert [begin] + [] == [begin] && [begin] + [End] == ROOT_TOKENS;
  }

  /// The blob is patched, and patching the result again gives other bytes.
  lemma SecondPatchDiffers(table: u32)
    ensures LetterBlob().Ok? && Denotes(LetterBlob().value, EMPTY_ROOT)
    ensures
      var out := PatchedFdt(LetterBlob().value, EMPTY_ROOT, 4096, table);
      && out.Ok? && Denotes(out.value, EMPTY_ROOT)
      && PatchedFdt(out.value, EMPTY_ROOT, 4096, table) != out
  {
    LetterReads();
    LetterHoldsNothing();
    LetterInterned();
    var dtb := LetterBlob().value;
    var b, interned := ReadBlocks(dtb).value, InternNames(LETTER, LETTER, PATCH_NAMES);
    var p := Platform([], table);
    assert Denotes(dtb, EMPTY_ROOT);
    hide *;
    LetterPatch(b, p, AsOffsets(interned.offsets).value, interned);
    LetterWritten(dtb, b, table);
    RootPatched(p);
    RootTree(table);
    PatchedFdtMeaning(dtb, EMPTY_ROOT, 4096, table);
    PatchFdtTwice(dtb, EMPTY_ROOT, 4096, table);
  }

  lemma RootTree(table: u32)
    ensures PatchTree(EMPTY_ROOT, table) == Ok(EMPTY_ROOT)
  {
    RootPatched(Platform([], table));
    hide VisitNode, PatchNode;
  }

  lemma LetterWritten(dtb: bytes, b: Blocks, table: u32)
    requires ReadBlocks(dtb) == Ok(b) && PatchBlocks(b, EMPTY_ROOT, table).Ok?
    ensures PatchedFdt(dtb, EMPTY_ROOT, 4096, table) == WriteBlocks(PatchBlocks(b, EMPTY_ROOT, table).value, 4096)
  {
    hide ReadBlocks, PatchBlocks, WriteBlocks;
  }

  lemma LetterInterned()
    ensures
      var interned := InternNames(LETTER, LETTER, PATCH_NAMES);
      |interned.strings| <= 96 && AsOffsets(interned.offsets).Ok?
  {
    LetterHoldsNothing();
    NamesDiffer();
    hide FindString, InternNames, Bytes.Ascii;
    InternBounds(LETTER, LETTER, PATCH_NAMES);
  }

  lemma LetterPatch(b: Blocks, p: Platform, offsets: Offsets, interned: Interned)
    requires AllWf(ROOT_TOKENS) && b.structure == Encoded(ROOT_TOKENS) && b.strings == LETTER && b.reserveMap == NO_RESERVATIONS
    requires p.providers == [] && interned == InternNames(LETTER, LETTER, PATCH_NAMES)
    requires AsOffsets(interned.offsets) == Ok(offsets) && |interned.strings| <= 96
    ensures PatchBlocks(b, EMPTY_ROOT, p.table) == Ok(Blocks(b.header, b.reserveMap, Encoded(ROOT_TOKENS), interned.strings))
    ensures WriteBlocks(PatchBlocks(b, EMPTY_ROOT, p.table).value, 4096).Ok?
  {
    RootTokens();
    ZeroMap();
    EncodedLength(ROOT_TOKENS);
    RootPatched(p);
    RootStream(p, offsets);
    EncodedAt(ROOT_TOKENS, LETTER, EMPTY_ROOT);
    hide Encoded, EncAll, Events, Resolve, Zeros, AllWf, TokensFrom, PatchFrom, VisitNode, InternNames, AsOffsets, PrebootFdt.At;
  }

  // A block that starts with a NOP.

  const NOP_TOKENS: seq<Token> := [Nop] + ROOT_TOKENS

  lemma NopTokens()
    ensures AllWf(NOP_TOKENS) && Fin !in NOP_TOKENS && Resolve([], NOP_TOKENS) == Some(Events(EMPTY_ROOT))
    ensures TokenAt(Encoded(NOP_TOKENS), 0).Some? && TokenAt(Encoded(NOP_TOKENS), 0).value.0 == Nop
  {
    RootTokens();
    EncAllOne(Nop);
    EncAllAppend([Nop], ROOT_TOKENS);
    ResolveAppend([], [Nop], ROOT_TOKENS);
    ResolveOne([], Nop);
    hide Bytes.Be32, Events;
    assert [] + Events(EMPTY_ROOT) == Events(EMPTY_ROOT);
    var tail := EncAll(ROOT_TOKENS) + Enc(Fin);
    SliceIsToken([], Nop, tail);
    assert Encoded(NOP_TOKENS) == [] + Enc(Nop) + tail;
  }

  /// The block encodes a root, and "/" does not find it.
  lemma RootBehindNop(r: FdtResult<nat>)
    ensures AllWf(NOP_TOKENS) && At(Encoded(NOP_TOKENS), [], 0, Events(EMPTY_ROOT))
    ensures FindsPath(Encoded(NOP_TOKENS), [], [SLASH], EMPTY_ROOT, r) <==> r == Failed(BadToken)
    ensures LookupPath(EMPTY_ROOT, []) == Some(EMPTY_ROOT)
  {
    NopTokens();
    hide Encoded, Events, TokenAt, Resolve, AllWf;
    EncodedAt(NOP_TOKENS, [], EMPTY_ROOT);
  }

  // A tree whose /cpus node is a PSCI node.

  const TABLE: u32 := 0x8fff_f000

  function CpuNode(id: nat): Node
    requires id < 4
  {
    Node(Ascii("cpu@") + [48 + id],
         [Property(DEVICE_TYPE, Ascii("cpu") + [0]), Property(COMPATIBLE, Ascii("arm,cortex-a53") + [0]), Property(REG, Be32(id)),
          Property(ENABLE_METHOD, SPIN_TABLE), Property(CPU_RELEASE_ADDR, Be64(ReleaseAddr(TABLE, id)))],
         [])
  }

  const CPUS_NODE: Node :=
    Node(CPUS, [Property(ADDRESS_CELLS, Be32(1)), Property(SIZE_CELLS, Be32(0)), Property(COMPATIBLE, Ascii("arm,psci") + [0])],
         [CpuNode(0), CpuNode(1), CpuNode(2), CpuNode(3)])

  const TABLE_NODE: Node :=
    Node(Ascii("spin-table"),
         [Property(COMPATIBLE, SPIN_TABLE_COMPATIBLE + [0]), Property(NO_MAP, []), Property(REG, Be64(TABLE) + Be64(SPIN_TABLE_SIZE))],
         [])

  const RESERVED_NODE: Node :=
    Node(RESERVED_MEMORY, [Property(ADDRESS_CELLS, Be32(2)), Property(SIZE_CELLS, Be32(2)), Property(RANGES, [])], [TABLE_NODE])

  const PSCI_TREE: Node := Node([], [], [CPUS_NODE, RESERVED_NODE])

  lemma GetFive(p: Property, q: Property, r: Property, s: Property, t: Property, name: bytes)
    ensures GetProp([p, q, r, s, t], name) ==
      if p.name == name then Some(p.value) else if q.name == name then Some(q.value) else GetProp([r, s, t], name)
  {
    assert [p, q, r, s, t][1..] == [q, r, s, t] && [q, r, s, t][1..] == [r, s, t];
  }

  lemma NameLengths()
    ensures |DEVICE_TYPE| == 11 && |COMPATIBLE| == 10 && |REG| == 3 && |ENABLE_METHOD| == 13 && |CPU_RELEASE_ADDR| == 16
    ensures |STATUS| == 6 && |NO_MAP| == 6 && |REUSABLE| == 8 && |ADDRESS_CELLS| == 14 && |SIZE_CELLS| == 11 && |RANGES| == 6
    ensures |POWER_DOMAINS| == 13 && |POWER_DOMAIN_NAMES| == 18 && |POWER_DOMAIN_CELLS| == 19
    ensures NO_MAP != STATUS && ENABLE_METHOD != POWER_DOMAINS && |CPUS| == 4 && |RESERVED_MEMORY| == 15
    ensures |Ascii("idle-states")| == 11 && |Ascii("cpu")| == 3
  {
    assert NO_MAP[0] == 110 && STATUS[0] == 115 && ENABLE_METHOD[0] == 101 && POWER_DOMAINS[0] == 112;
  }

  lemma CpuGets(id: nat)
    requires id < 4
    ensures
      var n := CpuNode(id);
      && Get(n, DEVICE_TYPE) == Some(Ascii("cpu") + [0]) && Get(n, COMPATIBLE) == Some(Ascii("arm,cortex-a53") + [0])
      && Get(n, REG) == Some(Be32(id)) && Get(n, ENABLE_METHOD) == Some(SPIN_TABLE)
      && Get(n, CPU_RELEASE_ADDR) == Some(Be64(ReleaseAddr(TABLE, id)))
      && Get(n, STATUS).None? && Get(n, POWER_DOMAINS).None? && Get(n, POWER_DOMAIN_NAMES).None? && Get(n, POWER_DOMAIN_CELLS).None?
  {
    NameLengths();
    hide GetProp, Bytes.Ascii, Bytes.Be32, Bytes.Be64;
    var props := CpuNode(id).props;
    forall name: bytes
      ensures GetProp(props, name) ==
        if props[0].name == name then Some(props[0].value) else if props[1].name == name then Some(props[1].value)
        else if props[2].name == name then Some(props[2].value) else if props[3].name == name then Some(props[3].value)
        else if props[4].name == name then Some(props[4].value) else None
    {
      GetFive(props[0], props[1], props[2], props[3], props[4], name);
      GetThree(props[2], props[3], props[4], name);
    }
  }

  function AmongThree(props: seq<Property>, name: bytes): Option<bytes>
    requires |props| == 3
  {
    if props[0].name == name then Some(props[0].value) else if props[1].name == name then Some(props[1].value)
    else if props[2].name == name then Some(props[2].value) else None
  }

  lemma NodesGet()
    ensures FirstCell(Get(CPUS_NODE, ADDRESS_CELLS)) == Some(1) && FirstCell(Get(CPUS_NODE, SIZE_CELLS)) == Some(0)
    ensures Get(CPUS_NODE, COMPATIBLE) == Some(Ascii("arm,psci") + [0]) && Get(CPUS_NODE, POWER_DOMAIN_CELLS).None?
    ensures TwoCells(RESERVED_NODE) && Get(RESERVED_NODE, COMPATIBLE).None? && Get(RESERVED_NODE, POWER_DOMAIN_CELLS).None?
    ensures Get(TABLE_NODE, COMPATIBLE) == Some(SPIN_TABLE_COMPATIBLE + [0]) && Get(TABLE_NODE, NO_MAP) == Some([])
    ensures Get(TABLE_NODE, REUSABLE).None? && Get(TABLE_NODE, STATUS).None? && Get(TABLE_NODE, POWER_DOMAIN_CELLS).None?
    ensures Get(TABLE_NODE, REG) == Some(Be64(TABLE) + Be64(SPIN_TABLE_SIZE))
  {
    NameLengths();
    De32Be32(0);
    De32Be32(1);
    De32Be32(2);
    hide GetProp, Bytes.Ascii, Bytes.Be32, Bytes.De32, Bytes.Be64, CpuNode;
    assert Be32(0)[..4] == Be32(0) && Be32(1)[..4] == Be32(1) && Be32(2)[..4] == Be32(2);
    forall n: Node, name: bytes | |n.props| == 3 ensures Get(n, name) == AmongThree(n.props, name) {
      assert n.props == [n.props[0], n.props[1], n.props[2]];
      GetThree(n.props[0], n.props[1], n.props[2], name);
    }
  }

  lemma OneItem(item: bytes, other: bytes)
    requires NulFree(item)
    ensures ListHas(item + [0], item) && (NulFree(other) && ListHas(item + [0], other) ==> other == item)
  {
    FindNulIs(item + [0], 0, |item|);
    assert (item + [0])[..|item|] == item && (item + [0])[|item| + 1..] == [];
    assert !ListHas([], other);
  }

  lemma LookUp()
    ensures LookupPath(PSCI_TREE, [CPUS]) == Some(CPUS_NODE) && LookupPath(PSCI_TREE, [RESERVED_MEMORY]) == Some(RESERVED_NODE)
  {
    NameLengths();
    hide CpuNode, Bytes.Ascii, Bytes.Be32, Bytes.Be64;
    assert [CPUS][1..] == [] && [RESERVED_MEMORY][1..] == [];
    assert [CPUS_NODE, RESERVED_NODE][1..] == [RESERVED_NODE];
    assert LookupPath(CPUS_NODE, []) == Some(CPUS_NODE) && LookupPath(RESERVED_NODE, []) == Some(RESERVED_NODE);
    assert LookupIn([RESERVED_NODE], [RESERVED_MEMORY]) == Some(RESERVED_NODE);
    assert LookupIn([CPUS_NODE, RESERVED_NODE], [RESERVED_MEMORY]) == Some(RESERVED_NODE);
    assert LookupIn([CPUS_NODE, RESERVED_NODE], [CPUS]) == Some(CPUS_NODE);
  }

  lemma TableFound()
    ensures FindSpinTable(PSCI_TREE) == Ok(TABLE)
  {
    LookUp();
    NodesGet();
    De64Be64(TABLE);
    De64Be64(SPIN_TABLE_SIZE);
    TextsNulFree();
    OneItem(SPIN_TABLE_COMPATIBLE, SPIN_TABLE_COMPATIBLE);
    var reg := Be64(TABLE) + Be64(SPIN_TABLE_SIZE);
    assert reg[..8] == Be64(TABLE) && reg[8..] == Be64(SPIN_TABLE_SIZE);
    hide LookupPath, GetProp, Bytes.Ascii, Bytes.Be32, Bytes.Be64, Bytes.De64, CpuNode, ListHas, TwoCells;
    assert TableAddress(TABLE_NODE) == Ok(TABLE);
    assert LooksLikeTable(TABLE_NODE);
    assert [TABLE_NODE][1..] == [] && TableAmong([], Some(TABLE)) == Ok(TABLE);
  }

  lemma TextsNulFree()
    ensures NulFree(SPIN_TABLE_COMPATIBLE) && NulFree(Ascii("cpu")) && NulFree(Ascii("arm,cortex-a53")) && NulFree(Ascii("arm,psci"))
  {
  }

  lemma CpuAccepted(id: nat, list: CpuList)
    requires id < 4 && |list.cpus| == id && (id > 0 ==> list.mode == Resident)
    requires forall c <- list.cpus :: c.reg < id
    ensures IsCpuName(CpuNode(id)) && Cstr(Get(CpuNode(id), DEVICE_TYPE)).Some? && IsCounted(CpuNode(id))
    ensures AddCpu(PSCI_TREE, CpuNode(id), list) == Ok(CpuList(list.cpus + [CpuInfo(id, 0)], Resident))
  {
    CpuGets(id);
    TableFound();
    TextsNulFree();
    CstrOf(Ascii("cpu"));
    OneItem(Ascii("arm,cortex-a53"), Ascii("arm,cortex-a53"));
    SpinTableIsResident();
    De32Be32(id);
    De64Be64(ReleaseAddr(TABLE, id));
    CpuNamed(id);
    hide FindSpinTable, GetProp, Bytes.Ascii, Bytes.Be32, Bytes.Be64, Bytes.De64, Bytes.De32, CpuNode, ListHas, FindNul, ModeOf;
  }

  lemma CpuNamed(id: nat)
    requires id < 4
    ensures BasenameEq(CpuNode(id).name, Ascii("cpu"))
  {
    var name: bytes := CpuNode(id).name;
    assert name[0] == 99 && name[1] == 112 && name[2] == 117 && name[3] == 64;
    assert name[..3] == Ascii("cpu");
  }

  lemma AmongStep(n: Node, rest: seq<Node>, list: CpuList, more: CpuList)
    requires IsCpuName(n) && Cstr(Get(n, DEVICE_TYPE)).Some? && IsCounted(n) && AddCpu(PSCI_TREE, n, list) == Ok(more)
    ensures CpusAmong(PSCI_TREE, [n] + rest, list) == CpusAmong(PSCI_TREE, rest, more)
  {
    hide AddCpu, IsCpuName, IsCounted, Cstr, GetProp;
    assert ([n] + rest)[1..] == rest;
  }

  lemma CpusAccepted()
    ensures CollectCpus(PSCI_TREE).Ok? && |CollectCpus(PSCI_TREE).value.cpus| == 4
  {
    LookUp();
    NodesGet();
    FourChildren();
    var one, two, three, four := [CpuInfo(0, 0)], [CpuInfo(0, 0), CpuInfo(1, 0)], [CpuInfo(0, 0), CpuInfo(1, 0), CpuInfo(2, 0)],
      [CpuInfo(0, 0), CpuInfo(1, 0), CpuInfo(2, 0), CpuInfo(3, 0)];
    hide *;
    assert [] + [CpuInfo(0, 0)] == one && one + [CpuInfo(1, 0)] == two && two + [CpuInfo(2, 0)] == three && three + [CpuInfo(3, 0)] == four;
    CpuAccepted(0, CpuList([], Cold));
    CpuAccepted(1, CpuList(one, Resident));
    CpuAccepted(2, CpuList(two, Resident));
    CpuAccepted(3, CpuList(three, Resident));
    AmongStep(CpuNode(0), [CpuNode(1)] + ([CpuNode(2)] + ([CpuNode(3)] + [])), CpuList([], Cold), CpuList(one, Resident));
    AmongStep(CpuNode(1), [CpuNode(2)] + ([CpuNode(3)] + []), CpuList(one, Resident), CpuList(two, Resident));
    AmongStep(CpuNode(2), [CpuNode(3)] + [], CpuList(two, Resident), CpuList(three, Resident));
    AmongStep(CpuNode(3), [], CpuList(three, Resident), CpuList(four, Resident));
    NoneLeft(CpuList(four, Resident));
    Collected(CpuList(four, Resident));
  }

  lemma FourChildren()
    ensures CPUS_NODE.children == [CpuNode(0)] + ([CpuNode(1)] + ([CpuNode(2)] + ([CpuNode(3)] + [])))
  {
    hide CpuNode;
  }

  lemma NoneLeft(list: CpuList)
    ensures CpusAmong(PSCI_TREE, [], list) == Ok(list)
  {
  }

  lemma Collected(list: CpuList)
    requires LookupPath(PSCI_TREE, [CPUS]) == Some(CPUS_NODE)
    requires FirstCell(Get(CPUS_NODE, ADDRESS_CELLS)) == Some(1) && FirstCell(Get(CPUS_NODE, SIZE_CELLS)) == Some(0)
    requires CpusAmong(PSCI_TREE, CPUS_NODE.children, CpuList([], Cold)) == Ok(list) && |list.cpus| == 4
    ensures CollectCpus(PSCI_TREE) == Ok(list)
  {
    hide LookupPath, GetProp, CpusAmong, FirstCell;
  }

  lemma LeafPatches(p: Platform, stack: seq<Context>, n: Node)
    requires |stack| < MAX_PREBOOT_DEPTH && n.children == []
    requires Get(n, POWER_DOMAINS).None? && Get(n, POWER_DOMAIN_NAMES).None? && FirstCell(Get(n, REG)).Some?
    ensures PatchNode(p, stack, n).Ok?
  {
    hide GetProp, ContextOf, Kept, Bytes.Ascii, Bytes.Be64, FirstCell;
  }

  lemma {:induction false} AllPatch(p: Platform, stack: seq<Context>, nodes: seq<Node>)
    requires forall n <- nodes :: PatchNode(p, stack, n).Ok?
    ensures PatchForest(p, stack, nodes).Ok?
    decreases |nodes|
  {
    hide PatchNode;
    if nodes != [] {
      assert nodes[0] in nodes;
      AllPatch(p, stack, nodes[1..]);
    }
  }

  /// A node that is no CPU is patched when its children are.
  lemma InnerPatches(p: Platform, stack: seq<Context>, n: Node)
    requires |stack| < MAX_PREBOOT_DEPTH && NodeContext(stack, n).kind != Cpu
    requires forall c <- n.children :: PatchNode(p, stack + [NodeContext(stack, n)], c).Ok?
    ensures PatchNode(p, stack, n).Ok?
  {
    AllPatch(p, stack + [NodeContext(stack, n)], n.children);
    hide ContextOf, Kept, PatchForest, GetProp;
  }

  lemma CpuLeavesPatch(p: Platform, stack: seq<Context>)
    requires |stack| == 2
    ensures forall c <- CPUS_NODE.children :: PatchNode(p, stack, c).Ok?
  {
    DepthTwo();
    CpuLeaf(0);
    CpuLeaf(1);
    CpuLeaf(2);
    CpuLeaf(3);
    CpuListed();
    hide *;
    LeafPatches(p, stack, CpuNode(0));
    LeafPatches(p, stack, CpuNode(1));
    LeafPatches(p, stack, CpuNode(2));
    LeafPatches(p, stack, CpuNode(3));
  }

  lemma TableLeafPatches(p: Platform, stack: seq<Context>)
    requires |stack| == 2
    ensures forall c <- RESERVED_NODE.children :: PatchNode(p, stack, c).Ok?
  {
    DepthTwo();
    TableLeaf();
    CpuListed();
    hide *;
    LeafPatches(p, stack, TABLE_NODE);
  }

  lemma TreePatched(p: Platform)
    ensures PatchNode(p, [], PSCI_TREE).Ok?
  {
    var root := NodeContext([], PSCI_TREE);
    KindsOfInner(root);
    CpuListed();
    DepthTwo();
    hide *;
    assert [] + [root] == [root];
    CpuLeavesPatch(p, [root] + [NodeContext([root], CPUS_NODE)]);
    TableLeafPatches(p, [root] + [NodeContext([root], RESERVED_NODE)]);
    InnerPatches(p, [root], CPUS_NODE);
    InnerPatches(p, [root], RESERVED_NODE);
    InnerPatches(p, [], PSCI_TREE);
  }

  lemma DepthTwo()
    ensures 2 < MAX_PREBOOT_DEPTH
  {
  }

  lemma CpuListed()
    ensures forall c <- CPUS_NODE.children :: c == CpuNode(0) || c == CpuNode(1) || c == CpuNode(2) || c == CpuNode(3)
    ensures RESERVED_NODE.children == [TABLE_NODE] && PSCI_TREE.children == [CPUS_NODE, RESERVED_NODE]
  {
    hide CpuNode;
  }

  lemma KindsOfInner(root: Context)
    requires root == NodeContext([], PSCI_TREE)
    ensures root.kind != Cpu && NodeContext([root], CPUS_NODE).kind != Cpu && NodeContext([root], RESERVED_NODE).kind != Cpu
  {
    NameLengths();
    hide GetProp, Msm8916.IsPsci, Bytes.Ascii, Bytes.Be32, CpuNode;
  }

  lemma CpuLeaf(id: nat)
    requires id < 4
    ensures
      var n := CpuNode(id);
      n.children == [] && Get(n, POWER_DOMAINS).None? && Get(n, POWER_DOMAIN_NAMES).None? && FirstCell(Get(n, REG)).Some?
  {
    CpuGets(id);
  }

  lemma TableLeaf()
    ensures
      var n := TABLE_NODE;
      n.children == [] && Get(n, POWER_DOMAINS).None? && Get(n, POWER_DOMAIN_NAMES).None? && FirstCell(Get(n, REG)).Some?
  {
    NameLengths();
    NodesGet();
    hide Bytes.Ascii, Bytes.Be64, GetProp;
    GetThree(TABLE_NODE.props[0], TABLE_NODE.props[1], TABLE_NODE.props[2], POWER_DOMAINS);
    GetThree(TABLE_NODE.props[0], TABLE_NODE.props[1], TABLE_NODE.props[2], POWER_DOMAIN_NAMES);
  }

  lemma CpusArePsci()
    ensures !CpusSpared(PSCI_TREE)
  {
    LookUp();
    NodesGet();
    TextsNulFree();
    OneItem(Ascii("arm,psci"), Ascii("arm,psci"));
    hide LookupPath, GetProp, ListHas, Bytes.Ascii, CpuNode, Bytes.Be32;
  }

  /// The tree is accepted and patched, and the patched tree is not accepted.
  lemma ResidentCpusLost(p: Platform)
    requires p.table == TABLE
    ensures FindSpinTable(PSCI_TREE) == Ok(TABLE) && CollectCpus(PSCI_TREE).Ok? && PatchNode(p, [], PSCI_TREE).Ok?
    ensures CollectCpus(PatchNode(p, [], PSCI_TREE).value) == InvalidData
  {
    TableFound();
    CpusAccepted();
    TreePatched(p);
    CpusArePsci();
    hide *;
    ResidentAfterPatch(PSCI_TREE, p);
  }
}
