/// What `reserved_ranges` of `src/kexec.rs`, `mod fdt`, reserves, as a set of addresses: in the names and
/// bytes of the devicetree, without the scanner.
module ReservedMeaning {
  import opened Bytes
  import opened Tree
  import opened Dtb
  import opened Contract
  import opened Reserved
  import opened Nodes
  import opened Ranges

  /// The spellings of an enabled status.
  lemma EnabledSpellings(value: bytes)
    ensures StatusEnabled(value) <==>
      || value == [0x6f, 0x6b]
      || value == [0x6f, 0x6b, 0]
      || value == [0x6f, 0x6b, 0x61, 0x79]
      || value == [0x6f, 0x6b, 0x61, 0x79, 0]
  {
    OkayBytes();
    var last := |value| - 1;
    if |value| > 0 && value[last] == 0 {
      assert value == value[..last] + [0];
    }
    hide Bytes.Ascii;
  }

  lemma OkayBytes()
    ensures Ascii("ok") == [0x6f, 0x6b] && Ascii("okay") == [0x6f, 0x6b, 0x61, 0x79]
  {
  }

  /// A node without a status, or with an enabled one.
  predicate IsEnabled(node: Node) {
    var status := Get(node, Ascii("status"));
    status.Some? ==>
      || status.value == Ascii("ok") || status.value == Ascii("okay")
      || status.value == Ascii("ok") + [0] || status.value == Ascii("okay") + [0]
  }

  lemma EnabledMeaning(node: Node)
    ensures Enabled(node) <==> IsEnabled(node)
  {
    OkayBytes();
    var status := Get(node, Ascii("status"));
    if status.Some? {
      EnabledSpellings(status.value);
    }
    hide Bytes.Ascii, StatusEnabled, GetProp;
  }

  // A `reg` value.

  /// One or two big-endian cells.
  function Cells(reg: bytes, offset: nat, count: nat): nat
    requires 1 <= count <= 2 && offset + 4 * count <= |reg|
  {
    if count == 1 then De32(reg[offset..offset + 4]) else De64(reg[offset..offset + 8])
  }

  /// The tuple at this offset contains the address.
  predicate TupleHolds(reg: bytes, a: u32, z: u32, offset: nat, x: nat) {
    && 1 <= a <= 2 && 1 <= z <= 2 && offset % (4 * a + 4 * z) == 0 && offset + 4 * a + 4 * z <= |reg|
    && Cells(reg, offset, a) <= x < Cells(reg, offset, a) + Cells(reg, offset + 4 * a, z)
  }

  /// Some tuple of the value, of `a` address cells and `z` size cells, contains the address.
  ghost predicate RegHolds(reg: bytes, a: u32, z: u32, x: nat) {
    exists offset: nat :: TupleHolds(reg, a, z, offset, x)
  }

  lemma CellsAhead(reg: bytes, n: nat, offset: nat, count: nat)
    requires 1 <= count <= 2 && n + offset + 4 * count <= |reg|
    ensures Cells(reg[n..], offset, count) == Cells(reg, n + offset, count)
  {
    assert reg[n..][offset..offset + 4 * count] == reg[n + offset..n + offset + 4 * count];
  }

  lemma StepsAhead(offset: nat, n: nat)
    requires n == 8 || n == 12 || n == 16
    ensures offset % n == 0 <==> (n + offset) % n == 0
  {
    if n == 8 {
    } else if n == 12 {
    } else {
    }
  }

  lemma {:induction false} TuplesMeaning(reg: bytes, a: u32, z: u32, x: nat)
    requires 1 <= a <= 2 && 1 <= z <= 2 && Whole(reg, a * 4 + z * 4) && DecodeTuples(reg, a * 4, a * 4 + z * 4).Ok?
    ensures Covers(DecodeTuples(reg, a * 4, a * 4 + z * 4).value, x) <==> RegHolds(reg, a, z, x)
    decreases |reg|
  {
    hide *;
    var n := a * 4 + z * 4;
    if reg == [] {
      NoTupleHolds(a, z, x);
    } else {
      WholeNext(reg, n);
      LaterTuples(reg, a, z, x);
      TuplesStep(reg, a, z, x);
      TuplesMeaning(reg[n..], a, z, x);
    }
  }

  lemma NoTupleHolds(a: u32, z: u32, x: nat)
    requires 1 <= a <= 2 && 1 <= z <= 2
    ensures !RegHolds([], a, z, x)
    ensures Whole([], a * 4 + z * 4) && DecodeTuples([], a * 4, a * 4 + z * 4) == Ok([]) && !Covers([], x)
  {
  }

  lemma FirstTuple(reg: bytes, a: u32, z: u32, x: nat)
    requires 1 <= a <= 2 && 1 <= z <= 2 && |reg| >= a * 4 + z * 4
    ensures DecodeCells(reg[..a * 4]) == Cells(reg, 0, a) && DecodeCells(reg[a * 4..a * 4 + z * 4]) == Cells(reg, a * 4, z)
  {
    assert reg[0..4 * a] == reg[..a * 4];
  }

  lemma LaterTuples(reg: bytes, a: u32, z: u32, x: nat)
    requires 1 <= a <= 2 && 1 <= z <= 2 && |reg| >= a * 4 + z * 4
    ensures RegHolds(reg, a, z, x) <==> TupleHolds(reg, a, z, 0, x) || RegHolds(reg[a * 4 + z * 4..], a, z, x)
  {
    var n := a * 4 + z * 4;
    forall offset: nat ensures TupleHolds(reg[n..], a, z, offset, x) <==> TupleHolds(reg, a, z, n + offset, x) {
      StepsAhead(offset, n);
      if offset + n <= |reg[n..]| {
        CellsAhead(reg, n, offset, a);
        CellsAhead(reg, n, offset + 4 * a, z);
      }
    }
    hide Cells;
    if RegHolds(reg, a, z, x) {
      var offset: nat :| TupleHolds(reg, a, z, offset, x);
      if offset != 0 {
        SmallMultiple(offset, n);
        assert TupleHolds(reg[n..], a, z, offset - n, x);
      }
    }
  }

  lemma SmallMultiple(offset: nat, n: nat)
    requires (n == 8 || n == 12 || n == 16) && offset % n == 0 && offset > 0
    ensures n <= offset
  {
  }

  lemma TuplesStep(reg: bytes, a: u32, z: u32, x: nat)
    requires 1 <= a <= 2 && 1 <= z <= 2 && reg != [] && Whole(reg, a * 4 + z * 4) && |reg| >= a * 4 + z * 4
    requires DecodeTuples(reg, a * 4, a * 4 + z * 4).Ok? && Whole(reg[a * 4 + z * 4..], a * 4 + z * 4)
    ensures
      var rest := DecodeTuples(reg[a * 4 + z * 4..], a * 4, a * 4 + z * 4);
      && rest.Ok?
      && (Covers(DecodeTuples(reg, a * 4, a * 4 + z * 4).value, x) <==> TupleHolds(reg, a, z, 0, x) || Covers(rest.value, x))
  {
    var n := a * 4 + z * 4;
    FirstTuple(reg, a, z, x);
    hide Cells, DecodeCells;
    var rest := DecodeTuples(reg[n..], a * 4, n).value;
    var address, size := Cells(reg, 0, a), Cells(reg, a * 4, z);
    if size != 0 {
      CoversConcat([Range(address, address + size)], rest, x);
      CoversOne(Range(address, address + size), x);
    }
  }

  /// The tuple at this offset is not empty and ends beyond 64 bits.
  predicate TupleOverflows(reg: bytes, a: u32, z: u32, offset: nat) {
    && 1 <= a <= 2 && 1 <= z <= 2 && offset % (4 * a + 4 * z) == 0 && offset + 4 * a + 4 * z <= |reg|
    && Cells(reg, offset + 4 * a, z) != 0
    && Cells(reg, offset, a) + Cells(reg, offset + 4 * a, z) >= 0x1_0000_0000_0000_0000
  }

  ghost predicate NoneOverflows(reg: bytes, a: u32, z: u32) { forall offset: nat :: !TupleOverflows(reg, a, z, offset) }

  /// Values that are read: whole tuples of one or two cells each, none of which overflows.
  ghost predicate GoodReg(reg: bytes, a: u32, z: u32) {
    1 <= a <= 2 && 1 <= z <= 2 && |reg| % (4 * a + 4 * z) == 0 && NoneOverflows(reg, a, z)
  }

  lemma LaterOverflows(reg: bytes, a: u32, z: u32)
    requires 1 <= a <= 2 && 1 <= z <= 2 && |reg| >= a * 4 + z * 4
    ensures NoneOverflows(reg, a, z) <==> !TupleOverflows(reg, a, z, 0) && NoneOverflows(reg[a * 4 + z * 4..], a, z)
  {
    var n := a * 4 + z * 4;
    forall offset: nat ensures TupleOverflows(reg[n..], a, z, offset) <==> TupleOverflows(reg, a, z, n + offset) {
      StepsAhead(offset, n);
      if offset + n <= |reg[n..]| {
        CellsAhead(reg, n, offset, a);
        CellsAhead(reg, n, offset + 4 * a, z);
      }
    }
    hide Cells;
    if offset: nat :| TupleOverflows(reg, a, z, offset) && offset != 0 {
      SmallMultiple(offset, n);
      assert TupleOverflows(reg[n..], a, z, offset - n);
    }
  }

  lemma {:induction false} TuplesReturn(reg: bytes, a: u32, z: u32)
    requires 1 <= a <= 2 && 1 <= z <= 2 && Whole(reg, a * 4 + z * 4)
    ensures DecodeTuples(reg, a * 4, a * 4 + z * 4).Ok? <==> NoneOverflows(reg, a, z)
    decreases |reg|
  {
    var n := a * 4 + z * 4;
    if reg != [] {
      WholeNext(reg, n);
      FirstTuple(reg, a, z, 0);
      LaterOverflows(reg, a, z);
      ReturnsStep(reg, a, z);
      hide *;
      TuplesReturn(reg[n..], a, z);
    }
  }

  lemma ReturnsStep(reg: bytes, a: u32, z: u32)
    requires 1 <= a <= 2 && 1 <= z <= 2 && reg != [] && Whole(reg, a * 4 + z * 4) && |reg| >= a * 4 + z * 4
    requires Whole(reg[a * 4 + z * 4..], a * 4 + z * 4)
    ensures DecodeTuples(reg, a * 4, a * 4 + z * 4).Ok? <==>
      !TupleOverflows(reg, a, z, 0) && DecodeTuples(reg[a * 4 + z * 4..], a * 4, a * 4 + z * 4).Ok?
  {
    FirstTuple(reg, a, z, 0);
    hide Cells, DecodeCells;
  }

  lemma RegMeaning(reg: bytes, a: u32, z: u32)
    ensures DecodeReg(reg, a, z).Ok? <==> GoodReg(reg, a, z)
    ensures DecodeReg(reg, a, z).Ok? ==> forall x: nat :: Covers(DecodeReg(reg, a, z).value, x) <==> RegHolds(reg, a, z, x)
  {
    hide TupleOverflows, RegHolds, DecodeTuples, Covers;
    if 1 <= a <= 2 && 1 <= z <= 2 && Whole(reg, a * 4 + z * 4) {
      TuplesReturn(reg, a, z);
      if DecodeTuples(reg, a * 4, a * 4 + z * 4).Ok? {
        forall x: nat ensures Covers(DecodeReg(reg, a, z).value, x) <==> RegHolds(reg, a, z, x) {
          TuplesMeaning(reg, a, z, x);
        }
      }
    }
  }

  // The tree.

  /// A cell count: the property, which has four bytes, or the default.
  function CountOf(node: Node, name: bytes, default: u32): Option<u32> {
    var value := Get(node, name);
    if value.None? then Some(default) else if |value.value| == 4 then Some(De32(value.value)) else None
  }

  /// The cells of the children of /reserved-memory: its own, or those of the root, or two and one.
  predicate ChildCells(root: Node, reserved: Node, a: u32, z: u32) {
    var rootA, rootZ := CountOf(root, Ascii("#address-cells"), 2), CountOf(root, Ascii("#size-cells"), 1);
    && rootA.Some? && CountOf(reserved, Ascii("#address-cells"), rootA.value) == Some(a)
    && rootZ.Some? && CountOf(reserved, Ascii("#size-cells"), rootZ.value) == Some(z)
  }

  /// An enabled node whose `reg` contains the address.
  ghost predicate NodeHolds(node: Node, a: u32, z: u32, x: nat) {
    IsEnabled(node) && Get(node, Ascii("reg")).Some? && RegHolds(Get(node, Ascii("reg")).value, a, z, x)
  }

  /// The address belongs to an enabled child of /reserved-memory.
  ghost predicate TreeHolds(root: Node, x: nat) {
    var reserved := Child(root, Ascii("reserved-memory"));
    reserved.Some? && exists a: u32, z: u32 ::
      ChildCells(root, reserved.value, a, z) && exists node <- reserved.value.children :: NodeHolds(node, a, z, x)
  }

  lemma ChildMeaning(node: Node, a: u32, z: u32, x: nat)
    requires ChildReserved(node, a, z).Ok?
    ensures Covers(ChildReserved(node, a, z).value, x) <==> NodeHolds(node, a, z, x)
  {
    EnabledMeaning(node);
    var reg := Get(node, Ascii("reg"));
    if reg.Some? {
      RegMeaning(reg.value, a, z);
    }
    hide Bytes.Ascii, GetProp, RegHolds, DecodeReg, IsEnabled, Enabled;
  }

  lemma {:induction false} ForestMeaning(nodes: seq<Node>, a: u32, z: u32, x: nat)
    requires ForestReserved(nodes, a, z).Ok?
    ensures Covers(ForestReserved(nodes, a, z).value, x) <==> exists node <- nodes :: NodeHolds(node, a, z, x)
  {
    hide ChildReserved, NodeHolds;
    if nodes != [] {
      ChildMeaning(nodes[0], a, z, x);
      ForestMeaning(nodes[1..], a, z, x);
      CoversConcat(ChildReserved(nodes[0], a, z).value, ForestReserved(nodes[1..], a, z).value, x);
      hide Covers;
      assert forall node :: node in nodes <==> node == nodes[0] || node in nodes[1..];
    }
  }

  /// What the tree reserves is what its enabled children of /reserved-memory say.
  lemma TreeReservedMeaning(root: Node, x: nat)
    requires TreeReserved(root).Ok?
    ensures Covers(TreeReserved(root).value, x) <==> TreeHolds(root, x)
  {
    hide GetProp, Covers, Child, NodeHolds, ForestReserved, Bytes.Ascii, Bytes.De32;
    var rootA, rootZ := NodeCells(root, PROP_ADDRESS_CELLS, 2).value, NodeCells(root, PROP_SIZE_CELLS, 1).value;
    var reserved := Child(root, RESERVED_MEMORY);
    if reserved.Some? {
      var a := NodeCells(reserved.value, PROP_ADDRESS_CELLS, rootA).value;
      var z := NodeCells(reserved.value, PROP_SIZE_CELLS, rootZ).value;
      ForestMeaning(reserved.value.children, a, z, x);
      assert ChildCells(root, reserved.value, a, z);
    } else {
      NothingCovered(x);
    }
  }

  lemma NothingCovered(x: nat)
    ensures !Covers([], x)
  {
  }

  /// When the tree is read: the counts are cells, and every enabled child's `reg` is good.
  ghost predicate GoodReserved(root: Node) {
    && CountOf(root, Ascii("#address-cells"), 2).Some? && CountOf(root, Ascii("#size-cells"), 1).Some?
    && var reserved := Child(root, Ascii("reserved-memory"));
    reserved.Some? ==> exists a: u32, z: u32 ::
      ChildCells(root, reserved.value, a, z) && forall node <- reserved.value.children :: GoodChild(node, a, z)
  }

  ghost predicate GoodChild(node: Node, a: u32, z: u32) {
    IsEnabled(node) && Get(node, Ascii("reg")).Some? ==> GoodReg(Get(node, Ascii("reg")).value, a, z)
  }

  lemma {:induction false} ForestReturns(nodes: seq<Node>, a: u32, z: u32)
    ensures ForestReserved(nodes, a, z).Ok? <==> forall node <- nodes :: GoodChild(node, a, z)
  {
    hide ChildReserved, GoodChild;
    if nodes != [] {
      ChildReturns(nodes[0], a, z);
      ForestReturns(nodes[1..], a, z);
      assert forall node :: node in nodes <==> node == nodes[0] || node in nodes[1..];
    }
  }

  lemma ChildReturns(node: Node, a: u32, z: u32)
    ensures ChildReserved(node, a, z).Ok? <==> GoodChild(node, a, z)
  {
    EnabledMeaning(node);
    var reg := Get(node, Ascii("reg"));
    if reg.Some? {
      RegMeaning(reg.value, a, z);
    }
    hide Bytes.Ascii, GetProp, GoodReg, DecodeReg, IsEnabled, Enabled;
  }

  lemma TreeReturns(root: Node)
    ensures TreeReserved(root).Ok? <==> GoodReserved(root)
  {
    hide GetProp, Child, GoodChild, ForestReserved, Bytes.Ascii, Bytes.De32;
    var rootA, rootZ := NodeCells(root, PROP_ADDRESS_CELLS, 2), NodeCells(root, PROP_SIZE_CELLS, 1);
    var reserved := Child(root, RESERVED_MEMORY);
    if rootA.Ok? && rootZ.Ok? && reserved.Some? {
      var a := NodeCells(reserved.value, PROP_ADDRESS_CELLS, rootA.value);
      var z := NodeCells(reserved.value, PROP_SIZE_CELLS, rootZ.value);
      if a.Ok? && z.Ok? {
        ForestReturns(reserved.value.children, a.value, z.value);
        assert ChildCells(root, reserved.value, a.value, z.value);
      }
    }
  }

  // The memory reservation block.

  /// The address and the size of an entry.
  function EntryStart(dtb: bytes, offset: nat): u64
    requires offset + 16 <= |dtb|
  {
    De64(dtb[offset..offset + 8])
  }

  function EntrySize(dtb: bytes, offset: nat): u64
    requires offset + 16 <= |dtb|
  {
    De64(dtb[offset + 8..offset + 16])
  }

  /// There is a `k`th entry in front of the terminator, which is the first with address and size zero.
  predicate IsEntry(dtb: bytes, start: nat, total: nat, k: nat) {
    && start + 16 * k + 16 <= total <= |dtb|
    && forall j: nat :: j <= k ==> EntryStart(dtb, start + 16 * j) != 0 || EntrySize(dtb, start + 16 * j) != 0
  }

  predicate EntryHolds(dtb: bytes, start: nat, total: nat, k: nat, x: nat) {
    && IsEntry(dtb, start, total, k)
    && EntryStart(dtb, start + 16 * k) <= x < EntryStart(dtb, start + 16 * k) + EntrySize(dtb, start + 16 * k)
  }

  /// Some entry contains the address.
  ghost predicate MapHolds(dtb: bytes, start: nat, total: nat, x: nat) {
    exists k: nat :: EntryHolds(dtb, start, total, k, x)
  }

  lemma LaterEntry(dtb: bytes, start: nat, total: nat, k: nat)
    requires start + 16 <= total <= |dtb| && (EntryStart(dtb, start) != 0 || EntrySize(dtb, start) != 0)
    ensures IsEntry(dtb, start, total, k + 1) <==> IsEntry(dtb, start + 16, total, k)
  {
    hide EntryStart, EntrySize;
    if IsEntry(dtb, start, total, k + 1) {
      forall j: nat | j <= k ensures EntryStart(dtb, start + 16 + 16 * j) != 0 || EntrySize(dtb, start + 16 + 16 * j) != 0 {
        assert start + 16 * (j + 1) == start + 16 + 16 * j;
      }
    }
    if IsEntry(dtb, start + 16, total, k) {
      forall j: nat | j <= k + 1 ensures EntryStart(dtb, start + 16 * j) != 0 || EntrySize(dtb, start + 16 * j) != 0 {
        if j > 0 {
          assert start + 16 * j == start + 16 + 16 * (j - 1);
        }
      }
    }
  }

  lemma LaterHolds(dtb: bytes, start: nat, total: nat, x: nat)
    requires start + 16 <= total <= |dtb| && (EntryStart(dtb, start) != 0 || EntrySize(dtb, start) != 0)
    ensures MapHolds(dtb, start, total, x) <==>
      (EntryStart(dtb, start) <= x < EntryStart(dtb, start) + EntrySize(dtb, start)) || MapHolds(dtb, start + 16, total, x)
  {
    hide EntryStart, EntrySize, IsEntry;
    assert IsEntry(dtb, start, total, 0) by { FirstEntry(dtb, start, total); }
    assert EntryStart(dtb, start) <= x < EntryStart(dtb, start) + EntrySize(dtb, start) <==> EntryHolds(dtb, start, total, 0, x);
    if MapHolds(dtb, start, total, x) {
      var k: nat :| EntryHolds(dtb, start, total, k, x);
      if k > 0 {
        NextHolds(dtb, start, total, k - 1, x);
      }
    }
    if MapHolds(dtb, start + 16, total, x) {
      var k: nat :| EntryHolds(dtb, start + 16, total, k, x);
      NextHolds(dtb, start, total, k, x);
    }
  }

  lemma NextHolds(dtb: bytes, start: nat, total: nat, k: nat, x: nat)
    requires start + 16 <= total <= |dtb| && (EntryStart(dtb, start) != 0 || EntrySize(dtb, start) != 0)
    ensures EntryHolds(dtb, start, total, k + 1, x) <==> EntryHolds(dtb, start + 16, total, k, x)
  {
    hide EntryStart, EntrySize, IsEntry;
    LaterEntry(dtb, start, total, k);
    assert start + 16 * (k + 1) == start + 16 + 16 * k;
  }

  lemma HeadIsEntry(dtb: bytes, start: nat, total: nat, k: nat)
    requires IsEntry(dtb, start, total, k)
    ensures EntryStart(dtb, start) != 0 || EntrySize(dtb, start) != 0
  {
    hide EntryStart, EntrySize;
    assert EntryStart(dtb, start + 16 * 0) != 0 || EntrySize(dtb, start + 16 * 0) != 0;
  }

  lemma FirstEntry(dtb: bytes, start: nat, total: nat)
    requires start + 16 <= total <= |dtb| && (EntryStart(dtb, start) != 0 || EntrySize(dtb, start) != 0)
    ensures IsEntry(dtb, start, total, 0)
  {
    hide EntryStart, EntrySize;
    forall j: nat | j <= 0 ensures EntryStart(dtb, start + 16 * j) != 0 || EntrySize(dtb, start + 16 * j) != 0 {
      assert j == 0;
    }
  }

  lemma {:induction false} MapMeaning(dtb: bytes, total: nat, start: nat, x: nat)
    requires total <= |dtb| && MapRanges(dtb, total, start).Ok?
    ensures Covers(MapRanges(dtb, total, start).value, x) <==> MapHolds(dtb, start, total, x)
    decreases total - start
  {
    hide Bytes.De64, Covers;
    var address, size := EntryStart(dtb, start), EntrySize(dtb, start);
    if address == 0 && size == 0 {
      NothingCovered(x);
      forall k: nat ensures !EntryHolds(dtb, start, total, k, x) {
        if IsEntry(dtb, start, total, k) {
          HeadIsEntry(dtb, start, total, k);
        }
      }
    } else {
      MapMeaning(dtb, total, start + 16, x);
      LaterHolds(dtb, start, total, x);
      if size != 0 {
        CoversConcat([Range(address, address + size)], MapRanges(dtb, total, start + 16).value, x);
        CoversOne(Range(address, address + size), x);
      }
    }
  }

  /// The address is reserved by the blob: by an entry of the map at the offset in the header, or by the tree.
  ghost predicate BlobHolds(dtb: bytes, x: nat)
    requires ContractTree(dtb).Ok? && |dtb| >= 40
  {
    MapHolds(dtb, De32(dtb[16..20]), De32(dtb[4..8]), x) || TreeHolds(ContractTree(dtb).value, x)
  }

  /// `reserved_ranges` covers exactly the addresses that the blob reserves.
  lemma ReservedRangesMeaning(dtb: bytes, x: nat)
    requires ContractTree(dtb).Ok? && ReservedRanges(dtb).Ok?
    ensures |dtb| >= 40
    ensures Covers(ReservedRanges(dtb).value, x) <==> BlobHolds(dtb, x)
  {
    var t := ContractTree(dtb).value;
    ReservedRangesAreTree(dtb);
    HeaderOffsets(dtb);
    hide ReservedRanges, TreeReserved, ContractTree, MapRanges, ParseHeader, Covers, MapHolds, TreeHolds, Bytes.De32;
    TreeReservedMeaning(t, x);
    var total, start := De32(dtb[4..8]), De32(dtb[16..20]);
    MapMeaning(dtb, total, start, x);
    CoversConcat(MapRanges(dtb, total, start).value, TreeReserved(t).value, x);
  }

  lemma HeaderOffsets(dtb: bytes)
    requires ParseHeader(dtb).Ok?
    ensures |dtb| >= 40
    ensures ParseHeader(dtb).value.totalsize == De32(dtb[4..8]) && ParseHeader(dtb).value.offMemRsvmap == De32(dtb[16..20])
  {
    hide Bytes.De32;
  }

  // A node that is enabled in so many words.

  const OKAY_NODE: Node :=
    Node([0x72], [Property(Ascii("reg"), Be64(0x8600_0000) + Be32(0x1000)), Property(Ascii("status"), [0x6f, 0x6b, 0x61, 0x79, 0])], [])

  const OKAY_TREE: Node := Node([], [], [Node(Ascii("reserved-memory"), [], [OKAY_NODE])])

  /// The page of a node with status "okay" is reserved, and nothing else.
  lemma OkayReserved(x: nat)
    ensures TreeReserved(OKAY_TREE) == Ok([Range(0x8600_0000, 0x8600_1000)])
    ensures TreeHolds(OKAY_TREE, x) <==> 0x8600_0000 <= x < 0x8600_1000
  {
    OkayNodeReserved();
    assert TreeReserved(OKAY_TREE) == Ok([Range(0x8600_0000, 0x8600_1000)]) by {
      hide ChildReserved, Bytes.Ascii;
      OneReserved(OKAY_NODE, 2, 1);
    }
    hide *;
    TreeReservedMeaning(OKAY_TREE, x);
    CoversOne(Range(0x8600_0000, 0x8600_1000), x);
    PageHas(x);
  }

  lemma PageHas(x: nat)
    ensures Contains(Range(0x8600_0000, 0x8600_1000), x) <==> 0x8600_0000 <= x < 0x8600_1000
  {
  }

  lemma OneReserved(node: Node, a: u32, z: u32)
    requires ChildReserved(node, a, z).Ok?
    ensures ForestReserved([node], a, z) == ChildReserved(node, a, z)
  {
    hide ChildReserved;
    var found, none := ChildReserved(node, a, z).value, ForestReserved([], a, z);
    assert [node][1..] == [] && none == Ok([]) && found + [] == found;
  }

  lemma OkayNodeReserved()
    ensures ChildReserved(OKAY_NODE, 2, 1) == Ok([Range(0x8600_0000, 0x8600_1000)])
  {
    var reg := Be64(0x8600_0000) + Be32(0x1000);
    assert |Ascii("reg")| == 3 && |Ascii("status")| == 6;
    De64Be64(0x8600_0000);
    De32Be32(0x1000);
    OkayBytes();
    EnabledMeaning(OKAY_NODE);
    var p := OKAY_NODE.props;
    assert p == [p[0]] + [p[1]];
    GetCons(p[0], [p[1]], Ascii("reg"));
    GetCons(p[0], [p[1]], Ascii("status"));
    GetOne(p[1], Ascii("status"));
    assert Get(OKAY_NODE, Ascii("reg")) == Some(reg);
    assert Get(OKAY_NODE, Ascii("status")) == Some([0x6f, 0x6b, 0x61, 0x79, 0]);
    hide Bytes.Be64, Bytes.Be32, Bytes.De64, Bytes.De32, Bytes.Ascii, GetProp, Enabled;
    assert reg[..8] == Be64(0x8600_0000) && reg[8..12] == Be32(0x1000) && reg[12..] == [];
    assert DecodeTuples([], 8, 12) == Ok([]);
    var none: seq<Range> := [];
    assert [Range(0x8600_0000, 0x8600_1000)] + none == [Range(0x8600_0000, 0x8600_1000)];
  }
}
