/// `load` of `src/kexec.rs`, `mod arm64`: where the kernel, the initrd, the devicetree and the
/// trampoline go. Every io error is the one `InvalidData`.
module Arm64 {
  import opened Bytes
  import opened Tree
  import opened Dtb
  import opened Contract
  import opened Reserved
  import opened Chosen
  import opened Ranges
  import opened Placement

  const PAGE_SIZE: u64 := 0x1000
  const SZ_2M: u64 := 0x20_0000
  const SZ_16M: u64 := 0x100_0000
  const SZ_1G: u64 := 0x4000_0000
  const SZ_32G: u64 := 0x8_0000_0000
  const U64_MAX: u64 := U64_LIMIT - 1
  const MAX_DTB_SIZE := 0x20_0000
  const ARM64_IMAGE_MAGIC: u32 := 0x644d5241
  const KEXEC_SEGMENT_MAX := 16

  // Checked arithmetic.

  function CheckedAdd(x: u64, y: u64): Result<u64> {
    if x + y >= U64_LIMIT then InvalidData else Ok(x + y)
  }

  /// `page_align`.
  function PageAlign(value: u64): (r: Result<u64>)
    ensures r.Ok? ==> value <= r.value < value + PAGE_SIZE && r.value % PAGE_SIZE == 0
  {
    if value + (PAGE_SIZE - 1) >= U64_LIMIT then InvalidData
    else Ok((value + (PAGE_SIZE - 1)) / PAGE_SIZE * PAGE_SIZE)
  }

  /// `align_down` to a gigabyte.
  function AlignDown1G(value: u64): (r: u64)
    ensures r <= value < r + SZ_1G && r % SZ_1G == 0
  {
    value / SZ_1G * SZ_1G
  }

  datatype Image = Image(textOffset: u64, imageSize: u64)

  /// `ImageHeader::parse`.
  function ParseImage(kernel: bytes): Result<Image>
    requires |kernel| < U64_LIMIT
  {
    if |kernel| < 64 then InvalidData
    else if Le32(kernel[56..60]) != ARM64_IMAGE_MAGIC then InvalidData
    else if Le64(kernel[16..24]) == 0 then Ok(Image(0x8_0000, Max(|kernel|, SZ_16M)))
    else Ok(Image(Le64(kernel[8..16]), Le64(kernel[16..24])))
  }

  /// The assembled trampoline and the offsets of its two address slots.
  datatype Trampoline = Trampoline(code: bytes, kernelSlot: nat, dtbSlot: nat)

  function Overwrite(b: bytes, offset: nat, word: bytes): (r: bytes)
    requires offset + |word| <= |b|
    ensures |r| == |b|
  {
    b[..offset] + word + b[offset + |word|..]
  }

  /// `build_trampoline`.
  function BuildTrampoline(t: Trampoline, kernelEntry: u64, dtbAddress: u64): Result<bytes> {
    if t.kernelSlot + 8 > |t.code| || t.dtbSlot + 8 > |t.code| then InvalidData
    else Ok(Overwrite(Overwrite(t.code, t.kernelSlot, ToLe64(kernelEntry)), t.dtbSlot, ToLe64(dtbAddress)))
  }

  /// Both slots read back, and nothing else changes, when they do not overlap.
  lemma TrampolineSlots(t: Trampoline, kernelEntry: u64, dtbAddress: u64)
    requires t.kernelSlot + 8 <= t.dtbSlot && t.dtbSlot + 8 <= |t.code|
    ensures
      var r := BuildTrampoline(t, kernelEntry, dtbAddress);
      && r.Ok? && |r.value| == |t.code|
      && Le64(r.value[t.kernelSlot..t.kernelSlot + 8]) == kernelEntry
      && Le64(r.value[t.dtbSlot..t.dtbSlot + 8]) == dtbAddress
      && r.value[..t.kernelSlot] == t.code[..t.kernelSlot]
      && r.value[t.kernelSlot + 8..t.dtbSlot] == t.code[t.kernelSlot + 8..t.dtbSlot]
      && r.value[t.dtbSlot + 8..] == t.code[t.dtbSlot + 8..]
  {
    hide Le64, ToLe64;
    var k, d := ToLe64(kernelEntry), ToLe64(dtbAddress);
    var r := BuildTrampoline(t, kernelEntry, dtbAddress).value;
    assert r[t.kernelSlot..t.kernelSlot + 8] == k;
    assert r[t.dtbSlot..t.dtbSlot + 8] == d;
    Le64ToLe64(kernelEntry);
    Le64ToLe64(dtbAddress);
  }

  datatype Segment = Segment(data: bytes, phys: u64, memsz: u64)

  /// A segment and the region that it occupies; the kernel's region starts `text_offset` below it.
  datatype Placed = Placed(segment: Segment, region: Range)

  datatype Loaded = Loaded(entry: u64, segments: seq<Segment>)

  // The plan: what `load` does, with the lowest place instead of a search.

  ghost function Place(m: Memory, occupied: seq<Range>, size: u64, align: u64, min: u64, max: u64): (r: Result<u64>)
    ensures r.Ok? ==> size > 0 && MayPlace(m, occupied, size, align, min, max, r.value)
  {
    if size == 0 then InvalidData
    else
      var a := Lowest(m, occupied, size, align, min, max);
      if a.None? then InvalidData else Ok(a.value)
  }

  ghost function PlanKernel(kernel: bytes, m: Memory): Result<Placed>
    requires |kernel| < U64_LIMIT
  {
    var image :- ParseImage(kernel);
    if image.textOffset % PAGE_SIZE != 0 then InvalidData
    else
      var memsz :- PageAlign(Max(image.imageSize, |kernel|));
      var size :- CheckedAdd(image.textOffset, memsz);
      var base :- Place(m, [], size, SZ_2M, 0, U64_MAX);
      Ok(Placed(Segment(kernel, base + image.textOffset, memsz), Range(base, base + size)))
  }

  ghost function PlanBlock(data: bytes, m: Memory, occupied: seq<Range>, align: u64, min: u64, max: u64)
    : (r: Result<Placed>)
    requires |data| < U64_LIMIT
    ensures r.Ok? ==> r.value.segment.data == data && r.value.segment.phys + |data| <= max
  {
    var memsz :- PageAlign(|data|);
    var address :- Place(m, occupied, memsz, align, min, max);
    Ok(Placed(Segment(data, address, memsz), Range(address, address + memsz)))
  }

  function KernelEnd(kernel: Placed): Result<u64> {
    CheckedAdd(kernel.segment.phys, kernel.segment.memsz)
  }

  /// An empty initrd counts as none.
  function GivenInitrd(initrd: Option<bytes>): Option<bytes> {
    if initrd.Some? && initrd.value != [] then initrd else None
  }

  ghost function PlanInitrd(initrd: bytes, m: Memory, kernel: Placed): (r: Result<Placed>)
    requires |initrd| < U64_LIMIT
    ensures r.Ok? ==> r.value.segment.data == initrd && r.value.segment.phys + |initrd| < U64_LIMIT
  {
    var min :- KernelEnd(kernel);
    var max :- CheckedAdd(AlignDown1G(kernel.segment.phys), SZ_32G);
    PlanBlock(initrd, m, [kernel.region], PAGE_SIZE, min, max)
  }

  function InitrdRange(initrd: Placed): Initrd
    requires initrd.segment.phys + |initrd.segment.data| < U64_LIMIT
  {
    Initrd(initrd.segment.phys, initrd.segment.phys + |initrd.segment.data|)
  }

  ghost function PlanRest(m: Memory, before: seq<Placed>, dtb: bytes, cmdline: bytes, initrd: Option<Initrd>, t: Trampoline)
    : Result<Loaded>
    requires before != [] && |cmdline| + 1 < U32_LIMIT && |t.code| < U64_LIMIT
  {
    var kernel := before[0];
    var patched :- PatchedBlob(dtb, cmdline, initrd);
    if |patched| > MAX_DTB_SIZE then InvalidData
    else
      var min :- KernelEnd(kernel);
      var tree :- PlanBlock(patched, m, Regions(before), SZ_2M, min, U64_MAX);
      var code :- BuildTrampoline(t, kernel.segment.phys, tree.segment.phys);
      var tramp :- PlanBlock(code, m, Regions(before + [tree]), PAGE_SIZE, min, U64_MAX);
      if |before| + 2 > KEXEC_SEGMENT_MAX then InvalidData
      else Ok(Loaded(tramp.segment.phys, Segments(before + [tree] + [tramp])))
  }

  function Regions(placed: seq<Placed>): seq<Range> { seq(|placed|, i requires 0 <= i < |placed| => placed[i].region) }

  function Segments(placed: seq<Placed>): seq<Segment> {
    seq(|placed|, i requires 0 <= i < |placed| => placed[i].segment)
  }

  predicate ValidInput(kernel: bytes, initrd: Option<bytes>, cmdline: bytes, lines: seq<Line>, t: Trampoline) {
    && |kernel| < U64_LIMIT && (initrd.Some? ==> |initrd.value| < U64_LIMIT) && |t.code| < U64_LIMIT
    && |cmdline| + 1 < U32_LIMIT
    && ValidLines(lines)
  }

  ghost function Plan(kernel: bytes, initrd: Option<bytes>, dtb: bytes, cmdline: bytes, lines: seq<Line>, t: Trampoline)
    : Result<Loaded>
    requires ValidInput(kernel, initrd, cmdline, lines, t)
  {
    var reserved :- ReservedRanges(dtb);
    var m := Memory(lines, reserved);
    var placed :- PlanKernel(kernel, m);
    if GivenInitrd(initrd).Some? then
      var ramdisk :- PlanInitrd(initrd.value, m, placed);
      PlanRest(m, [placed, ramdisk], dtb, cmdline, Some(InitrdRange(ramdisk)), t)
    else PlanRest(m, [placed], dtb, cmdline, None, t)
  }

  // What every plan keeps.

  ghost predicate Good(p: Placed, m: Memory) {
    && p.segment.phys % PAGE_SIZE == 0 && p.segment.memsz % PAGE_SIZE == 0
    && |p.segment.data| <= p.segment.memsz && 0 < p.segment.memsz
    && p.region.start <= p.segment.phys && p.segment.phys + p.segment.memsz == p.region.end
    && FreeBlock(m, p.region.start, p.region.end - p.region.start)
  }

  predicate Apart(regions: seq<Range>) {
    forall i, j :: 0 <= i < j < |regions| ==> !Overlap(regions[i], regions[j])
  }

  predicate Follows(p: Placed, kernel: Placed) {
    kernel.segment.phys + kernel.segment.memsz <= p.segment.phys
  }

  lemma MultipleOfPage(a: nat, align: u64)
    requires Multiple(a, align) && (align == PAGE_SIZE || align == SZ_2M)
    ensures a % align == 0 && a % PAGE_SIZE == 0
  {
    var k: nat :| a == k * align;
    if align == PAGE_SIZE {
      assert a == k * PAGE_SIZE;
    } else {
      assert a == k * SZ_2M;
    }
  }

  lemma ApartOneMore(regions: seq<Range>, a: nat, size: nat)
    requires Apart(regions) && !Conflicts(regions, a, size)
    ensures Apart(regions + [Range(a, a + size)])
  {
    var all := regions + [Range(a, a + size)];
    forall i, j | 0 <= i < j < |all| ensures !Overlap(all[i], all[j]) {
      if j == |regions| {
        assert all[i] in regions;
      }
    }
  }

  lemma ParsedNonempty(kernel: bytes)
    requires |kernel| < U64_LIMIT && ParseImage(kernel).Ok?
    ensures |kernel| > 0
  {
  }

  lemma KernelIsGood(kernel: bytes, m: Memory)
    requires |kernel| < U64_LIMIT && PlanKernel(kernel, m).Ok?
    ensures
      var p := PlanKernel(kernel, m).value;
      && Good(p, m) && p.segment.data == kernel
      && ParseImage(kernel).Ok?
      && p.region.start % SZ_2M == 0
      && p.segment.phys == p.region.start + ParseImage(kernel).value.textOffset
      && p.segment.memsz >= ParseImage(kernel).value.imageSize
  {
    hide ParseImage, Multiple, FreeBlock, Conflicts, Place;
    ParsedNonempty(kernel);
    var image := ParseImage(kernel).value;
    var base := PlanKernel(kernel, m).value.region.start;
    MultipleOfPage(base, SZ_2M);
  }

  lemma BlockIsGood(data: bytes, m: Memory, occupied: seq<Range>, align: u64, min: u64, max: u64)
    requires |data| < U64_LIMIT && (align == PAGE_SIZE || align == SZ_2M)
    requires PlanBlock(data, m, occupied, align, min, max).Ok? && Apart(occupied)
    ensures
      var p := PlanBlock(data, m, occupied, align, min, max).value;
      && Good(p, m) && p.segment.data == data
      && p.segment.phys % align == 0 && min <= p.segment.phys && p.region.end <= max
      && Apart(occupied + [p.region])
      && p.segment.memsz < |data| + PAGE_SIZE && p.segment.memsz % PAGE_SIZE == 0
  {
    hide Multiple, FreeBlock, Conflicts;
    var p := PlanBlock(data, m, occupied, align, min, max).value;
    MultipleOfPage(p.segment.phys, align);
    ApartOneMore(occupied, p.segment.phys, p.segment.memsz);
  }

  lemma RegionsOneMore(before: seq<Placed>, p: Placed)
    ensures Regions(before + [p]) == Regions(before) + [p.region]
    ensures Segments(before + [p]) == Segments(before) + [p.segment]
  {
  }

  ghost predicate AllGood(placed: seq<Placed>, m: Memory) {
    && (forall p <- placed :: Good(p, m))
    && Apart(Regions(placed))
    && (forall i :: 0 < i < |placed| ==> Follows(placed[i], placed[0]))
  }

  lemma AllGoodOneMore(before: seq<Placed>, p: Placed, m: Memory)
    requires AllGood(before, m) && Good(p, m) && before != [] && Follows(p, before[0])
    requires Apart(Regions(before) + [p.region])
    ensures AllGood(before + [p], m)
  {
    hide Good, Apart;
    RegionsOneMore(before, p);
  }

  /// The devicetree and the trampoline after what has been placed.
  lemma RestIsGood(m: Memory, before: seq<Placed>, dtb: bytes, cmdline: bytes, initrd: Option<Initrd>, t: Trampoline)
    returns (tree: Placed, tramp: Placed)
    requires before != [] && |cmdline| + 1 < U32_LIMIT && |t.code| < U64_LIMIT
    requires AllGood(before, m) && PlanRest(m, before, dtb, cmdline, initrd, t).Ok?
    ensures AllGood(before + [tree] + [tramp], m)
    ensures PatchedBlob(dtb, cmdline, initrd) == Ok(tree.segment.data)
    ensures tree.segment.phys % SZ_2M == 0 && tree.segment.memsz <= SZ_2M
    ensures BuildTrampoline(t, before[0].segment.phys, tree.segment.phys) == Ok(tramp.segment.data)
    ensures PlanRest(m, before, dtb, cmdline, initrd, t)
      == Ok(Loaded(tramp.segment.phys, Segments(before + [tree] + [tramp])))
  {
    hide PlanBlock, PatchedBlob, BuildTrampoline, Good, Apart, AllGood, Regions, Segments;
    var kernel := before[0];
    var patched := PatchedBlob(dtb, cmdline, initrd).value;
    var min := KernelEnd(kernel).value;
    assert Apart(Regions(before)) by { ApartOf(before, m); }
    tree := PlanBlock(patched, m, Regions(before), SZ_2M, min, U64_MAX).value;
    BlockIsGood(patched, m, Regions(before), SZ_2M, min, U64_MAX);
    AllGoodOneMore(before, tree, m);
    PageBound(tree.segment.memsz, |patched|);
    var code := BuildTrampoline(t, kernel.segment.phys, tree.segment.phys).value;
    var both := before + [tree];
    assert Apart(Regions(both)) by { ApartOf(both, m); }
    tramp := PlanBlock(code, m, Regions(both), PAGE_SIZE, min, U64_MAX).value;
    BlockIsGood(code, m, Regions(both), PAGE_SIZE, min, U64_MAX);
    AllGoodOneMore(both, tramp, m);
  }

  lemma ApartOf(placed: seq<Placed>, m: Memory)
    requires AllGood(placed, m)
    ensures Apart(Regions(placed))
  {
  }

  lemma PageBound(memsz: nat, length: nat)
    requires length <= MAX_DTB_SIZE && memsz < length + PAGE_SIZE && memsz % PAGE_SIZE == 0
    ensures memsz <= SZ_2M
  {
  }

  // The safety of a plan.

  ghost predicate InFreeMemory(s: Segment, m: Memory) {
    forall x: nat :: s.phys <= x < s.phys + s.memsz ==> Free(m, x)
  }

  predicate WholePages(s: Segment) {
    s.phys % PAGE_SIZE == 0 && s.memsz % PAGE_SIZE == 0 && |s.data| <= s.memsz && 0 < s.memsz
  }

  predicate Disjoint(x: Segment, y: Segment) {
    x.phys + x.memsz <= y.phys || y.phys + y.memsz <= x.phys
  }

  ghost predicate Safe(segments: seq<Segment>, m: Memory) {
    && (forall s <- segments :: WholePages(s) && InFreeMemory(s, m))
    && (forall i, j :: 0 <= i < j < |segments| ==> Disjoint(segments[i], segments[j]))
  }

  lemma GoodInFreeMemory(p: Placed, m: Memory)
    requires Good(p, m)
    ensures WholePages(p.segment) && InFreeMemory(p.segment, m)
  {
    hide Free;
  }

  lemma AllGoodIsSafe(placed: seq<Placed>, m: Memory)
    requires AllGood(placed, m)
    ensures Safe(Segments(placed), m)
  {
    hide InFreeMemory, FreeBlock;
    var segments := Segments(placed);
    forall s <- segments ensures WholePages(s) && InFreeMemory(s, m) {
      var i :| 0 <= i < |placed| && segments[i] == s;
      GoodInFreeMemory(placed[i], m);
    }
    forall i, j | 0 <= i < j < |segments| ensures Disjoint(segments[i], segments[j]) {
      assert Good(placed[i], m) && Good(placed[j], m);
      assert !Overlap(Regions(placed)[i], Regions(placed)[j]);
    }
  }

  /// What the boot protocol asks of the placement: the kernel at its offset from a 2 MiB boundary,
  /// the initrd above it and in the 32 GiB window, the devicetree in one 2 MiB block, and a
  /// trampoline that holds the two addresses.
  predicate Bootable(l: Loaded, kernel: bytes, initrd: Option<bytes>, dtb: bytes, cmdline: bytes, t: Trampoline)
    requires |kernel| < U64_LIMIT && |cmdline| + 1 < U32_LIMIT
  {
    var n := if initrd.Some? then 4 else 3;
    && |l.segments| == n
    && var image, k, tree, tramp := ParseImage(kernel), l.segments[0], l.segments[n - 2], l.segments[n - 1];
    && image.Ok? && k.data == kernel && k.memsz >= image.value.imageSize
    && k.phys >= image.value.textOffset && (k.phys - image.value.textOffset) % SZ_2M == 0
    && (forall i :: 0 < i < n ==> k.phys + k.memsz <= l.segments[i].phys)
    && (initrd.Some? ==>
          && l.segments[1].data == initrd.value
          && l.segments[1].phys + l.segments[1].memsz <= AlignDown1G(k.phys) + SZ_32G
          && l.segments[1].phys + |initrd.value| < U64_LIMIT)
    && (var range := if initrd.Some? then Some(Initrd(l.segments[1].phys, l.segments[1].phys + |initrd.value|)) else None;
        PatchedBlob(dtb, cmdline, range) == Ok(tree.data))
    && tree.phys % SZ_2M == 0 && tree.memsz <= SZ_2M
    && BuildTrampoline(t, k.phys, tree.phys) == Ok(tramp.data) && l.entry == tramp.phys
  }

  lemma KernelAlone(p: Placed, m: Memory)
    requires Good(p, m)
    ensures AllGood([p], m)
  {
    hide Good;
  }

  lemma PlanIsSafe(kernel: bytes, initrd: Option<bytes>, dtb: bytes, cmdline: bytes, lines: seq<Line>, t: Trampoline)
    requires ValidInput(kernel, initrd, cmdline, lines, t)
    requires Plan(kernel, initrd, dtb, cmdline, lines, t).Ok?
    ensures ReservedRanges(dtb).Ok?
    ensures
      var l := Plan(kernel, initrd, dtb, cmdline, lines, t).value;
      && Safe(l.segments, Memory(lines, ReservedRanges(dtb).value))
      && Bootable(l, kernel, GivenInitrd(initrd), dtb, cmdline, t)
  {
    hide PlanKernel, PlanInitrd, PlanRest, Good, AllGood, Safe, ParseImage, PatchedBlob, BuildTrampoline, ReservedRanges,
      AlignDown1G;
    var m := Memory(lines, ReservedRanges(dtb).value);
    var k := PlanKernel(kernel, m).value;
    KernelIsGood(kernel, m);
    KernelAlone(k, m);
    if GivenInitrd(initrd).Some? {
      var ramdisk := PlanInitrd(initrd.value, m, k).value;
      InitrdIsGood(initrd.value, m, k);
      var tree, tramp := RestIsGood(m, [k, ramdisk], dtb, cmdline, Some(InitrdRange(ramdisk)), t);
      FinishPlan([k, ramdisk], tree, tramp, m);
    } else {
      var tree, tramp := RestIsGood(m, [k], dtb, cmdline, None, t);
      FinishPlan([k], tree, tramp, m);
    }
  }

  lemma FinishPlan(before: seq<Placed>, tree: Placed, tramp: Placed, m: Memory)
    requires before != [] && AllGood(before + [tree] + [tramp], m)
    ensures Safe(Segments(before + [tree] + [tramp]), m)
    ensures
      var segments := Segments(before + [tree] + [tramp]);
      forall i :: 0 < i < |segments| ==> segments[0].phys + segments[0].memsz <= segments[i].phys
  {
    hide Safe;
    AllGoodIsSafe(before + [tree] + [tramp], m);
  }

  lemma InitrdIsGood(initrd: bytes, m: Memory, kernel: Placed)
    requires |initrd| < U64_LIMIT && PlanInitrd(initrd, m, kernel).Ok? && AllGood([kernel], m)
    ensures
      var p := PlanInitrd(initrd, m, kernel).value;
      && AllGood([kernel, p], m) && p.segment.data == initrd
      && p.segment.phys + p.segment.memsz <= AlignDown1G(kernel.segment.phys) + SZ_32G
      && p.segment.phys + |initrd| < U64_LIMIT
  {
    hide PlanBlock, AllGood, AlignDown1G;
    var p := PlanInitrd(initrd, m, kernel).value;
    var min, max := KernelEnd(kernel).value, CheckedAdd(AlignDown1G(kernel.segment.phys), SZ_32G).value;
    ApartOf([kernel], m);
    assert Regions([kernel]) == [kernel.region];
    BlockIsGood(initrd, m, [kernel.region], PAGE_SIZE, min, max);
    AllGoodOneMore([kernel], p, m);
    assert [kernel] + [p] == [kernel, p];
  }

  /// No segment of a plan overwrites what the destination devicetree reserves, in the memory
  /// reservation block or in the /reserved-memory subtree; the devicetree that the new kernel
  /// finds differs from the given one in /chosen only and reserves the same ranges.
  lemma PlanKeepsReserved(kernel: bytes, initrd: Option<bytes>, dtb: bytes, cmdline: bytes, lines: seq<Line>, t: Trampoline)
    requires ValidInput(kernel, initrd, cmdline, lines, t)
    requires Plan(kernel, initrd, dtb, cmdline, lines, t).Ok? && ContractTree(dtb).Ok?
    ensures ReserveMapRanges(dtb).Ok? && TreeReserved(ContractTree(dtb).value).Ok?
    ensures
      var l := Plan(kernel, initrd, dtb, cmdline, lines, t).value;
      && (forall s <- l.segments, x: nat :: s.phys <= x < s.phys + s.memsz ==>
            && Usable(lines, x)
            && !Covers(ReserveMapRanges(dtb).value, x)
            && !Covers(TreeReserved(ContractTree(dtb).value).value, x))
      && |l.segments| >= 3
      && var final := l.segments[|l.segments| - 2].data;
      && ReservedRanges(final) == ReservedRanges(dtb)
      && exists range ::
           && ContractTree(final) == Ok(PatchTree(ContractTree(dtb).value, ChosenProperties(cmdline, range)))
           && (range.Some? <==> GivenInitrd(initrd).Some?)
           && (range.Some? ==> range.value.start == l.segments[1].phys
                               && range.value.end == l.segments[1].phys + |initrd.value|)
  {
    hide Plan, Bootable, Safe, ReservedRanges, TreeReserved, ReserveMapRanges, ContractTree, PatchTree,
      ChosenProperties, PatchedBlob, Covers, Usable;
    PlanIsSafe(kernel, initrd, dtb, cmdline, lines, t);
    ReservedRangesAreTree(dtb);
    var l := Plan(kernel, initrd, dtb, cmdline, lines, t).value;
    var mapped, found := ReserveMapRanges(dtb).value, TreeReserved(ContractTree(dtb).value).value;
    SafeKeeps(l.segments, lines, mapped, found);
    var range := BootsPatched(l, kernel, GivenInitrd(initrd), dtb, cmdline, t);
    PatchChosenMeaning(dtb, cmdline, range);
  }

  lemma SafeKeeps(segments: seq<Segment>, lines: seq<Line>, mapped: seq<Range>, found: seq<Range>)
    requires Safe(segments, Memory(lines, mapped + found))
    ensures forall s <- segments, x: nat :: s.phys <= x < s.phys + s.memsz ==>
              Usable(lines, x) && !Covers(mapped, x) && !Covers(found, x)
  {
    hide Usable, Covers;
    forall s <- segments, x: nat | s.phys <= x < s.phys + s.memsz
      ensures Usable(lines, x) && !Covers(mapped, x) && !Covers(found, x)
    {
      assert InFreeMemory(s, Memory(lines, mapped + found));
      assert Free(Memory(lines, mapped + found), x);
      CoversConcat(mapped, found, x);
    }
  }

  lemma BootsPatched(l: Loaded, kernel: bytes, initrd: Option<bytes>, dtb: bytes, cmdline: bytes, t: Trampoline)
    returns (range: Option<Initrd>)
    requires |kernel| < U64_LIMIT && |cmdline| + 1 < U32_LIMIT && Bootable(l, kernel, initrd, dtb, cmdline, t)
    ensures |l.segments| >= 3 && PatchedBlob(dtb, cmdline, range) == Ok(l.segments[|l.segments| - 2].data)
    ensures range.Some? <==> initrd.Some?
    ensures initrd.Some? ==> range.value.start == l.segments[1].phys
                             && range.value.end == l.segments[1].phys + |initrd.value|
  {
    hide PatchedBlob, ParseImage, BuildTrampoline, AlignDown1G;
    range := if initrd.Some? then Some(Initrd(l.segments[1].phys, l.segments[1].phys + |initrd.value|)) else None;
  }

  // The code.

  lemma PowersOfTwo()
    ensures IsPow2(PAGE_SIZE) && IsPow2(SZ_2M)
  {
    assert Pow2(4) == 16;
    Pow2Splits(4, 8);
    Pow2Splits(4, 12);
    Pow2Splits(9, 21);
    assert Pow2(9) == 2 * Pow2(8);
  }

  method FindPlace(usable: seq<Range>, ghost m: Memory, occupied: seq<Range>,
                   size: u64, align: u64, min: u64, max: u64)
    returns (r: Result<u64>)
    requires Holds(usable, m) && (align == PAGE_SIZE || align == SZ_2M)
    ensures r == Place(m, occupied, size, align, min, max)
  {
    hide Holds, Lowest;
    if size == 0 {
      return InvalidData;
    }
    PowersOfTwo();
    var a := FindLowest(usable, m, occupied, size, align, min, max);
    r := if a.None? then InvalidData else Ok(a.value);
  }

  method PlaceKernel(kernel: bytes, usable: seq<Range>, ghost m: Memory) returns (r: Result<Placed>)
    requires |kernel| < U64_LIMIT && Holds(usable, m)
    ensures r == PlanKernel(kernel, m)
  {
    hide ParseImage, PageAlign, Holds, MayPlace, Place;
    var image := ParseImage(kernel);
    if image.InvalidData? || image.value.textOffset % PAGE_SIZE != 0 {
      return InvalidData;
    }
    var memsz := PageAlign(Max(image.value.imageSize, |kernel|));
    if memsz.InvalidData? {
      return InvalidData;
    }
    var size := CheckedAdd(image.value.textOffset, memsz.value);
    if size.InvalidData? {
      return InvalidData;
    }
    var base := FindPlace(usable, m, [], size.value, SZ_2M, 0, U64_MAX);
    if base.InvalidData? {
      return InvalidData;
    }
    PlaceBounds(m, [], size.value, SZ_2M, 0, U64_MAX);
    return Ok(Placed(Segment(kernel, base.value + image.value.textOffset, memsz.value),
                     Range(base.value, base.value + size.value)));
  }

  lemma PlaceBounds(m: Memory, occupied: seq<Range>, size: u64, align: u64, min: u64, max: u64)
    requires Place(m, occupied, size, align, min, max).Ok?
    ensures Place(m, occupied, size, align, min, max).value + size <= max
  {
  }

  method PlaceBlock(data: bytes, usable: seq<Range>, ghost m: Memory, occupied: seq<Range>,
                    align: u64, min: u64, max: u64)
    returns (r: Result<Placed>)
    requires |data| < U64_LIMIT && Holds(usable, m) && (align == PAGE_SIZE || align == SZ_2M)
    ensures r == PlanBlock(data, m, occupied, align, min, max)
  {
    hide PageAlign, Holds, MayPlace, Place;
    var memsz := PageAlign(|data|);
    if memsz.InvalidData? {
      return InvalidData;
    }
    var address := FindPlace(usable, m, occupied, memsz.value, align, min, max);
    if address.InvalidData? {
      return InvalidData;
    }
    PlaceBounds(m, occupied, memsz.value, align, min, max);
    return Ok(Placed(Segment(data, address.value, memsz.value), Range(address.value, address.value + memsz.value)));
  }

  lemma ReservedNonempty(dtb: bytes)
    requires ReservedRanges(dtb).Ok?
    ensures AllNonempty(ReservedRanges(dtb).value)
  {
    hide ReservedRanges;
    ReservedRangesAreRanges(dtb);
  }

  lemma NothingToLoad(kernel: bytes, initrd: Option<bytes>, dtb: bytes, cmdline: bytes, lines: seq<Line>, t: Trampoline)
    requires ValidInput(kernel, initrd, cmdline, lines, t) && (kernel == [] || dtb == [])
    ensures Plan(kernel, initrd, dtb, cmdline, lines, t).InvalidData?
  {
    hide PlanInitrd, PlanRest, ValidInput;
  }

  /// The second half of `load`, from the devicetree on.
  method PlaceRest(usable: seq<Range>, ghost m: Memory, before: seq<Placed>, dtb: bytes, cmdline: bytes,
                   initrd: Option<Initrd>, t: Trampoline)
    returns (r: Result<Loaded>)
    requires before != [] && |cmdline| + 1 < U32_LIMIT && |t.code| < U64_LIMIT && Holds(usable, m)
    ensures r == PlanRest(m, before, dtb, cmdline, initrd, t)
  {
    hide PatchedBlob, BuildTrampoline, PlanBlock, Holds, CheckedAdd;
    var patched := PatchChosen(dtb, cmdline, initrd);
    if patched.InvalidData? || |patched.value| > MAX_DTB_SIZE {
      return InvalidData;
    }
    var min := KernelEnd(before[0]);
    if min.InvalidData? {
      return InvalidData;
    }
    var tree := PlaceBlock(patched.value, usable, m, Regions(before), SZ_2M, min.value, U64_MAX);
    if tree.InvalidData? {
      return InvalidData;
    }
    var placed := before + [tree.value];
    var code := BuildTrampoline(t, before[0].segment.phys, tree.value.segment.phys);
    if code.InvalidData? {
      return InvalidData;
    }
    TrampolineLength(t, before[0].segment.phys, tree.value.segment.phys);
    var tramp := PlaceBlock(code.value, usable, m, Regions(placed), PAGE_SIZE, min.value, U64_MAX);
    if tramp.InvalidData? {
      return InvalidData;
    }
    placed := placed + [tramp.value];
    if |placed| > KEXEC_SEGMENT_MAX {
      return InvalidData;
    }
    return Ok(Loaded(tramp.value.segment.phys, Segments(placed)));
  }

  lemma TrampolineLength(t: Trampoline, kernelEntry: u64, dtbAddress: u64)
    requires BuildTrampoline(t, kernelEntry, dtbAddress).Ok?
    ensures |BuildTrampoline(t, kernelEntry, dtbAddress).value| == |t.code|
  {
  }

  /// `load`, up to the system call that hands the segments to the kernel.
  method Load(kernel: bytes, initrd: Option<bytes>, dtb: bytes, cmdline: bytes, lines: seq<Line>, t: Trampoline)
    returns (r: Result<Loaded>)
    requires ValidInput(kernel, initrd, cmdline, lines, t)
    ensures r == Plan(kernel, initrd, dtb, cmdline, lines, t)
  {
    hide ReservedRanges, PlanKernel, PlanInitrd, PlanRest, Holds, ValidLines, CheckedAdd, AlignDown1G;
    if kernel == [] || dtb == [] {
      NothingToLoad(kernel, initrd, dtb, cmdline, lines, t);
      return InvalidData;
    }
    var reserved := ReadReservedRanges(dtb);
    if reserved.InvalidData? {
      return InvalidData;
    }
    ghost var m := Memory(lines, reserved.value);
    ReservedNonempty(dtb);
    var usable := FreeRanges(lines, reserved.value);
    if usable == [] {
      NoMemory(kernel, m);
      return InvalidData;
    }
    var placed := PlaceKernel(kernel, usable, m);
    if placed.InvalidData? {
      return InvalidData;
    }
    if initrd.None? || initrd.value == [] {
      r := PlaceRest(usable, m, [placed.value], dtb, cmdline, None, t);
      return;
    }
    var ramdisk := PlaceInitrd(initrd.value, usable, m, placed.value);
    if ramdisk.InvalidData? {
      return InvalidData;
    }
    r := PlaceRest(usable, m, [placed.value, ramdisk.value], dtb, cmdline, Some(InitrdRange(ramdisk.value)), t);
  }

  lemma NoMemory(kernel: bytes, m: Memory)
    requires |kernel| < U64_LIMIT && Holds([], m)
    ensures PlanKernel(kernel, m).InvalidData?
  {
    hide ParseImage, PageAlign, Free;
    assert forall x: nat :: !Covers([], x);
    assert PlanKernel(kernel, m).Ok? ==> Free(m, PlanKernel(kernel, m).value.region.start);
  }

  method PlaceInitrd(initrd: bytes, usable: seq<Range>, ghost m: Memory, kernel: Placed) returns (r: Result<Placed>)
    requires |initrd| < U64_LIMIT && Holds(usable, m)
    ensures r == PlanInitrd(initrd, m, kernel)
  {
    hide Holds, PlanBlock, AlignDown1G;
    var min := KernelEnd(kernel);
    var max := CheckedAdd(AlignDown1G(kernel.segment.phys), SZ_32G);
    if min.InvalidData? || max.InvalidData? {
      return InvalidData;
    }
    r := PlaceBlock(initrd, usable, m, [kernel.region], PAGE_SIZE, min.value, max.value);
  }
}
