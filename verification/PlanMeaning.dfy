/// What `load` of `src/kexec.rs`, `mod arm64`, decides: the segments, in the bytes of the kernel's header and
/// the addresses of the boot protocol.
module PlanMeaning {
  import opened Bytes
  import opened Tree
  import opened Dtb
  import opened Contract
  import opened Reserved
  import opened Ranges
  import opened Placement
  import opened Arm64
  import Chosen
  import ChosenMeaning
  import ReservedMeaning

  // The kernel's header.

  /// An Image starts with two instructions, the text offset and the image size, and has its magic at byte 56.
  predicate IsImage(kernel: bytes) { |kernel| >= 64 && kernel[56..60] == [0x41, 0x52, 0x4d, 0x64] }

  /// Images without a size are old: 512 KiB and at least 16 MiB are assumed.
  function TextOffset(kernel: bytes): u64
    requires IsImage(kernel)
  {
    if Le64(kernel[16..24]) == 0 then 0x8_0000 else Le64(kernel[8..16])
  }

  function ImageSize(kernel: bytes): nat
    requires IsImage(kernel)
  {
    if Le64(kernel[16..24]) != 0 then Le64(kernel[16..24])
    else if |kernel| < 0x100_0000 then 0x100_0000
    else |kernel|
  }

  lemma ImageMeaning(kernel: bytes)
    requires |kernel| < U64_LIMIT
    ensures ParseImage(kernel).Ok? <==> IsImage(kernel)
    ensures IsImage(kernel) ==> ParseImage(kernel) == Ok(Image(TextOffset(kernel), ImageSize(kernel)))
  {
    if |kernel| >= 64 {
      MagicBytes(kernel[56..60]);
    }
    hide Le32, Le64;
  }

  lemma MagicBytes(b: bytes)
    requires |b| == 4
    ensures Le32(b) == 0x644d5241 <==> b == [0x41, 0x52, 0x4d, 0x64]
  {
    Le32ToLe32(0x644d5241);
    assert ToLe32(0x644d5241) == [0x41, 0x52, 0x4d, 0x64];
    Be32De32([b[3], b[2], b[1], b[0]]);
    assert ToLe32(Le32(b)) == b;
    hide Le32, ToLe32;
  }

  /// The same for a header that is written out.
  lemma HeaderMeaning(kernel: bytes, code: bytes, offset: u64, size: u64, rest: bytes)
    requires |code| == 8 && |kernel| < U64_LIMIT && kernel == code + ToLe64(offset) + ToLe64(size) + rest && |kernel| >= 64
    requires kernel[56..60] == [0x41, 0x52, 0x4d, 0x64] && size > 0
    ensures IsImage(kernel) && TextOffset(kernel) == offset && ImageSize(kernel) == size
  {
    Le64ToLe64(offset);
    Le64ToLe64(size);
    hide Le64, ToLe64;
    assert kernel[8..16] == ToLe64(offset) && kernel[16..24] == ToLe64(size);
  }

  // RAM.

  /// The last line that speaks of the address, other than parts of the running kernel, says System RAM.
  ghost predicate IsRam(lines: seq<Line>, x: nat) {
    exists i :: 0 <= i < |lines| && RamFrom(lines, i, x)
  }

  ghost predicate RamFrom(lines: seq<Line>, i: nat, x: nat)
    requires i < |lines|
  {
    && lines[i].Entry? && lines[i].name == SystemRam && lines[i].range.start <= x < lines[i].range.end
    && forall j :: i < j < |lines| && lines[j].Entry? && lines[j].name == OtherName ==>
         !(lines[j].range.start <= x < lines[j].range.end)
  }

  lemma {:induction false} RamMeaning(lines: seq<Line>, x: nat)
    ensures Usable(lines, x) <==> IsRam(lines, x)
    decreases |lines|
  {
    if lines != [] {
      var n := |lines| - 1;
      var before, last := lines[..n], lines[n];
      RamMeaning(before, x);
      if i :| 0 <= i < n && RamFrom(before, i, x) {
        assert forall j :: i < j < n ==> lines[j] == before[j];
        assert !(last.Entry? && last.name == OtherName && Contains(last.range, x)) ==> RamFrom(lines, i, x);
      }
      if i :| 0 <= i < n && RamFrom(lines, i, x) {
        assert forall j :: i < j < n ==> lines[j] == before[j];
        assert RamFrom(before, i, x);
      }
      assert last.Entry? && last.name == SystemRam && Contains(last.range, x) ==> RamFrom(lines, n, x);
    }
  }

  // The plan.

  /// Whole pages, no more than it takes.
  predicate Pages(memsz: nat, size: nat) { memsz % 0x1000 == 0 && size <= memsz < size + 0x1000 }

  /// RAM that neither the map nor the tree of the devicetree reserves.
  ghost predicate MayUse(lines: seq<Line>, dtb: bytes, x: nat)
    requires ContractTree(dtb).Ok? && |dtb| >= 40
  {
    IsRam(lines, x) && !ReservedMeaning.BlobHolds(dtb, x)
  }

  /// The kernel segment.
  ghost predicate KernelIs(s: Segment, kernel: bytes) {
    && IsImage(kernel) && s.data == kernel
    && TextOffset(kernel) <= s.phys && (s.phys - TextOffset(kernel)) % 0x20_0000 == 0 && s.phys % 0x1000 == 0
    && Pages(s.memsz, Max(ImageSize(kernel), |kernel|))
  }

  // How the plan comes about.

  /// The bounds of the search for a segment behind the kernel.
  function KernelTop(kernel: Segment): nat { kernel.phys + kernel.memsz }

  /// A block may start here: aligned, within the bounds, in RAM that is not reserved, and off what is placed
  /// already.
  ghost predicate MayStart(m: Memory, occupied: seq<Range>, size: nat, align: nat, min: nat, max: nat, a: nat)
    requires align > 0
  {
    && a % align == 0 && min <= a && a + size <= max
    && (forall x: nat :: a <= x < a + size ==> IsRam(m.lines, x) && !Covers(m.reserved, x))
    && forall o <- occupied :: !(a < o.end && o.start < a + size)
  }

  /// No lower address would do.
  ghost predicate IsLowestPlace(m: Memory, occupied: seq<Range>, size: nat, align: nat, min: nat, max: nat, a: nat)
    requires align > 0
  {
    && MayStart(m, occupied, size, align, min, max, a)
    && forall b: nat :: b < a ==> !MayStart(m, occupied, size, align, min, max, b)
  }

  lemma MultipleMeaning(a: nat, align: nat)
    requires align > 0
    ensures Multiple(a, align) <==> a % align == 0
  {
    if a % align == 0 {
      assert a == a / align * align;
    }
    if k: nat :| a == k * align {
      MultipleRest(k, align);
    }
  }

  lemma MultipleRest(k: nat, align: nat)
    requires align > 0
    ensures (k * align) % align == 0
  {
    var x := k * align;
    var q, r := x / align, x % align;
    assert r == (k - q) * align;
    if k - q >= 1 {
      AtLeast(k - q, align);
    } else if k - q <= -1 {
      AtLeast(q - k, align);
    }
  }

  lemma AtLeast(n: int, align: int)
    requires n >= 1 && align > 0
    ensures n * align >= align && (-n) * align <= -align
  {
    assert n * align == (n - 1) * align + align;
  }

  lemma StartMeaning(m: Memory, occupied: seq<Range>, size: nat, align: nat, min: nat, max: nat, a: nat)
    requires align > 0
    ensures MayPlace(m, occupied, size, align, min, max, a) <==> MayStart(m, occupied, size, align, min, max, a)
  {
    hide Multiple, Usable, IsRam, Covers;
    MultipleMeaning(a, align);
    forall x: nat ensures Free(m, x) <==> IsRam(m.lines, x) && !Covers(m.reserved, x) {
      RamMeaning(m.lines, x);
    }
  }

  lemma LowestMeaning(m: Memory, occupied: seq<Range>, size: nat, align: nat, min: nat, max: nat, a: nat)
    requires align > 0 && IsLowest(m, occupied, size, align, min, max, a)
    ensures IsLowestPlace(m, occupied, size, align, min, max, a)
  {
    hide MayPlace, MayStart;
    forall b: nat ensures MayPlace(m, occupied, size, align, min, max, b) <==> MayStart(m, occupied, size, align, min, max, b) {
      StartMeaning(m, occupied, size, align, min, max, b);
    }
  }

  /// A segment of its data's pages at the lowest place.
  ghost predicate BlockIs(p: Placed, data: bytes, m: Memory, occupied: seq<Range>, align: nat, min: nat, max: nat)
    requires align > 0
  {
    && p.segment.data == data && Pages(p.segment.memsz, |data|) && 0 < p.segment.memsz
    && p.region == Range(p.segment.phys, p.segment.phys + p.segment.memsz)
    && IsLowestPlace(m, occupied, p.segment.memsz, align, min, max, p.segment.phys)
  }

  /// The kernel's region starts at the lowest 2 MiB boundary that leaves room for the text offset too.
  ghost predicate KernelPlaced(p: Placed, kernel: bytes, m: Memory) {
    && KernelIs(p.segment, kernel)
    && p.region == Range(p.segment.phys - TextOffset(kernel), p.segment.phys + p.segment.memsz)
    && IsLowestPlace(m, [], TextOffset(kernel) + p.segment.memsz, 0x20_0000, 0, 0xffff_ffff_ffff_ffff, p.region.start)
  }

  lemma KernelPlace(kernel: bytes, m: Memory)
    requires |kernel| < U64_LIMIT && PlanKernel(kernel, m).Ok?
    ensures KernelPlaced(PlanKernel(kernel, m).value, kernel, m)
  {
    ImageMeaning(kernel);
    KernelIsGood(kernel, m);
    hide ParseImage, MayPlace, MayStart, TextOffset, ImageSize, IsImage;
    var p := PlanKernel(kernel, m).value;
    LowestMeaning(m, [], TextOffset(kernel) + p.segment.memsz, 0x20_0000, 0, 0xffff_ffff_ffff_ffff, p.region.start);
  }

  lemma BlockPlace(data: bytes, m: Memory, occupied: seq<Range>, align: u64, min: u64, max: u64)
    requires |data| < U64_LIMIT && align > 0 && PlanBlock(data, m, occupied, align, min, max).Ok?
    ensures BlockIs(PlanBlock(data, m, occupied, align, min, max).value, data, m, occupied, align, min, max)
  {
    hide MayPlace, MayStart;
    var p := PlanBlock(data, m, occupied, align, min, max).value;
    LowestMeaning(m, occupied, p.segment.memsz, align, min, max, p.segment.phys);
  }

  /// The plan: the kernel; the initrd, if there is one with content, in the 32 GiB that start with the
  /// gigabyte of the kernel; the patched devicetree; and the trampoline, where the new kernel is entered.
  ghost predicate PlanIs(placed: seq<Placed>, kernel: bytes, initrd: Option<bytes>, dtb: bytes, cmdline: bytes, m: Memory, t: Trampoline)
    requires |cmdline| + 1 < U32_LIMIT
  {
    var given := initrd.Some? && initrd.value != [];
    && |placed| == (if given then 4 else 3)
    && var n, k := |placed|, placed[0].segment;
    var top, end: nat := KernelTop(k), 0xffff_ffff_ffff_ffff;
    && KernelPlaced(placed[0], kernel, m)
    && (given ==> BlockIs(placed[1], initrd.value, m, Regions(placed[..1]), 0x1000, top, k.phys / 0x4000_0000 * 0x4000_0000 + 0x8_0000_0000))
    && |placed[n - 2].segment.data| <= 0x20_0000
    && BlockIs(placed[n - 2], placed[n - 2].segment.data, m, Regions(placed[..n - 2]), 0x20_0000, top, end)
    && BlockIs(placed[n - 1], placed[n - 1].segment.data, m, Regions(placed[..n - 1]), 0x1000, top, end)
    && var r := placed[1].segment;
    var range := if given && r.phys + |initrd.value| < U64_LIMIT then Some(Chosen.Initrd(r.phys, r.phys + |initrd.value|)) else None;
    && (given ==> range.Some?)
    && Chosen.PatchedBlob(dtb, cmdline, range) == Ok(placed[n - 2].segment.data)
    && BuildTrampoline(t, k.phys, placed[n - 2].segment.phys) == Ok(placed[n - 1].segment.data)
  }

  lemma RestPlace(m: Memory, before: seq<Placed>, dtb: bytes, cmdline: bytes, initrd: Option<Chosen.Initrd>, t: Trampoline)
    returns (tree: Placed, tramp: Placed)
    requires before != [] && |cmdline| + 1 < U32_LIMIT && |t.code| < U64_LIMIT
    requires PlanRest(m, before, dtb, cmdline, initrd, t).Ok?
    ensures PlanRest(m, before, dtb, cmdline, initrd, t) == Ok(Loaded(tramp.segment.phys, Segments(before + [tree] + [tramp])))
    ensures Chosen.PatchedBlob(dtb, cmdline, initrd) == Ok(tree.segment.data) && |tree.segment.data| <= 0x20_0000
    ensures BlockIs(tree, tree.segment.data, m, Regions(before), 0x20_0000, KernelTop(before[0].segment), 0xffff_ffff_ffff_ffff)
    ensures BuildTrampoline(t, before[0].segment.phys, tree.segment.phys) == Ok(tramp.segment.data)
    ensures BlockIs(tramp, tramp.segment.data, m, Regions(before + [tree]), 0x1000, KernelTop(before[0].segment), 0xffff_ffff_ffff_ffff)
  {
    hide PlanBlock, Chosen.PatchedBlob, BuildTrampoline, Regions, Segments, BlockIs;
    var patched, min := Chosen.PatchedBlob(dtb, cmdline, initrd).value, KernelEnd(before[0]).value;
    tree := PlanBlock(patched, m, Regions(before), SZ_2M, min, U64_MAX).value;
    BlockPlace(patched, m, Regions(before), SZ_2M, min, U64_MAX);
    var code := BuildTrampoline(t, before[0].segment.phys, tree.segment.phys).value;
    tramp := PlanBlock(code, m, Regions(before + [tree]), PAGE_SIZE, min, U64_MAX).value;
    BlockPlace(code, m, Regions(before + [tree]), PAGE_SIZE, min, U64_MAX);
  }

  /// Every plan is made like this, in the memory that the lines and the reserved ranges leave.
  lemma PlanParts(kernel: bytes, initrd: Option<bytes>, dtb: bytes, cmdline: bytes, lines: seq<Line>, t: Trampoline)
    returns (placed: seq<Placed>)
    requires ValidInput(kernel, initrd, cmdline, lines, t) && Plan(kernel, initrd, dtb, cmdline, lines, t).Ok?
    ensures ReservedRanges(dtb).Ok?
    ensures PlanIs(placed, kernel, initrd, dtb, cmdline, Memory(lines, ReservedRanges(dtb).value), t)
    ensures Plan(kernel, initrd, dtb, cmdline, lines, t) == Ok(Loaded(placed[|placed| - 1].segment.phys, Segments(placed)))
  {
    hide PlanKernel, PlanRest, PlanBlock, ReservedRanges, Chosen.PatchedBlob, BuildTrampoline, Segments, Regions, BlockIs, KernelPlaced;
    var m := Memory(lines, ReservedRanges(dtb).value);
    var k := PlanKernel(kernel, m).value;
    KernelPlace(kernel, m);
    if GivenInitrd(initrd).Some? {
      var ramdisk := PlanInitrd(initrd.value, m, k).value;
      BlockPlace(initrd.value, m, [k.region], PAGE_SIZE, KernelEnd(k).value, CheckedAdd(AlignDown1G(k.segment.phys), SZ_32G).value);
      RegionsOne(k);
      var tree, tramp := RestPlace(m, [k, ramdisk], dtb, cmdline, Some(InitrdRange(ramdisk)), t);
      placed := [k, ramdisk] + [tree] + [tramp];
      assert placed[..1] == [k] && placed[..2] == [k, ramdisk] && placed[..3] == [k, ramdisk] + [tree];
    } else {
      var tree, tramp := RestPlace(m, [k], dtb, cmdline, None, t);
      placed := [k] + [tree] + [tramp];
      assert placed[..1] == [k] && placed[..2] == [k] + [tree];
    }
  }

  lemma RegionsOne(k: Placed)
    ensures Regions([k]) == [k.region]
  {
  }

  lemma FreeIsUsable(lines: seq<Line>, dtb: bytes, x: nat)
    requires ContractTree(dtb).Ok? && ReservedRanges(dtb).Ok?
    ensures |dtb| >= 40
    ensures Free(Memory(lines, ReservedRanges(dtb).value), x) <==> MayUse(lines, dtb, x)
  {
    hide Usable, Covers, ContractTree, ReservedRanges, IsRam, ReservedMeaning.BlobHolds;
    RamMeaning(lines, x);
    ReservedMeaning.ReservedRangesMeaning(dtb, x);
  }

  /// The initrd as /chosen names it: from its first byte to behind its last.
  function InitrdBytes(segments: seq<Segment>, initrd: Option<bytes>): Option<Chosen.Initrd>
    requires initrd.Some? && initrd.value != [] ==> |segments| > 1 && segments[1].phys + |initrd.value| < U64_LIMIT
  {
    if initrd.Some? && initrd.value != [] then Some(Chosen.Initrd(segments[1].phys, segments[1].phys + |initrd.value|)) else None
  }

  /// The devicetree that the new kernel gets: the given one with /chosen as the loader wants it.
  ghost predicate TreeIs(data: bytes, dtb: bytes, cmdline: bytes, initrd: Option<Chosen.Initrd>) {
    && ContractTree(data).Ok? && ContractTree(dtb).Ok?
    && var t, t' := ContractTree(dtb).value, ContractTree(data).value;
    var now := Child(t', Ascii("chosen"));
    && ChosenMeaning.OnlyChosenChanges(t', t)
    && now.Some? && ChosenMeaning.ChosenIs(now.value, Child(t, Ascii("chosen")), cmdline, initrd)
  }

  /// Every plan, byte by byte: what is placed where, and what it may overwrite.
  lemma LoadMeaning(kernel: bytes, initrd: Option<bytes>, dtb: bytes, cmdline: bytes, lines: seq<Line>, t: Trampoline)
    returns (placed: seq<Placed>)
    requires ValidInput(kernel, initrd, cmdline, lines, t) && Plan(kernel, initrd, dtb, cmdline, lines, t).Ok?
    requires ContractTree(dtb).Ok? && t.kernelSlot + 8 <= t.dtbSlot
    ensures |dtb| >= 40 && ReservedRanges(dtb).Ok?
    ensures PlanIs(placed, kernel, initrd, dtb, cmdline, Memory(lines, ReservedRanges(dtb).value), t)
    ensures Plan(kernel, initrd, dtb, cmdline, lines, t) == Ok(Loaded(placed[|placed| - 1].segment.phys, Segments(placed)))
    ensures forall p <- placed, x: nat :: p.region.start <= x < p.region.end ==> MayUse(lines, dtb, x)
    ensures forall i, j :: 0 <= i < j < |placed| ==> Disjoint(placed[i].segment, placed[j].segment)
    ensures initrd.Some? && initrd.value != [] ==> placed[1].segment.phys + |initrd.value| < U64_LIMIT
    ensures TreeIs(placed[|placed| - 2].segment.data, dtb, cmdline, InitrdBytes(Segments(placed), initrd))
    ensures
      var code, tree := placed[|placed| - 1].segment.data, placed[|placed| - 2].segment.phys;
      && |code| == |t.code| && t.dtbSlot + 8 <= |code|
      && code[t.kernelSlot..t.kernelSlot + 8] == ToLe64(placed[0].segment.phys)
      && code[t.dtbSlot..t.dtbSlot + 8] == ToLe64(tree)
  {
    hide *;
    placed := PlanParts(kernel, initrd, dtb, cmdline, lines, t);
    var m := Memory(lines, ReservedRanges(dtb).value);
    HeaderIsLong(dtb);
    ShortLine(kernel, initrd, cmdline, lines, t);
    forall p <- placed, x: nat | p.region.start <= x < p.region.end ensures MayUse(lines, dtb, x) {
      PlacedIsFree(placed, kernel, initrd, dtb, cmdline, m, t, p, x);
      FreeIsUsable(lines, dtb, x);
    }
    PlanIsSafe(kernel, initrd, dtb, cmdline, lines, t);
    PlacedApart(placed, m);
    PlanGives(placed, kernel, initrd, dtb, cmdline, lines, m, t);
    SlotsAre(placed, kernel, initrd, dtb, cmdline, m, t);
  }

  lemma ShortLine(kernel: bytes, initrd: Option<bytes>, cmdline: bytes, lines: seq<Line>, t: Trampoline)
    requires ValidInput(kernel, initrd, cmdline, lines, t)
    ensures |cmdline| + 1 < U32_LIMIT
  {
  }

  lemma HeaderIsLong(dtb: bytes)
    requires ContractTree(dtb).Ok?
    ensures |dtb| >= 40
  {
    hide TreeOf;
  }

  lemma PlacedIsFree(placed: seq<Placed>, kernel: bytes, initrd: Option<bytes>, dtb: bytes, cmdline: bytes, m: Memory, t: Trampoline,
                     p: Placed, x: nat)
    requires |cmdline| + 1 < U32_LIMIT && PlanIs(placed, kernel, initrd, dtb, cmdline, m, t)
    requires p in placed && p.region.start <= x < p.region.end
    ensures Free(m, x)
  {
    hide IsRam, Usable, Covers, KernelIs, Pages, Chosen.PatchedBlob, BuildTrampoline, Regions;
    RamMeaning(m.lines, x);
    var i :| 0 <= i < |placed| && placed[i] == p;
    assert IsRam(m.lines, x) && !Covers(m.reserved, x);
  }

  lemma PlacedApart(placed: seq<Placed>, m: Memory)
    requires Safe(Segments(placed), m)
    ensures forall i, j :: 0 <= i < j < |placed| ==> Disjoint(placed[i].segment, placed[j].segment)
  {
    hide InFreeMemory, WholePages, Disjoint;
    var segments := Segments(placed);
    forall i, j | 0 <= i < j < |placed| ensures Disjoint(placed[i].segment, placed[j].segment) {
      assert Disjoint(segments[i], segments[j]);
    }
  }

  lemma PlanGives(placed: seq<Placed>, kernel: bytes, initrd: Option<bytes>, dtb: bytes, cmdline: bytes, lines: seq<Line>, m: Memory, t: Trampoline)
    requires ValidInput(kernel, initrd, cmdline, lines, t) && ContractTree(dtb).Ok?
    requires PlanIs(placed, kernel, initrd, dtb, cmdline, m, t)
    ensures initrd.Some? && initrd.value != [] ==> placed[1].segment.phys + |initrd.value| < U64_LIMIT
    ensures TreeIs(placed[|placed| - 2].segment.data, dtb, cmdline, InitrdBytes(Segments(placed), initrd))
  {
    hide KernelPlaced, BlockIs, Chosen.PatchedBlob, BuildTrampoline, ContractTree, ChosenMeaning.OnlyChosenChanges,
      ChosenMeaning.ChosenIs, Child, Bytes.Ascii;
    assert Segments(placed)[1] == placed[1].segment;
    ChosenMeaning.PatchedBlobMeaning(dtb, cmdline, InitrdBytes(Segments(placed), initrd));
  }

  lemma SlotsAre(placed: seq<Placed>, kernel: bytes, initrd: Option<bytes>, dtb: bytes, cmdline: bytes, m: Memory, t: Trampoline)
    requires |cmdline| + 1 < U32_LIMIT && PlanIs(placed, kernel, initrd, dtb, cmdline, m, t) && t.kernelSlot + 8 <= t.dtbSlot
    ensures
      var code, tree := placed[|placed| - 1].segment.data, placed[|placed| - 2].segment.phys;
      && |code| == |t.code| && t.dtbSlot + 8 <= |code|
      && code[t.kernelSlot..t.kernelSlot + 8] == ToLe64(placed[0].segment.phys)
      && code[t.dtbSlot..t.dtbSlot + 8] == ToLe64(tree)
  {
    hide KernelPlaced, BlockIs, Chosen.PatchedBlob, ToLe64;
  }
}
