/// When `load` of `src/kexec.rs`, `mod arm64`, finds a place for everything: one free block that is large
/// enough suffices, wherever the search puts the segments that come first.
module PlanFits {
  import opened Bytes
  import opened Tokens
  import opened Tree
  import opened Dtb
  import opened Contract
  import opened Reserved
  import opened Ranges
  import opened Placement
  import opened Arm64
  import Fits
  import Chosen

  // One block.

  function Pages(n: nat): (r: nat)
    ensures n <= r < n + PAGE_SIZE && r % PAGE_SIZE == 0
  {
    (n + (PAGE_SIZE - 1)) / PAGE_SIZE * PAGE_SIZE
  }

  lemma AlignedIs(n: u64)
    requires Pages(n) < U64_LIMIT
    ensures PageAlign(n) == Ok(Pages(n))
  {
  }

  lemma PagesAdd(x: nat, y: nat)
    requires x % PAGE_SIZE == 0 && y % PAGE_SIZE == 0
    ensures (x + y) % PAGE_SIZE == 0
  {
  }

  lemma PlaceExists(m: Memory, occupied: seq<Range>, size: u64, align: u64, min: u64, max: u64, a: nat)
    requires size > 0 && MayPlace(m, occupied, size, align, min, max, a)
    ensures Place(m, occupied, size, align, min, max).Ok? && Place(m, occupied, size, align, min, max).value <= a
  {
  }

  lemma Clear(occupied: seq<Range>, a: nat, size: nat)
    requires forall r <- occupied :: r.end <= a
    ensures !Conflicts(occupied, a, size)
  {
  }

  lemma PartFree(m: Memory, a: nat, size: nat, b: nat, part: nat)
    requires FreeBlock(m, a, size) && a <= b && b + part <= a + size
    ensures FreeBlock(m, b, part)
  {
    hide Free;
  }

  /// A segment finds a place no later than at the first aligned address behind everything placed before.
  lemma BlockExists(data: bytes, m: Memory, occupied: seq<Range>, align: u64, min: u64, max: u64, a: nat)
    requires 0 < |data| && a + Pages(|data|) <= max && min <= a && Multiple(a, align)
    requires FreeBlock(m, a, Pages(|data|)) && forall r <- occupied :: r.end <= a
    ensures |data| < U64_LIMIT
    ensures
      var p := PlanBlock(data, m, occupied, align, min, max);
      p.Ok? && p.value.region.end <= a + Pages(|data|)
  {
    hide FreeBlock, Multiple, Conflicts;
    Clear(occupied, a, Pages(|data|));
    PlaceExists(m, occupied, Pages(|data|), align, min, max, a);
  }

  /// The next multiple of 2 MiB.
  function NextBlock(n: nat): (r: nat)
    ensures n <= r < n + SZ_2M && Multiple(r, SZ_2M)
  {
    IsMultiple((n + (SZ_2M - 1)) / SZ_2M, SZ_2M);
    (n + (SZ_2M - 1)) / SZ_2M * SZ_2M
  }

  lemma PageMultiple(a: nat)
    requires a % PAGE_SIZE == 0
    ensures Multiple(a, PAGE_SIZE)
  {
    IsMultiple(a / PAGE_SIZE, PAGE_SIZE);
  }

  // The devicetree and the trampoline.

  /// The room that a free block needs behind the kernel and the initrd, alignment included.
  function RestRoom(t: Trampoline): nat { 2 * SZ_2M + Pages(|t.code|) }

  lemma RestExists(m: Memory, before: seq<Placed>, dtb: bytes, cmdline: bytes, initrd: Option<Chosen.Initrd>, t: Trampoline, a: nat)
    requires before != [] && |before| <= 2 && |cmdline| + 1 < U32_LIMIT && |t.code| < U64_LIMIT
    requires Chosen.PatchedBlob(dtb, cmdline, initrd).Ok? && 0 < |Chosen.PatchedBlob(dtb, cmdline, initrd).value| <= MAX_DTB_SIZE
    requires t.kernelSlot + 8 <= |t.code| && t.dtbSlot + 8 <= |t.code|
    requires a % PAGE_SIZE == 0 && FreeBlock(m, a, RestRoom(t)) && a + RestRoom(t) < U64_LIMIT
    requires forall p <- before :: p.region.end <= a
    requires before[0].segment.phys + before[0].segment.memsz <= a
    ensures PlanRest(m, before, dtb, cmdline, initrd, t).Ok?
  {
    hide FreeBlock, Multiple, Conflicts, Chosen.PatchedBlob, Place, MayPlace, PlanBlock;
    var patched := Chosen.PatchedBlob(dtb, cmdline, initrd).value;
    var min, d := KernelEnd(before[0]).value, NextBlock(a);
    PartFree(m, a, RestRoom(t), d, Pages(|patched|));
    BlockExists(patched, m, Regions(before), SZ_2M, min, U64_MAX, d);
    var tree := PlanBlock(patched, m, Regions(before), SZ_2M, min, U64_MAX).value;
    var code := BuildTrampoline(t, before[0].segment.phys, tree.segment.phys).value;
    assert |code| == |t.code|;
    NextPage(d);
    PageMultiple(d + SZ_2M);
    PartFree(m, a, RestRoom(t), d + SZ_2M, Pages(|code|));
    RegionsOneMore(before, tree);
    BlockExists(code, m, Regions(before + [tree]), PAGE_SIZE, min, U64_MAX, d + SZ_2M);
  }

  lemma NextPage(d: nat)
    requires Multiple(d, SZ_2M)
    ensures (d + SZ_2M) % PAGE_SIZE == 0
  {
    MultipleOfPage(d, SZ_2M);
  }

  // The size of the devicetree does not depend on where the initrd goes.

  lemma SamePatchedSize(t: Node, p: seq<Property>, q: seq<Property>)
    requires Fits.EventSizes(PropEvents(p)) == Fits.EventSizes(PropEvents(q))
    ensures Fits.EventSizes(Events(Chosen.PatchTree(t, p))) == Fits.EventSizes(Events(Chosen.PatchTree(t, q)))
  {
    hide Events, ForestEvents, PropEvents, Fits.EventSizes, Fits.EventSize;
    var x, y, i := Chosen.PatchTree(t, p), Chosen.PatchTree(t, q), ChildIndex(t.children, Chosen.CHOSEN);
    Fits.NodeSizes(x);
    Fits.NodeSizes(y);
    if i.None? {
      SameChosen(Node(Chosen.CHOSEN, p, []), Node(Chosen.CHOSEN, q, []));
      SameSnoc(t.children, Node(Chosen.CHOSEN, p, []), Node(Chosen.CHOSEN, q, []));
    } else {
      var node := t.children[i.value];
      SamePropsSize(p, q, Chosen.Unmanaged(node.props));
      SameChosen(Chosen.PatchChosenNode(node, p), Chosen.PatchChosenNode(node, q));
      SameUpdate(t.children, i.value, Chosen.PatchChosenNode(node, p), Chosen.PatchChosenNode(node, q));
    }
  }

  ghost predicate SameSize(x: Node, y: Node) { Fits.EventSizes(Events(x)) == Fits.EventSizes(Events(y)) }

  lemma SameChosen(x: Node, y: Node)
    requires x.name == y.name && x.children == y.children
    requires Fits.EventSizes(PropEvents(x.props)) == Fits.EventSizes(PropEvents(y.props))
    ensures SameSize(x, y)
  {
    hide Events, ForestEvents, PropEvents, Fits.EventSizes, Fits.EventSize;
    Fits.NodeSizes(x);
    Fits.NodeSizes(y);
  }

  lemma SamePropsSize(p: seq<Property>, q: seq<Property>, rest: seq<Property>)
    requires Fits.EventSizes(PropEvents(p)) == Fits.EventSizes(PropEvents(q))
    ensures Fits.EventSizes(PropEvents(p + rest)) == Fits.EventSizes(PropEvents(q + rest))
  {
    hide PropEvents, Fits.EventSizes;
    PropEventsAppend(p, rest);
    PropEventsAppend(q, rest);
    Fits.EventSizesAppend(PropEvents(p), PropEvents(rest));
    Fits.EventSizesAppend(PropEvents(q), PropEvents(rest));
  }

  lemma SameSnoc(nodes: seq<Node>, x: Node, y: Node)
    requires SameSize(x, y)
    ensures Fits.EventSizes(ForestEvents(nodes + [x])) == Fits.EventSizes(ForestEvents(nodes + [y]))
  {
    hide Events, ForestEvents, Fits.EventSizes;
    ForestEventsSnoc(nodes, x);
    ForestEventsSnoc(nodes, y);
    Fits.EventSizesAppend(ForestEvents(nodes), Events(x));
    Fits.EventSizesAppend(ForestEvents(nodes), Events(y));
  }

  lemma SameUpdate(nodes: seq<Node>, i: nat, x: Node, y: Node)
    requires i < |nodes| && SameSize(x, y)
    ensures Fits.EventSizes(ForestEvents(nodes[i := x])) == Fits.EventSizes(ForestEvents(nodes[i := y]))
  {
    UpdatedSize(nodes, i, x);
    UpdatedSize(nodes, i, y);
  }

  lemma UpdatedSize(nodes: seq<Node>, i: nat, x: Node)
    requires i < |nodes|
    ensures Fits.EventSizes(ForestEvents(nodes[i := x])) ==
      Fits.EventSizes(ForestEvents(nodes[..i])) + Fits.EventSizes(Events(x)) + Fits.EventSizes(ForestEvents(nodes[i + 1..]))
  {
    hide Events, ForestEvents, Fits.EventSizes;
    var updated := nodes[i := x];
    ForestEventsAround(updated, i);
    assert updated[..i] == nodes[..i] && updated[i + 1..] == nodes[i + 1..];
    Fits.EventSizesAppend(Events(x), ForestEvents(nodes[i + 1..]));
    Fits.EventSizesAppend(ForestEvents(nodes[..i]), Events(x) + ForestEvents(nodes[i + 1..]));
  }

  lemma SameChosenProperties(cmdline: bytes, x: Chosen.Initrd, y: Chosen.Initrd)
    ensures Fits.EventSizes(PropEvents(Chosen.ChosenProperties(cmdline, Some(x)))) ==
      Fits.EventSizes(PropEvents(Chosen.ChosenProperties(cmdline, Some(y))))
  {
    hide Bytes.Ascii, Bytes.Be64, PropEvents, Fits.EventSizes;
    var a := if cmdline != [] then [Property(Chosen.PROP_BOOTARGS, cmdline + [0])] else [];
    var last := [Property(Chosen.PROP_BOOTED_FROM_KEXEC, [])];
    InitrdSize(x, y);
    SamePropsSize(InitrdProps(x), InitrdProps(y), last);
    PropEventsAppend(a, InitrdProps(x) + last);
    PropEventsAppend(a, InitrdProps(y) + last);
    Fits.EventSizesAppend(PropEvents(a), PropEvents(InitrdProps(x) + last));
    Fits.EventSizesAppend(PropEvents(a), PropEvents(InitrdProps(y) + last));
    assert Chosen.ChosenProperties(cmdline, Some(x)) == a + (InitrdProps(x) + last);
    assert Chosen.ChosenProperties(cmdline, Some(y)) == a + (InitrdProps(y) + last);
  }

  function InitrdProps(x: Chosen.Initrd): seq<Property> {
    [Property(Chosen.PROP_INITRD_START, Be64(x.start)), Property(Chosen.PROP_INITRD_END, Be64(x.end))]
  }

  lemma InitrdSize(x: Chosen.Initrd, y: Chosen.Initrd)
    ensures Fits.EventSizes(PropEvents(InitrdProps(x))) == Fits.EventSizes(PropEvents(InitrdProps(y)))
  {
    hide Bytes.Ascii, Bytes.Be64;
    TwoSizes(InitrdProps(x));
    TwoSizes(InitrdProps(y));
  }

  lemma TwoSizes(p: seq<Property>)
    requires |p| == 2
    ensures Fits.EventSizes(PropEvents(p)) == 24 + Align4(|p[0].value|) + Align4(|p[1].value|)
  {
    hide Align4;
    var x, y := Attr(p[0].name, p[0].value), Attr(p[1].name, p[1].value);
    assert p[1..][1..] == [] && PropEvents([]) == [];
    assert PropEvents(p[1..]) == [y] && PropEvents(p) == [x] + [y] == [x, y];
    assert [x, y][1..] == [y] && [y][1..] == [];
    assert Fits.EventSizes([y]) == Fits.EventSize(y) && Fits.EventSizes([x, y]) == Fits.EventSize(x) + Fits.EventSizes([y]);
  }

  // The whole plan.

  function KernelRoom(kernel: bytes, image: Image): nat { image.textOffset + Pages(Max(image.imageSize, |kernel|)) }

  /// The free block that suffices.
  function Room(kernel: bytes, image: Image, initrd: Option<bytes>, t: Trampoline): nat {
    KernelRoom(kernel, image) + (if initrd.Some? then Pages(|initrd.value|) else 0) + RestRoom(t)
  }

  /// The kernel goes no later than to the start of the block.
  lemma KernelExists(kernel: bytes, m: Memory, a: nat)
    requires |kernel| < U64_LIMIT && ParseImage(kernel).Ok? && ParseImage(kernel).value.textOffset % PAGE_SIZE == 0
    requires Multiple(a, SZ_2M) && FreeBlock(m, a, KernelRoom(kernel, ParseImage(kernel).value))
    requires a + KernelRoom(kernel, ParseImage(kernel).value) < U64_LIMIT
    ensures
      var p := PlanKernel(kernel, m);
      && p.Ok? && p.value.segment.phys + p.value.segment.memsz == p.value.region.end
      && p.value.region.end <= a + KernelRoom(kernel, ParseImage(kernel).value)
      && KernelRoom(kernel, ParseImage(kernel).value) % PAGE_SIZE == 0
  {
    var image := ParseImage(kernel).value;
    ParsedNonempty(kernel);
    AlignedIs(Max(image.imageSize, |kernel|));
    PagesAdd(image.textOffset, Pages(Max(image.imageSize, |kernel|)));
    hide FreeBlock, Multiple, ParseImage, Conflicts, Pages, PageAlign, Place;
    Clear([], a, KernelRoom(kernel, image));
    PlaceExists(m, [], KernelRoom(kernel, image), SZ_2M, 0, U64_MAX, a);
  }

  /// The devicetree fits its 2 MiB block, wherever the initrd goes.
  predicate DtbFits(dtb: bytes, cmdline: bytes, initrd: bool) {
    && ContractTree(dtb).Ok? && ReserveMap(dtb).Ok?
    && Fits.PatchedBlobSize(dtb, cmdline, if initrd then Some(Chosen.Initrd(0, 0)) else None) <= MAX_DTB_SIZE
  }

  lemma DtbReturns(dtb: bytes, cmdline: bytes, initrd: Option<Chosen.Initrd>)
    requires |cmdline| + 1 < U32_LIMIT && DtbFits(dtb, cmdline, initrd.Some?)
    ensures Chosen.PatchedBlob(dtb, cmdline, initrd).Ok? && 0 < |Chosen.PatchedBlob(dtb, cmdline, initrd).value| <= MAX_DTB_SIZE
  {
    var structure, names := StructBlock(dtb).value, StringsBlock(dtb).value;
    TreeOfExact(structure, names, ContractTree(dtb).value);
    Fits.PatchReturns(dtb, cmdline, initrd);
    hide Events, Chosen.PatchTree, Chosen.ChosenProperties, Chosen.PatchedBlob, Fits.EventSizes, TreeOf, ParseHeader, ReserveMap, PaddedMap,
         Fits.WithChosen, Fits.Nops, TokensFrom;
    if initrd.Some? {
      SameChosenProperties(cmdline, initrd.value, Chosen.Initrd(0, 0));
      SamePatchedSize(ContractTree(dtb).value, Chosen.ChosenProperties(cmdline, initrd),
                      Chosen.ChosenProperties(cmdline, Some(Chosen.Initrd(0, 0))));
    }
  }

  /// The initrd goes no later than right behind the kernel's share of the block.
  lemma InitrdExists(initrd: bytes, m: Memory, kernel: Placed, a: nat)
    requires 0 < |initrd| && kernel.region.end <= a && a % PAGE_SIZE == 0 && a + Pages(|initrd|) <= SZ_32G
    requires kernel.segment.phys + kernel.segment.memsz == kernel.region.end && FreeBlock(m, a, Pages(|initrd|))
    ensures |initrd| < U64_LIMIT
    ensures
      var p := PlanInitrd(initrd, m, kernel);
      p.Ok? && p.value.region.end <= a + Pages(|initrd|)
  {
    hide FreeBlock, Multiple, Conflicts, PlanBlock, Pages, AlignDown1G;
    PageMultiple(a);
    var min, max := KernelEnd(kernel).value, CheckedAdd(AlignDown1G(kernel.segment.phys), SZ_32G).value;
    BlockExists(initrd, m, [kernel.region], PAGE_SIZE, min, max, a);
  }

  lemma RamdiskAndRest(initrd: bytes, m: Memory, k: Placed, dtb: bytes, cmdline: bytes, t: Trampoline, c: nat)
    requires |cmdline| + 1 < U32_LIMIT && |t.code| < U64_LIMIT && 0 < |initrd| && DtbFits(dtb, cmdline, true)
    requires t.kernelSlot + 8 <= |t.code| && t.dtbSlot + 8 <= |t.code|
    requires k.region.end <= c && c % PAGE_SIZE == 0 && k.segment.phys + k.segment.memsz == k.region.end
    requires FreeBlock(m, c, Pages(|initrd|) + RestRoom(t)) && c + Pages(|initrd|) + RestRoom(t) <= SZ_32G
    ensures |initrd| < U64_LIMIT && PlanInitrd(initrd, m, k).Ok?
    ensures
      var ramdisk := PlanInitrd(initrd, m, k).value;
      PlanRest(m, [k, ramdisk], dtb, cmdline, Some(InitrdRange(ramdisk)), t).Ok?
  {
    hide DtbFits, FreeBlock, PlanInitrd, PlanRest, Pages, RestRoom, Chosen.PatchedBlob;
    var room, next := Pages(|initrd|), c + Pages(|initrd|);
    PagesAdd(c, room);
    PartFree(m, c, room + RestRoom(t), c, room);
    PartFree(m, c, room + RestRoom(t), next, RestRoom(t));
    InitrdExists(initrd, m, k, c);
    var ramdisk := PlanInitrd(initrd, m, k).value;
    DtbReturns(dtb, cmdline, Some(InitrdRange(ramdisk)));
    RestExists(m, [k, ramdisk], dtb, cmdline, Some(InitrdRange(ramdisk)), t, next);
  }

  lemma NoRamdisk(m: Memory, k: Placed, dtb: bytes, cmdline: bytes, t: Trampoline, c: nat)
    requires |cmdline| + 1 < U32_LIMIT && |t.code| < U64_LIMIT && DtbFits(dtb, cmdline, false)
    requires t.kernelSlot + 8 <= |t.code| && t.dtbSlot + 8 <= |t.code|
    requires k.region.end <= c && c % PAGE_SIZE == 0 && k.segment.phys + k.segment.memsz == k.region.end
    requires FreeBlock(m, c, RestRoom(t)) && c + RestRoom(t) < U64_LIMIT
    ensures PlanRest(m, [k], dtb, cmdline, None, t).Ok?
  {
    hide *;
    DtbReturns(dtb, cmdline, None);
    RestExists(m, [k], dtb, cmdline, None, t, c);
  }

  /// `load` finds a plan whenever free memory has a block, aligned to 2 MiB, with room for everything one
  /// behind the other; with an initrd, inside the first 32 GiB, because its window starts at the kernel.
  lemma PlanExists(kernel: bytes, initrd: Option<bytes>, dtb: bytes, cmdline: bytes, lines: seq<Line>, t: Trampoline, a: nat)
    requires ValidInput(kernel, initrd, cmdline, lines, t)
    requires ParseImage(kernel).Ok? && ParseImage(kernel).value.textOffset % PAGE_SIZE == 0
    requires ReservedRanges(dtb).Ok? && DtbFits(dtb, cmdline, GivenInitrd(initrd).Some?)
    requires t.kernelSlot + 8 <= |t.code| && t.dtbSlot + 8 <= |t.code|
    requires
      var n := Room(kernel, ParseImage(kernel).value, GivenInitrd(initrd), t);
      && Multiple(a, SZ_2M) && FreeBlock(Memory(lines, ReservedRanges(dtb).value), a, n)
      && a + n <= (if GivenInitrd(initrd).Some? then SZ_32G else U64_MAX)
    ensures Plan(kernel, initrd, dtb, cmdline, lines, t).Ok?
  {
    hide *;
    InputIs(initrd, cmdline, kernel, lines, t);
    var image, m := ParseImage(kernel).value, Memory(lines, ReservedRanges(dtb).value);
    var n, size := Room(kernel, image, GivenInitrd(initrd), t), KernelRoom(kernel, image);
    MultipleOfPage(a, SZ_2M);
    RoomIs(kernel, image, GivenInitrd(initrd), t);
    PartFree(m, a, n, a, size);
    KernelExists(kernel, m, a);
    PagesAdd(a, size);
    PartFree(m, a, n, a + size, n - size);
    if GivenInitrd(initrd).Some? {
      RamdiskAndRest(initrd.value, m, PlanKernel(kernel, m).value, dtb, cmdline, t, a + size);
    } else {
      NoRamdisk(m, PlanKernel(kernel, m).value, dtb, cmdline, t, a + size);
    }
    PlanIs(kernel, initrd, dtb, cmdline, lines, t);
  }

  lemma InputIs(initrd: Option<bytes>, cmdline: bytes, kernel: bytes, lines: seq<Line>, t: Trampoline)
    requires ValidInput(kernel, initrd, cmdline, lines, t)
    ensures |kernel| < U64_LIMIT && |t.code| < U64_LIMIT && |cmdline| + 1 < U32_LIMIT
    ensures GivenInitrd(initrd).Some? ==> GivenInitrd(initrd) == initrd && 0 < |initrd.value|
  {
  }

  lemma RoomIs(kernel: bytes, image: Image, initrd: Option<bytes>, t: Trampoline)
    ensures Room(kernel, image, initrd, t) ==
      KernelRoom(kernel, image) + (if initrd.Some? then Pages(|initrd.value|) else 0) + RestRoom(t)
    ensures RestRoom(t) >= 2 * SZ_2M
  {
  }

  lemma PlanIs(kernel: bytes, initrd: Option<bytes>, dtb: bytes, cmdline: bytes, lines: seq<Line>, t: Trampoline)
    requires ValidInput(kernel, initrd, cmdline, lines, t) && ReservedRanges(dtb).Ok?
    requires
      var m := Memory(lines, ReservedRanges(dtb).value);
      && PlanKernel(kernel, m).Ok?
      && var k := PlanKernel(kernel, m).value;
      if GivenInitrd(initrd).Some? then
        && PlanInitrd(initrd.value, m, k).Ok?
        && var ramdisk := PlanInitrd(initrd.value, m, k).value;
        PlanRest(m, [k, ramdisk], dtb, cmdline, Some(InitrdRange(ramdisk)), t).Ok?
      else PlanRest(m, [k], dtb, cmdline, None, t).Ok?
    ensures Plan(kernel, initrd, dtb, cmdline, lines, t).Ok?
  {
    hide PlanKernel, PlanInitrd, PlanRest, ReservedRanges;
  }
}
