/// What the address search of `src/kexec.rs`, `mod arm64`, means: the lowest block of free memory.
module Placement {
  import opened Bytes
  import opened Dtb
  import opened Ranges

  /// The lines of /proc/iomem and the ranges that the devicetree reserves.
  datatype Memory = Memory(lines: seq<Line>, reserved: seq<Range>)

  /// RAM that the running kernel reports and that nothing reserves.
  predicate Free(m: Memory, x: nat) { Usable(m.lines, x) && !Covers(m.reserved, x) }

  ghost predicate FreeBlock(m: Memory, a: nat, size: nat) {
    forall x: nat :: a <= x < a + size ==> Free(m, x)
  }

  /// A block may start here: aligned, between the bounds, free, and clear of what is already placed.
  ghost predicate MayPlace(m: Memory, occupied: seq<Range>, size: nat, align: nat, min: nat, max: nat, a: nat) {
    && Multiple(a, align) && min <= a && a + size <= max
    && FreeBlock(m, a, size)
    && !Conflicts(occupied, a, size)
  }

  ghost predicate IsLowest(m: Memory, occupied: seq<Range>, size: nat, align: nat, min: nat, max: nat, a: nat) {
    && MayPlace(m, occupied, size, align, min, max, a)
    && forall b: nat :: MayPlace(m, occupied, size, align, min, max, b) ==> a <= b
  }

  lemma LowestExists(m: Memory, occupied: seq<Range>, size: nat, align: nat, min: nat, max: nat, a: nat)
    requires MayPlace(m, occupied, size, align, min, max, a)
    ensures exists b: nat :: IsLowest(m, occupied, size, align, min, max, b)
    decreases a
  {
    hide MayPlace;
    if b: nat :| b < a && MayPlace(m, occupied, size, align, min, max, b) {
      LowestExists(m, occupied, size, align, min, max, b);
    } else {
      assert IsLowest(m, occupied, size, align, min, max, a);
    }
  }

  /// The lowest place for a block, if there is any.
  ghost function Lowest(m: Memory, occupied: seq<Range>, size: nat, align: nat, min: nat, max: nat): (r: Option<nat>)
    ensures r.Some? ==> IsLowest(m, occupied, size, align, min, max, r.value)
    ensures r.None? ==> forall b: nat :: !MayPlace(m, occupied, size, align, min, max, b)
  {
    if a: nat :| MayPlace(m, occupied, size, align, min, max, a) then
      LowestExists(m, occupied, size, align, min, max, a);
      var b: nat :| IsLowest(m, occupied, size, align, min, max, b);
      Some(b)
    else None
  }

  /// The list holds exactly the free memory.
  ghost predicate Holds(usable: seq<Range>, m: Memory) {
    && Separated(usable) && ValidUsable(usable)
    && forall x: nat :: Covers(usable, x) <==> Free(m, x)
  }

  /// A contiguous covered block lies inside one range of a separated list.
  lemma BlockInOneRange(usable: seq<Range>, m: Memory, a: nat, size: nat)
    requires Holds(usable, m) && size > 0 && FreeBlock(m, a, size)
    ensures exists r <- usable :: r.start <= a && a + size <= r.end
  {
    hide Free;
    assert Free(m, a) && Covers(usable, a);
    var r :| r in usable && Contains(r, a);
    EndNotCovered(usable, r);
    assert r.end < a + size ==> Free(m, r.end);
  }

  /// The end of a range of a separated list belongs to no range of it.
  lemma EndNotCovered(usable: seq<Range>, r: Range)
    requires Separated(usable) && r in usable
    ensures !Covers(usable, r.end)
  {
    var i :| 0 <= i < |usable| && usable[i] == r;
    forall q | q in usable ensures !Contains(q, r.end) {
      var j :| 0 <= j < |usable| && usable[j] == q;
      assert i < j ==> r.end < q.start;
      assert j < i ==> q.end < r.start;
    }
  }

  /// On a list that holds the free memory, what the search may return is what may be placed.
  lemma FitsIsMayPlace(usable: seq<Range>, m: Memory, occupied: seq<Range>,
                       size: nat, align: nat, min: nat, max: nat, a: nat)
    requires Holds(usable, m) && size > 0
    ensures Fits(usable, occupied, size, align, min, max, a) <==> MayPlace(m, occupied, size, align, min, max, a)
  {
    hide Multiple, Conflicts, Free, Separated;
    if MayPlace(m, occupied, size, align, min, max, a) {
      BlockInOneRange(usable, m, a, size);
      var r :| r in usable && r.start <= a && a + size <= r.end;
      assert FitsIn(r, size, min, max, a);
    }
    if Fits(usable, occupied, size, align, min, max, a) {
      var r :| r in usable && FitsIn(r, size, min, max, a);
      forall x: nat | a <= x < a + size ensures Free(m, x) {
        assert Contains(r, x);
      }
    }
  }

  lemma SeparatedOrdered(usable: seq<Range>)
    requires Separated(usable)
    ensures Ordered(usable)
  {
    forall i, j | 0 <= i < j < |usable| ensures usable[i].start <= usable[j].start {
      assert usable[i] in usable;
    }
  }

  /// `find_region` on the free memory finds its lowest place.
  method FindLowest(usable: seq<Range>, ghost m: Memory, occupied: seq<Range>,
                    size: u64, align: u64, min: u64, max: u64)
    returns (r: Option<u64>)
    requires Holds(usable, m) && size > 0 && IsPow2(align)
    ensures r == Lowest(m, occupied, size, align, min, max)
  {
    hide MayPlace, Fits, Free, Separated, Ordered, IsPow2;
    SeparatedOrdered(usable);
    r := FindRegion(usable, occupied, size, align, min, max);
    forall a: nat ensures
      Fits(usable, occupied, size, align, min, max, a) <==> MayPlace(m, occupied, size, align, min, max, a) {
      FitsIsMayPlace(usable, m, occupied, size, align, min, max, a);
    }
  }

  lemma UsableBounded(lines: seq<Line>, x: nat)
    requires ValidLines(lines) && Usable(lines, x)
    ensures x + 1 < U64_LIMIT
  {
    var n := |lines| - 1;
    assert lines[n] in lines;
    if Usable(lines[..n], x) {
      UsableBounded(lines[..n], x);
    }
  }

  lemma RangesBounded(lines: seq<Line>, ranges: seq<Range>)
    requires ValidLines(lines) && AllNonempty(ranges)
    requires forall x: nat :: Covers(ranges, x) ==> Usable(lines, x)
    ensures ValidUsable(ranges)
  {
    forall r <- ranges ensures r.end < U64_LIMIT {
      assert Contains(r, r.end - 1);
      UsableBounded(lines, r.end - 1);
    }
  }

  /// The list that `load` searches: the usable RAM minus every reserved range.
  method FreeRanges(lines: seq<Line>, reserved: seq<Range>) returns (usable: seq<Range>)
    requires ValidLines(lines) && AllNonempty(reserved)
    ensures Holds(usable, Memory(lines, reserved))
  {
    hide Usable;
    usable := ParseIomem(lines);
    var i := 0;
    while i < |reserved|
      invariant 0 <= i <= |reserved|
      invariant Separated(usable)
      invariant forall x: nat :: Covers(usable, x) <==> Free(Memory(lines, reserved[..i]), x)
    {
      assert reserved[i] in reserved;
      usable := SubtractRange(usable, reserved[i]);
      forall x: nat ensures Covers(usable, x) <==> Free(Memory(lines, reserved[..i + 1]), x) {
        assert reserved[..i + 1] == reserved[..i] + [reserved[i]];
        CoversConcat(reserved[..i], [reserved[i]], x);
        CoversOne(reserved[i], x);
      }
      i := i + 1;
    }
    assert reserved[..i] == reserved;
    RangesBounded(lines, usable);
  }
}
