/// The range list and the first-fit search of `src/kexec.rs`, `mod arm64`.
module Ranges {
  import opened Bytes
  import opened Dtb

  predicate Nonempty(r: Range) { r.start < r.end }

  predicate Contains(r: Range, a: nat) { r.start <= a < r.end }

  predicate Overlap(x: Range, y: Range) { x.start < y.end && y.start < x.end }

  predicate AllNonempty(ranges: seq<Range>) { forall r <- ranges :: Nonempty(r) }

  /// The set of addresses that a list of ranges describes.
  predicate Covers(ranges: seq<Range>, a: nat) { exists r <- ranges :: Contains(r, a) }

  predicate Ordered(ranges: seq<Range>) {
    forall i, j :: 0 <= i < j < |ranges| ==> ranges[i].start <= ranges[j].start
  }

  /// Non-empty, in order, with a gap between any two.
  predicate Separated(ranges: seq<Range>) {
    && AllNonempty(ranges)
    && forall i, j :: 0 <= i < j < |ranges| ==> ranges[i].end < ranges[j].start
  }

  // `sort_by_key(|range| range.start)`, which is stable.

  function Insert(r: Range, sorted: seq<Range>): (out: seq<Range>)
    ensures forall x :: x in out <==> x == r || x in sorted
    ensures Ordered(sorted) ==> Ordered(out)
  {
    if sorted == [] || r.start <= sorted[0].start then [r] + sorted
    else
      var rest := Insert(r, sorted[1..]);
      assert forall x :: x in [sorted[0]] + rest <==> x == sorted[0] || x in rest;
      assert Ordered(sorted) ==> Ordered([sorted[0]] + rest) by {
        if Ordered(sorted) {
          assert forall x <- rest :: sorted[0].start <= x.start;
        }
      }
      [sorted[0]] + rest
  }

  function SortByStart(ranges: seq<Range>): (out: seq<Range>)
    ensures Ordered(out) && forall x :: x in out <==> x in ranges
  {
    if ranges == [] then [] else Insert(ranges[0], SortByStart(ranges[1..]))
  }

  lemma CoversConcat(xs: seq<Range>, ys: seq<Range>, a: nat)
    ensures Covers(xs + ys, a) <==> Covers(xs, a) || Covers(ys, a)
  {
    if Covers(xs, a) {
      var r :| r in xs && Contains(r, a);
      assert r in xs + ys;
    }
    if Covers(ys, a) {
      var r :| r in ys && Contains(r, a);
      assert r in xs + ys;
    }
  }

  lemma CoversOne(r: Range, a: nat)
    ensures Covers([r], a) <==> Contains(r, a)
  {
    assert r in [r];
  }

  lemma CoversSame(xs: seq<Range>, ys: seq<Range>, a: nat)
    requires forall x :: x in xs <==> x in ys
    ensures Covers(xs, a) <==> Covers(ys, a)
  {
  }

  /// `add_range`: set union, whatever the order of the list; the result is separated.
  method AddRange(ranges: seq<Range>, range: Range) returns (merged: seq<Range>)
    requires AllNonempty(ranges) && Nonempty(range)
    ensures Separated(merged)
    ensures forall a: nat :: Covers(merged, a) <==> Covers(ranges, a) || Contains(range, a)
  {
    var sorted := SortByStart(ranges + [range]);
    forall a: nat ensures Covers(sorted, a) <==> Covers(ranges, a) || Contains(range, a) {
      CoversSame(sorted, ranges + [range], a);
      CoversConcat(ranges, [range], a);
      CoversOne(range, a);
    }
    merged := [];
    var i := 0;
    while i < |sorted|
      invariant 0 <= i <= |sorted|
      invariant Separated(merged)
      invariant merged != [] && i < |sorted| ==> merged[|merged| - 1].start <= sorted[i].start
      invariant forall a: nat :: Covers(merged, a) <==> Covers(sorted[..i], a)
    {
      var r := sorted[i];
      assert r in sorted && Nonempty(r);
      assert sorted[..i + 1] == sorted[..i] + [r];
      ghost var before := merged;
      if merged != [] && r.start <= merged[|merged| - 1].end {
        var n := |merged| - 1;
        var last := merged[n];
        var joined := Range(last.start, if last.end >= r.end then last.end else r.end);
        merged := merged[n := joined];
        JoinCovers(before, n, r, joined);
      } else {
        merged := merged + [r];
      }
      forall a: nat ensures Covers(merged, a) <==> Covers(sorted[..i + 1], a) {
        CoversConcat(sorted[..i], [r], a);
        CoversOne(r, a);
        CoversConcat(before, [r], a);
      }
      i := i + 1;
    }
    assert sorted[..i] == sorted;
  }

  lemma JoinCovers(ranges: seq<Range>, n: nat, r: Range, joined: Range)
    requires n < |ranges| && Nonempty(r) && ranges[n].start <= r.start <= ranges[n].end
    requires joined == Range(ranges[n].start, if ranges[n].end >= r.end then ranges[n].end else r.end)
    ensures forall a: nat :: Covers(ranges[n := joined], a) <==> Covers(ranges, a) || Contains(r, a)
  {
    forall a: nat ensures Covers(ranges[n := joined], a) <==> Covers(ranges, a) || Contains(r, a) {
      var xs, ys := ranges[..n], ranges[n + 1..];
      assert ranges == xs + ([ranges[n]] + ys) && ranges[n := joined] == xs + ([joined] + ys);
      CoversConcat(xs, [ranges[n]] + ys, a);
      CoversConcat([ranges[n]], ys, a);
      CoversConcat(xs, [joined] + ys, a);
      CoversConcat([joined], ys, a);
      CoversOne(ranges[n], a);
      CoversOne(joined, a);
    }
  }

  /// What is left of one range.
  function Cut(r: Range, remove: Range): seq<Range> {
    if !Overlap(r, remove) then [r]
    else
      var left := if r.end <= remove.start then r.end else remove.start;
      var right := if remove.end >= r.start then remove.end else r.start;
      (if r.start < remove.start && r.start < left then [Range(r.start, left)] else [])
      + (if remove.end < r.end && right < r.end then [Range(right, r.end)] else [])
  }

  lemma CutLaws(r: Range, remove: Range)
    requires Nonempty(r) && Nonempty(remove)
    ensures forall x <- Cut(r, remove) :: Nonempty(x) && r.start <= x.start && x.end <= r.end
    ensures Separated(Cut(r, remove))
    ensures forall a: nat :: Covers(Cut(r, remove), a) <==> Contains(r, a) && !Contains(remove, a)
  {
    var out := Cut(r, remove);
    forall a: nat ensures Covers(out, a) <==> Contains(r, a) && !Contains(remove, a) {
      if !Overlap(r, remove) {
        CoversOne(r, a);
      } else {
        var left := if r.start < remove.start then [Range(r.start, remove.start)] else [];
        var right := if remove.end < r.end then [Range(remove.end, r.end)] else [];
        assert out == left + right;
        CoversConcat(left, right, a);
        if left != [] { CoversOne(left[0], a); }
        if right != [] { CoversOne(right[0], a); }
      }
    }
  }

  /// `subtract_range`: set difference; a separated list stays separated.
  method SubtractRange(ranges: seq<Range>, remove: Range) returns (updated: seq<Range>)
    requires AllNonempty(ranges) && Nonempty(remove)
    ensures AllNonempty(updated) && (Separated(ranges) ==> Separated(updated))
    ensures forall a: nat :: Covers(updated, a) <==> Covers(ranges, a) && !Contains(remove, a)
  {
    updated := [];
    var i := 0;
    while i < |ranges|
      invariant 0 <= i <= |ranges|
      invariant AllNonempty(updated)
      invariant Separated(ranges) ==> Separated(updated)
      invariant Separated(ranges) && i < |ranges| ==> forall x <- updated :: x.end < ranges[i].start
      invariant forall a: nat :: Covers(updated, a) <==> Covers(ranges[..i], a) && !Contains(remove, a)
    {
      var r := ranges[i];
      assert r in ranges;
      ghost var before := updated;
      if !Overlap(r, remove) {
        updated := updated + [r];
      } else {
        var left := if r.end <= remove.start then r.end else remove.start;
        if r.start < remove.start && r.start < left {
          updated := updated + [Range(r.start, left)];
        }
        var right := if remove.end >= r.start then remove.end else r.start;
        if remove.end < r.end && right < r.end {
          updated := updated + [Range(right, r.end)];
        }
      }
      assert updated == before + Cut(r, remove);
      CutLaws(r, remove);
      AppendCut(before, Cut(r, remove), r);
      forall a: nat ensures Covers(updated, a) <==> Covers(ranges[..i + 1], a) && !Contains(remove, a) {
        assert ranges[..i + 1] == ranges[..i] + [r];
        CoversConcat(before, Cut(r, remove), a);
        CoversConcat(ranges[..i], [r], a);
        CoversOne(r, a);
      }
      i := i + 1;
    }
    assert ranges[..i] == ranges;
  }

  lemma AppendCut(before: seq<Range>, cut: seq<Range>, r: Range)
    requires AllNonempty(before) && Separated(cut)
    requires forall x <- cut :: r.start <= x.start
    ensures AllNonempty(before + cut)
    ensures Separated(before) && (forall x <- before :: x.end < r.start) ==> Separated(before + cut)
  {
    if Separated(before) && (forall x <- before :: x.end < r.start) {
      var all := before + cut;
      forall i, j | 0 <= i < j < |all| ensures all[i].end < all[j].start {
        if i < |before| <= j {
          assert all[i] in before && all[j] in cut;
        }
      }
    }
  }

  // `parse_iomem`.

  datatype Name = SystemRam | KernelImage | OtherName

  /// A line of /proc/iomem: unreadable, or a non-empty range with a name.
  datatype Line = Unreadable | Entry(range: Range, name: Name)

  predicate ValidLines(lines: seq<Line>) {
    forall l <- lines :: l.Entry? ==> Nonempty(l.range) && l.range.end < U64_LIMIT
  }

  /// Whether an address is usable RAM once these lines have been read in order.
  predicate Usable(lines: seq<Line>, a: nat) {
    if lines == [] then false
    else
      var last, before := lines[|lines| - 1], Usable(lines[..|lines| - 1], a);
      match last
      case Unreadable => before
      case Entry(range, SystemRam) => before || Contains(range, a)
      case Entry(_, KernelImage) => before
      case Entry(range, OtherName) => before && !Contains(range, a)
  }

  lemma OrderedSort(ranges: seq<Range>)
    requires Separated(ranges)
    ensures SortByStart(ranges) == ranges
  {
    if ranges != [] {
      OrderedSort(ranges[1..]);
      if |ranges| > 1 {
        assert ranges[0] in ranges && ranges[0].end < ranges[1].start;
      }
      assert [ranges[0]] + ranges[1..] == ranges;
    }
  }

  /// `parse_iomem`: the ranges are separated and describe exactly the usable addresses.
  method ParseIomem(lines: seq<Line>) returns (ranges: seq<Range>)
    requires ValidLines(lines)
    ensures Separated(ranges)
    ensures forall a: nat :: Covers(ranges, a) <==> Usable(lines, a)
  {
    ranges := [];
    var i := 0;
    while i < |lines|
      invariant 0 <= i <= |lines|
      invariant Separated(ranges)
      invariant forall a: nat :: Covers(ranges, a) <==> Usable(lines[..i], a)
    {
      assert lines[i] in lines;
      assert lines[..i + 1][..i] == lines[..i];
      match lines[i] {
        case Unreadable =>
        case Entry(range, SystemRam) =>
          ranges := AddRange(ranges, range);
        case Entry(_, KernelImage) =>
        case Entry(range, OtherName) =>
          ranges := SubtractRange(ranges, range);
      }
      i := i + 1;
    }
    assert lines[..i] == lines;
    OrderedSort(ranges);
    ranges := SortByStart(ranges);
  }

  // Alignment.

  function Pow2(k: nat): (p: nat)
    ensures p > 0
  {
    if k == 0 then 1 else 2 * Pow2(k - 1)
  }

  /// `is_power_of_two` on a 64-bit word.
  predicate IsPow2(align: nat) { exists k :: 0 <= k < 64 && align == Pow2(k) }

  lemma {:induction false} Pow2Splits(k: nat, n: nat)
    requires k <= n
    ensures Pow2(n) == Pow2(k) * Pow2(n - k)
    decreases k
  {
    if k > 0 {
      Pow2Splits(k - 1, n - 1);
      assert Pow2(n) == 2 * (Pow2(k - 1) * Pow2(n - k));
      assert Pow2(k) * Pow2(n - k) == 2 * Pow2(k - 1) * Pow2(n - k);
    }
  }

  lemma Pow2Of64()
    ensures Pow2(64) == U64_LIMIT
  {
    assert Pow2(4) == 16;
    Pow2Splits(4, 8);
    Pow2Splits(8, 16);
    Pow2Splits(16, 32);
    Pow2Splits(32, 64);
  }

  ghost predicate Multiple(a: nat, align: nat) { exists k: nat :: a == k * align }

  lemma LimitIsMultiple(align: nat)
    requires IsPow2(align)
    ensures Multiple(U64_LIMIT, align)
  {
    var k :| 0 <= k < 64 && align == Pow2(k);
    hide *;
    Pow2Splits(k, 64);
    Pow2Of64();
    IsMultiple(Pow2(64 - k), align);
    MulCommutes(Pow2(k), Pow2(64 - k));
  }

  lemma IsMultiple(k: nat, align: nat)
    ensures Multiple(k * align, align)
  {
  }

  lemma MulCommutes(x: nat, y: nat)
    ensures x * y == y * x
  {
  }

  /// `align_up`: none when the sum overflows.
  function AlignUp(value: nat, align: nat): Option<nat>
    requires align > 0
  {
    if value + (align - 1) >= U64_LIMIT then None else Some((value + (align - 1)) / align * align)
  }

  lemma RoundUp(value: nat, align: nat)
    requires align > 0
    ensures
      var r := (value + (align - 1)) / align * align;
      value <= r < value + align && Multiple(r, align)
  {
    var n := value + (align - 1);
    var q := n / align;
    DivBounds(n, align);
    assert q * align + align > n;
    assert (q * align) == q * align;
  }

  lemma DivBounds(n: nat, d: nat)
    requires d > 0
    ensures n / d * d <= n < n / d * d + d
  {
    assert n == n / d * d + n % d;
  }

  lemma MultipleStep(x: nat, y: nat, align: nat)
    requires align > 0 && Multiple(x, align) && Multiple(y, align) && x < y
    ensures x + align <= y
  {
    var i: nat :| x == i * align;
    var j: nat :| y == j * align;
    if j <= i {
      MulMonotone(j, i, align);
    } else {
      MulMonotone(i + 1, j, align);
      assert (i + 1) * align == i * align + align;
    }
  }

  lemma MulMonotone(i: nat, j: nat, m: nat)
    requires i <= j
    ensures i * m <= j * m
  {
    assert j * m == i * m + (j - i) * m;
  }

  /// `align_up` finds the least multiple that is no smaller, and fails only when none is representable.
  lemma AlignUpLeast(value: nat, align: nat)
    requires IsPow2(align)
    ensures
      var r := AlignUp(value, align);
      && (r.Some? ==> value <= r.value && Multiple(r.value, align)
                      && forall b: nat :: value <= b && Multiple(b, align) ==> r.value <= b)
      && (r.None? ==> forall b: nat :: value <= b < U64_LIMIT ==> !Multiple(b, align))
  {
    RoundUp(value, align);
    var r := (value + (align - 1)) / align * align;
    forall b: nat | value <= b && Multiple(b, align) ensures r <= b {
      if b < r {
        MultipleStep(b, r, align);
      }
    }
    if AlignUp(value, align).None? {
      LimitIsMultiple(align);
      forall b: nat | value <= b < U64_LIMIT ensures !Multiple(b, align) {
        if Multiple(b, align) {
          MultipleStep(b, U64_LIMIT, align);
        }
      }
    }
  }

  // The search.

  predicate Conflicts(occupied: seq<Range>, a: nat, size: nat) {
    exists o <- occupied :: Overlap(Range(a, a + size), o)
  }

  /// The block lies in this range and between the bounds.
  predicate FitsIn(range: Range, size: nat, min: nat, max: nat, a: nat) {
    Max(range.start, min) <= a && a + size <= Min(range.end, max)
  }

  /// A block that the search may return.
  ghost predicate Fits(usable: seq<Range>, occupied: seq<Range>, size: nat, align: nat, min: nat, max: nat, a: nat) {
    && Multiple(a, align)
    && (exists r <- usable :: FitsIn(r, size, min, max, a))
    && !Conflicts(occupied, a, size)
  }

  /// Among the occupied ranges that overlap the block, the one that ends first.
  function FirstConflict(occupied: seq<Range>, a: nat, size: nat): (r: Option<Range>)
    ensures r.Some? ==> r.value in occupied && Overlap(Range(a, a + size), r.value)
    ensures r.None? ==> !Conflicts(occupied, a, size)
    ensures r.Some? ==> forall o <- occupied :: Overlap(Range(a, a + size), o) ==> r.value.end <= o.end
  {
    if occupied == [] then None
    else
      var rest := FirstConflict(occupied[1..], a, size);
      assert forall o :: o in occupied <==> o == occupied[0] || o in occupied[1..];
      if !Overlap(Range(a, a + size), occupied[0]) then rest
      else if rest.Some? && rest.value.end < occupied[0].end then rest
      else Some(occupied[0])
  }

  /// Moving past a conflict skips only blocks that meet the same occupied range.
  lemma SkippedConflict(occupied: seq<Range>, o: Range, candidate: nat, size: nat, b: nat)
    requires o in occupied && Overlap(Range(candidate, candidate + size), o) && candidate <= b < o.end
    ensures Conflicts(occupied, b, size)
  {
    assert Overlap(Range(b, b + size), o);
  }

  /// Every aligned start from `lo` up to `candidate` is taken.
  ghost predicate Taken(occupied: seq<Range>, size: nat, align: nat, lo: nat, candidate: nat) {
    forall b: nat :: lo <= b < candidate && Multiple(b, align) ==> Conflicts(occupied, b, size)
  }

  ghost predicate NoneIn(usable: seq<Range>, occupied: seq<Range>, size: nat, align: nat, min: nat, max: nat) {
    forall r <- usable, b: nat ::
      FitsIn(r, size, min, max, b) && Multiple(b, align) ==> Conflicts(occupied, b, size)
  }

  ghost predicate ValidUsable(usable: seq<Range>) { forall r <- usable :: r.end < U64_LIMIT }

  /// What the search inside one usable range comes to.
  datatype Search = Found(start: u64) | Full | Overflowed

  /// Every aligned block between these two addresses is taken.
  ghost predicate NoneBetween(occupied: seq<Range>, size: nat, align: nat, start: nat, end: nat) {
    forall b: nat :: start <= b && b + size <= end && Multiple(b, align) ==> Conflicts(occupied, b, size)
  }

  lemma TakenPastEnd(occupied: seq<Range>, size: nat, align: nat, start: nat, end: nat, candidate: nat)
    requires Taken(occupied, size, align, start, candidate) && candidate + size > end
    ensures NoneBetween(occupied, size, align, start, end)
  {
  }

  /// Advancing to the first aligned address at or past the end of a conflicting range skips nothing free.
  lemma TakenPastConflict(occupied: seq<Range>, size: nat, align: nat, start: nat, candidate: nat, o: Range)
    requires align > 0 && IsPow2(align) && Taken(occupied, size, align, start, candidate)
    requires o in occupied && Overlap(Range(candidate, candidate + size), o)
    ensures
      var past := AlignUp(o.end, align);
      && (past.None? ==> Taken(occupied, size, align, start, U64_LIMIT))
      && (past.Some? ==> Taken(occupied, size, align, start, past.value)
                         && past.value > candidate && Multiple(past.value, align))
  {
    hide Multiple, IsPow2, AlignUp, Conflicts;
    var past := AlignUp(o.end, align);
    AlignUpLeast(o.end, align);
    var limit := if past.Some? then past.value else U64_LIMIT;
    forall b: nat | start <= b < limit && Multiple(b, align) ensures Conflicts(occupied, b, size) {
      if candidate <= b {
        SkippedConflict(occupied, o, candidate, size, b);
      }
    }
  }

  lemma TakenToStart(occupied: seq<Range>, size: nat, align: nat, start: nat)
    requires IsPow2(align)
    ensures
      var first := AlignUp(start, align);
      && (first.None? ==> Taken(occupied, size, align, start, U64_LIMIT))
      && (first.Some? ==> Taken(occupied, size, align, start, first.value)
                          && first.value >= start && Multiple(first.value, align))
  {
    hide Multiple, IsPow2, AlignUp, Conflicts;
    AlignUpLeast(start, align);
  }

  /// The part of `find_region` that looks at one usable range, already clipped to the bounds.
  method SearchRange(occupied: seq<Range>, size: u64, align: u64, start: u64, end: u64)
    returns (r: Search, ghost limit: nat)
    requires align > 0 && IsPow2(align)
    ensures Taken(occupied, size, align, start, limit)
    ensures r.Found? ==> limit == r.start && start <= r.start && r.start + size <= end
                         && Multiple(r.start, align) && !Conflicts(occupied, r.start, size)
    ensures r.Full? ==> NoneBetween(occupied, size, align, start, end)
    ensures r.Overflowed? ==> limit + size >= U64_LIMIT
  {
    hide Multiple, IsPow2, AlignUp, Conflicts, Taken, NoneBetween;
    var first := AlignUp(start, align);
    TakenToStart(occupied, size, align, start);
    if first.None? {
      return Overflowed, U64_LIMIT;
    }
    var candidate := first.value;
    while true
      invariant candidate >= start && Multiple(candidate, align)
      invariant Taken(occupied, size, align, start, candidate)
      decreases U64_LIMIT - candidate
    {
      if candidate + size >= U64_LIMIT {
        return Overflowed, candidate;
      }
      if candidate + size > end {
        TakenPastEnd(occupied, size, align, start, end, candidate);
        return Full, candidate;
      }
      var conflict := FirstConflict(occupied, candidate, size);
      if conflict.None? {
        return Found(candidate), candidate;
      }
      TakenPastConflict(occupied, size, align, start, candidate, conflict.value);
      var past := AlignUp(conflict.value.end, align);
      if past.None? {
        return Overflowed, U64_LIMIT;
      }
      candidate := past.value;
    }
  }

  lemma NoneInOneMore(usable: seq<Range>, occupied: seq<Range>, size: nat, align: nat, min: nat, max: nat, i: nat)
    requires i < |usable| && NoneIn(usable[..i], occupied, size, align, min, max)
    requires NoneBetween(occupied, size, align, Max(usable[i].start, min), Min(usable[i].end, max))
    ensures NoneIn(usable[..i + 1], occupied, size, align, min, max)
  {
    hide Multiple, Conflicts;
    assert usable[..i + 1] == usable[..i] + [usable[i]];
  }

  lemma NoneAnywhere(usable: seq<Range>, occupied: seq<Range>, size: nat, align: nat, min: nat, max: nat)
    requires NoneIn(usable, occupied, size, align, min, max)
    ensures forall b: nat :: !Fits(usable, occupied, size, align, min, max, b)
  {
    hide Multiple, Conflicts;
  }

  /// `find_region`: the lowest block that fits, and none only when none fits, overflow included.
  method FindRegion(usable: seq<Range>, occupied: seq<Range>, size: u64, align: u64, min: u64, max: u64)
    returns (r: Option<u64>)
    requires Ordered(usable) && ValidUsable(usable)
    ensures r.Some? ==> size > 0 && IsPow2(align)
    ensures r.Some? ==> Fits(usable, occupied, size, align, min, max, r.value)
    ensures r.Some? ==> forall b: nat :: Fits(usable, occupied, size, align, min, max, b) ==> r.value <= b
    ensures r.None? && size > 0 && IsPow2(align) ==> forall b: nat :: !Fits(usable, occupied, size, align, min, max, b)
  {
    hide Multiple, IsPow2, Conflicts, Taken, NoneIn, NoneBetween, Fits, Ordered, Pow2, AlignUp;
    if size == 0 || !IsPow2(align) {
      return None;
    }
    NonzeroPow2(align);
    NoneInNothing(occupied, size, align, min, max);
    var i := 0;
    while i < |usable|
      invariant 0 <= i <= |usable|
      invariant NoneIn(usable[..i], occupied, size, align, min, max)
    {
      var range := usable[i];
      assert range in usable;
      var start, end := Max(range.start, min), Min(range.end, max);
      if start + size >= U64_LIMIT {
        TakenNothing(occupied, size, align, start);
        NoneAfter(usable, occupied, size, align, min, max, i, start, start);
        return None;
      }
      if start + size > end {
        TakenNothing(occupied, size, align, start);
        TakenPastEnd(occupied, size, align, start, end, start);
      } else {
        var found, limit := SearchRange(occupied, size, align, start, end);
        if found.Overflowed? {
          NoneAfter(usable, occupied, size, align, min, max, i, start, limit);
          return None;
        }
        if found.Found? {
          FoundLowest(usable, occupied, size, align, min, max, i, start, found.start);
          return Some(found.start);
        }
      }
      NoneInOneMore(usable, occupied, size, align, min, max, i);
      i := i + 1;
    }
    assert usable[..i] == usable;
    NoneAnywhere(usable, occupied, size, align, min, max);
    return None;
  }

  lemma NonzeroPow2(align: nat)
    requires IsPow2(align)
    ensures align > 0
  {
  }

  lemma NoneInNothing(occupied: seq<Range>, size: nat, align: nat, min: nat, max: nat)
    ensures forall usable: seq<Range> :: usable == [] ==> NoneIn(usable, occupied, size, align, min, max)
  {
  }

  lemma TakenNothing(occupied: seq<Range>, size: nat, align: nat, start: nat)
    ensures Taken(occupied, size, align, start, start)
  {
  }

  /// Stopping early is right: every later range starts further up.
  lemma NoneAfter(usable: seq<Range>, occupied: seq<Range>, size: nat, align: nat, min: nat, max: nat,
                  i: nat, start: nat, candidate: nat)
    requires Ordered(usable) && ValidUsable(usable) && i < |usable| && start == Max(usable[i].start, min)
    requires size > 0 && candidate + size >= U64_LIMIT && Taken(occupied, size, align, start, candidate)
    requires NoneIn(usable[..i], occupied, size, align, min, max)
    ensures forall b: nat :: !Fits(usable, occupied, size, align, min, max, b)
  {
    hide *;
    forall b: nat ensures !Fits(usable, occupied, size, align, min, max, b) {
      if Fits(usable, occupied, size, align, min, max, b) {
        FitsFrom(usable, occupied, size, align, min, max, i, b);
        TakenFits(usable, occupied, size, align, min, max, start, candidate, b);
        FitsBelowLimit(usable, occupied, size, align, min, max, b);
        assert false;
      }
    }
  }

  lemma TakenFits(usable: seq<Range>, occupied: seq<Range>, size: nat, align: nat, min: nat, max: nat,
                  start: nat, candidate: nat, b: nat)
    requires Taken(occupied, size, align, start, candidate)
    requires Fits(usable, occupied, size, align, min, max, b) && start <= b
    ensures candidate <= b
  {
    hide Multiple, Conflicts, FitsIn;
  }

  lemma FitsBelowLimit(usable: seq<Range>, occupied: seq<Range>, size: nat, align: nat, min: nat, max: nat, b: nat)
    requires ValidUsable(usable) && Fits(usable, occupied, size, align, min, max, b)
    ensures b + size < U64_LIMIT
  {
    hide Multiple, Conflicts;
  }

  lemma PrefixHas(usable: seq<Range>, i: nat)
    requires i <= |usable|
    ensures forall k :: 0 <= k < i ==> usable[k] in usable[..i]
  {
    assert forall k :: 0 <= k < i ==> usable[..i][k] == usable[k];
  }

  /// No block fits in the first `i` ranges, so a block that fits starts after the next one does.
  lemma FitsFrom(usable: seq<Range>, occupied: seq<Range>, size: nat, align: nat, min: nat, max: nat, i: nat, b: nat)
    requires Ordered(usable) && i < |usable|
    requires NoneIn(usable[..i], occupied, size, align, min, max)
    requires Fits(usable, occupied, size, align, min, max, b)
    ensures Max(usable[i].start, min) <= b
  {
    hide Multiple, Conflicts;
    PrefixHas(usable, i);
    var r :| r in usable && FitsIn(r, size, min, max, b);
    var k :| 0 <= k < |usable| && usable[k] == r;
    assert r !in usable[..i];
    assert usable[i].start <= r.start;
  }

  lemma FoundLowest(usable: seq<Range>, occupied: seq<Range>, size: nat, align: nat, min: nat, max: nat,
                    i: nat, start: nat, candidate: nat)
    requires Ordered(usable) && i < |usable| && start == Max(usable[i].start, min)
    requires candidate >= start && Taken(occupied, size, align, start, candidate)
    requires candidate + size <= Min(usable[i].end, max) && Multiple(candidate, align)
    requires !Conflicts(occupied, candidate, size)
    requires NoneIn(usable[..i], occupied, size, align, min, max)
    ensures Fits(usable, occupied, size, align, min, max, candidate)
    ensures forall b: nat :: Fits(usable, occupied, size, align, min, max, b) ==> candidate <= b
  {
    hide Multiple, Conflicts;
    assert usable[i] in usable && FitsIn(usable[i], size, min, max, candidate);
    hide *;
    forall b: nat | Fits(usable, occupied, size, align, min, max, b) ensures candidate <= b {
      FitsFrom(usable, occupied, size, align, min, max, i, b);
      TakenFits(usable, occupied, size, align, min, max, start, candidate, b);
    }
  }
}
