/// The pending damage of a scan-out buffer: `PixelRect` and `PendingDamage` of `src/ui.rs`.
module Damage {
  import opened Bytes

  const MAX_PENDING_DAMAGE_RECTS := 64

  datatype PixelRect = PixelRect(x: u32, y: u32, width: u32, height: u32)

  predicate Spans(start: int, length: nat, p: int) { start <= p < start + length }

  predicate In(r: PixelRect, x: nat, y: nat) {
    Spans(r.x, r.width, x) && Spans(r.y, r.height, y)
  }

  predicate Within(r: PixelRect, width: nat, height: nat) {
    r.x + r.width <= width && r.y + r.height <= height
  }

  predicate AllWithin(rects: seq<PixelRect>, width: nat, height: nat) {
    forall r <- rects :: Within(r, width, height)
  }

  predicate Hit(rects: seq<PixelRect>, x: nat, y: nat) { exists r <- rects :: In(r, x, y) }

  /// Saturating 64-bit arithmetic.
  function Saturate(n: nat): (r: u64)
    ensures r <= n && (n < U64_LIMIT ==> r == n)
  {
    if n >= U64_LIMIT then U64_LIMIT - 1 else n
  }

  function Area(r: PixelRect): u64 { Saturate(r.width * r.height) }

  /// `merge_if_not_more_expensive`.
  function Merge(r: PixelRect, s: PixelRect): Option<PixelRect> {
    var x, y := Min(r.x, s.x), Min(r.y, s.y);
    var width := Max(r.x + r.width, s.x + s.width) - x;
    var height := Max(r.y + r.height, s.y + s.height) - y;
    if Saturate(width * height) > Saturate(Area(r) + Area(s)) then None
    else if width >= U32_LIMIT || height >= U32_LIMIT then None
    else Some(PixelRect(x, y, width, height))
  }

  lemma ProductGrows(x: nat, y: nat, z: nat)
    requires x <= y
    ensures x * z <= y * z
  {
    assert y * z == x * z + (y - x) * z;
  }

  lemma ProductFits(x: u32, y: u32)
    ensures 0 <= x * y < U64_LIMIT
  {
    ProductGrows(x, U32_LIMIT, y);
  }

  /// A merge covers both, leaves no frame that held both, and is no larger than the two together.
  lemma MergeLaws(r: PixelRect, s: PixelRect)
    requires Merge(r, s).Some?
    ensures
      var m := Merge(r, s).value;
      && (forall x: nat, y: nat :: In(r, x, y) || In(s, x, y) ==> In(m, x, y))
      && (forall w: nat, h: nat :: Within(r, w, h) && Within(s, w, h) ==> Within(m, w, h))
      && Area(m) <= Area(r) + Area(s)
  {
    var m := Merge(r, s).value;
    ProductFits(m.width, m.height);
  }

  /// Two rectangles are merged exactly when the smallest rectangle around both has no more pixels than the
  /// two together, and sides of 32 bits.
  lemma MergeExact(r: PixelRect, s: PixelRect)
    ensures
      var left, top := if r.x < s.x then r.x else s.x, if r.y < s.y then r.y else s.y;
      var right := if r.x + r.width > s.x + s.width then r.x + r.width else s.x + s.width;
      var bottom := if r.y + r.height > s.y + s.height then r.y + r.height else s.y + s.height;
      Merge(r, s) ==
        if right - left < U32_LIMIT && bottom - top < U32_LIMIT
           && (right - left) * (bottom - top) <= r.width * r.height + s.width * s.height
        then Some(PixelRect(left, top, right - left, bottom - top)) else None
  {
    ProductFits(r.width, r.height);
    ProductFits(s.width, s.height);
    var width := Max(r.x + r.width, s.x + s.width) - Min(r.x, s.x);
    var height := Max(r.y + r.height, s.y + s.height) - Min(r.y, s.y);
    if width < U32_LIMIT && height < U32_LIMIT {
      ProductFits(width, height);
    }
  }

  /// The pixels of a list of rectangles, counted with repetition.
  function TotalArea(rects: seq<PixelRect>): nat {
    if rects == [] then 0 else Area(rects[0]) + TotalArea(rects[1..])
  }

  lemma {:induction false} TotalAreaConcat(a: seq<PixelRect>, b: seq<PixelRect>)
    ensures TotalArea(a + b) == TotalArea(a) + TotalArea(b)
  {
    if a == [] {
      assert a + b == b;
    } else {
      TotalAreaConcat(a[1..], b);
      assert (a + b)[1..] == a[1..] + b;
    }
  }

  lemma TotalAreaOne(r: PixelRect)
    ensures TotalArea([r]) == Area(r)
  {
  }

  /// `Vec::swap_remove`.
  function SwapRemove(rects: seq<PixelRect>, i: nat): (rest: seq<PixelRect>)
    requires i < |rects|
    ensures |rest| == |rects| - 1
  {
    var last := |rects| - 1;
    if i == last then rects[..last] else rects[..i] + [rects[last]] + rects[i + 1..last]
  }

  lemma SwapRemoveMembers(rects: seq<PixelRect>, i: nat)
    requires i < |rects|
    ensures forall r <- rects :: r == rects[i] || r in SwapRemove(rects, i)
    ensures forall r <- SwapRemove(rects, i) :: r in rects
  {
    var last, rest := |rects| - 1, SwapRemove(rects, i);
    forall k | 0 <= k < |rects| && k != i ensures rects[k] in rest {
      if k < i {
        assert rest[k] == rects[k];
      } else if k == last {
        assert rest[i] == rects[last];
      } else {
        assert rest[k] == rects[k];
      }
    }
  }

  lemma SplitAt(rects: seq<PixelRect>, i: nat)
    requires i < |rects| - 1
    ensures rects == rects[..i] + [rects[i]] + rects[i + 1..|rects| - 1] + [rects[|rects| - 1]]
  {
  }

  lemma SplitLast(rects: seq<PixelRect>)
    requires rects != []
    ensures rects == rects[..|rects| - 1] + [rects[|rects| - 1]]
  {
  }

  lemma TotalArea4(a: seq<PixelRect>, r: PixelRect, c: seq<PixelRect>, z: PixelRect)
    ensures TotalArea(a + [r] + c + [z]) == TotalArea(a) + Area(r) + TotalArea(c) + Area(z)
    ensures TotalArea(a + [z] + c) == TotalArea(a) + Area(z) + TotalArea(c)
    ensures TotalArea(a + [r]) == TotalArea(a) + Area(r)
  {
    hide Area, TotalArea;
    TotalAreaConcat(a + [r] + c, [z]);
    TotalAreaConcat(a + [r], c);
    TotalAreaConcat(a, [r]);
    TotalAreaConcat(a + [z], c);
    TotalAreaConcat(a, [z]);
    TotalAreaOne(r);
    TotalAreaOne(z);
  }

  lemma AreaSwapped(rects: seq<PixelRect>, rest: seq<PixelRect>,
                    a: seq<PixelRect>, r: PixelRect, c: seq<PixelRect>, z: PixelRect)
    requires rects == a + [r] + c + [z] && rest == a + [z] + c
    ensures TotalArea(rest) + Area(r) == TotalArea(rects)
  {
    hide *;
    TotalArea4(a, r, c, z);
  }

  lemma SwapRemoveInside(rects: seq<PixelRect>, i: nat)
    requires i < |rects| - 1
    ensures SwapRemove(rects, i) == rects[..i] + [rects[|rects| - 1]] + rects[i + 1..|rects| - 1]
  {
  }

  lemma SwapRemoveArea(rects: seq<PixelRect>, i: nat)
    requires i < |rects|
    ensures TotalArea(SwapRemove(rects, i)) + Area(rects[i]) == TotalArea(rects)
  {
    var last := |rects| - 1;
    if i == last {
      SplitLast(rects);
      hide Area, TotalArea;
      TotalArea4(rects[..i], rects[i], [], rects[i]);
    } else {
      SwapRemoveInside(rects, i);
      SplitAt(rects, i);
      hide *;
      AreaSwapped(rects, SwapRemove(rects, i), rects[..i], rects[i], rects[i + 1..last], rects[last]);
    }
  }

  /// `push_coalesced_rect`: what the list and the candidate cover stays covered, the frame and the
  /// total area do not grow, the new rectangle merges with none of the others, and the list is full
  /// when the push fails.
  method PushCoalesced(rects: seq<PixelRect>, rect: PixelRect, ghost width: nat, ghost height: nat)
    returns (ok: bool, out: seq<PixelRect>)
    requires AllWithin(rects, width, height) && Within(rect, width, height)
    ensures AllWithin(out, width, height)
    ensures ok ==> forall x: nat, y: nat :: Hit(rects, x, y) || In(rect, x, y) ==> Hit(out, x, y)
    ensures ok ==> 0 < |out| <= MAX_PENDING_DAMAGE_RECTS && |out| <= |rects| + 1
    ensures ok ==> TotalArea(out) <= TotalArea(rects) + Area(rect)
    ensures ok ==> forall i :: 0 <= i < |out| - 1 ==> Merge(out[|out| - 1], out[i]).None?
    ensures !ok ==> MAX_PENDING_DAMAGE_RECTS <= |out| <= |rects|
  {
    hide Merge, Area, In, Within, TotalArea, SwapRemove;
    out := rects;
    var candidate := rect;
    var index := 0;
    while index < |out|
      invariant 0 <= index <= |out| <= |rects|
      invariant AllWithin(out, width, height) && Within(candidate, width, height)
      invariant TotalArea(out) + Area(candidate) <= TotalArea(rects) + Area(rect)
      invariant forall i :: 0 <= i < index ==> Merge(candidate, out[i]).None?
      invariant forall x: nat, y: nat :: Hit(rects, x, y) || In(rect, x, y) ==> Hit(out, x, y) || In(candidate, x, y)
      decreases |out|, |out| - index
    {
      var merged := Merge(candidate, out[index]);
      if merged.Some? {
        MergeLaws(candidate, out[index]);
        SwapRemoveMembers(out, index);
        SwapRemoveArea(out, index);
        candidate := merged.value;
        out := SwapRemove(out, index);
        index := 0;
      } else {
        index := index + 1;
      }
    }
    if |out| >= MAX_PENDING_DAMAGE_RECTS {
      return false, out;
    }
    TotalAreaConcat(out, [candidate]);
    TotalAreaOne(candidate);
    assert forall r :: r in out + [candidate] <==> r in out || r == candidate;
    out := out + [candidate];
    ok := true;
  }

  // Clipping.

  type i32 = x: int | -0x8000_0000 <= x < 0x8000_0000

  function Clamp(x: int, limit: nat): (r: nat)
    ensures r <= limit
  {
    if x < 0 then 0 else if x > limit then limit else x
  }

  /// `clipped_axis`: exactly the coordinates of the box that lie in the frame; none when there are none.
  function ClippedAxis(origin: i32, length: u32, limit: u32): (r: Option<(u32, u32)>)
    ensures r.Some? ==> r.value.1 > 0 && forall p: nat ::
                          Spans(r.value.0, r.value.1, p) <==> p < limit && Spans(origin, length, p)
    ensures r.None? ==> forall p: nat :: p < limit ==> !Spans(origin, length, p)
  {
    var start, end := Clamp(origin, limit), Clamp(origin + length, limit);
    if end > start then Some((start, end - start)) else None
  }

  /// A box of the region that the renderer reports.
  datatype Box = Box(x: i32, y: i32, width: u32, height: u32)

  predicate InBox(b: Box, x: int, y: int) {
    Spans(b.x, b.width, x) && Spans(b.y, b.height, y)
  }

  predicate InRegion(region: seq<Box>, x: int, y: int) { exists b <- region :: InBox(b, x, y) }

  datatype FullCopyReason =
    VirginBuffer | NewRenderBuffer | TooManyRects | DamageCost | ValidationSeed | ValidationFallback

  datatype PendingDamage = Clean | Rects(rects: seq<PixelRect>) | Full(reason: FullCopyReason)

  /// Is this pixel pending?
  predicate Pending(d: PendingDamage, x: nat, y: nat) {
    d.Full? || (d.Rects? && Hit(d.rects, x, y))
  }

  /// How many rectangles are pending, and how many pixels they have, counted with repetition.
  function CountOf(d: PendingDamage): nat { if d.Rects? then |d.rects| else 0 }

  function AreaOf(d: PendingDamage): nat { if d.Rects? then TotalArea(d.rects) else 0 }

  /// The pixels of the boxes, counted with repetition, in the frame or not.
  function RegionArea(region: seq<Box>): nat {
    if region == [] then 0
    else RegionArea(region[..|region| - 1]) + region[|region| - 1].width * region[|region| - 1].height
  }

  ghost predicate MeetsFrame(region: seq<Box>, width: nat, height: nat) {
    exists x: nat, y: nat :: x < width && y < height && InRegion(region, x, y)
  }

  /// What accumulated damage always is: in the frame, and at most 64 rectangles.
  predicate Fitting(d: PendingDamage, width: nat, height: nat) {
    d.Rects? ==> AllWithin(d.rects, width, height) && 0 < |d.rects| <= MAX_PENDING_DAMAGE_RECTS
  }

  /// `PendingDamage::from_physical_region`: every pixel of the frame that the region contains is pending; a
  /// full copy takes more than 64 boxes, and the rectangles have no more pixels than the boxes.
  method FromPhysicalRegion(region: seq<Box>, width: u32, height: u32, newBuffer: bool) returns (d: PendingDamage)
    ensures Fitting(d, width, height)
    ensures newBuffer ==> d == Full(NewRenderBuffer)
    ensures forall x: nat, y: nat :: x < width && y < height && InRegion(region, x, y) ==> Pending(d, x, y)
    ensures d.Clean? <==> !newBuffer && !MeetsFrame(region, width, height)
    ensures d.Full? && !newBuffer ==> d.reason == TooManyRects && |region| > 64
    ensures CountOf(d) <= |region| && AreaOf(d) <= RegionArea(region)
  {
    if newBuffer {
      return Full(NewRenderBuffer);
    }
    hide In, Within, InBox, Merge, Area, TotalArea, RegionArea, ClippedAxis;
    var rects: seq<PixelRect> := [];
    var i := 0;
    while i < |region|
      invariant 0 <= i <= |region|
      invariant AllWithin(rects, width, height) && |rects| <= MAX_PENDING_DAMAGE_RECTS && |rects| <= i
      invariant TotalArea(rects) <= RegionArea(region[..i])
      invariant rects != [] ==> MeetsFrame(region, width, height)
      invariant forall x: nat, y: nat ::
        x < width && y < height && InRegion(region[..i], x, y) ==> Hit(rects, x, y)
    {
      var b := region[i];
      i := i + 1;
      assert forall x: nat, y: nat :: InRegion(region[..i], x, y) ==> InRegion(region[..i - 1], x, y) || InBox(b, x, y) by {
        assert region[..i] == region[..i - 1] + [b];
      }
      RegionGrows(region, i);
      var clippedX := ClippedAxis(b.x, b.width, width);
      if clippedX.None? {
        BoxOutside(b, width, height);
        continue;
      }
      var clippedY := ClippedAxis(b.y, b.height, height);
      if clippedY.None? {
        BoxOutside(b, width, height);
        continue;
      }
      var rect := PixelRect(clippedX.value.0, clippedY.value.0, clippedX.value.1, clippedY.value.1);
      BoxClipped(b, width, height);
      BoxArea(b, width, height);
      assert MeetsFrame(region, width, height) by {
        ClippedMeets(region, i - 1, width, height);
      }
      var ok, out := PushCoalesced(rects, rect, width, height);
      if !ok {
        return Full(TooManyRects);
      }
      rects := out;
    }
    assert region[..i] == region;
    if rects == [] {
      return Clean;
    }
    return Rects(rects);
  }

  lemma BoxOutside(b: Box, width: u32, height: u32)
    requires ClippedAxis(b.x, b.width, width).None? || ClippedAxis(b.y, b.height, height).None?
    ensures forall x: nat, y: nat :: x < width && y < height ==> !InBox(b, x, y)
  {
  }

  lemma BoxClipped(b: Box, width: u32, height: u32)
    requires ClippedAxis(b.x, b.width, width).Some? && ClippedAxis(b.y, b.height, height).Some?
    ensures
      var h, v := ClippedAxis(b.x, b.width, width).value, ClippedAxis(b.y, b.height, height).value;
      var rect := PixelRect(h.0, v.0, h.1, v.1);
      && Within(rect, width, height)
      && forall x: nat, y: nat :: In(rect, x, y) <==> x < width && y < height && InBox(b, x, y)
  {
  }

  lemma RegionGrows(region: seq<Box>, i: nat)
    requires 0 < i <= |region|
    ensures RegionArea(region[..i]) == RegionArea(region[..i - 1]) + region[i - 1].width * region[i - 1].height
    ensures RegionArea(region[..i - 1]) <= RegionArea(region[..i])
  {
    assert region[..i][..i - 1] == region[..i - 1];
    ProductFits(region[i - 1].width, region[i - 1].height);
  }

  lemma BoxArea(b: Box, width: u32, height: u32)
    requires ClippedAxis(b.x, b.width, width).Some? && ClippedAxis(b.y, b.height, height).Some?
    ensures
      var h, v := ClippedAxis(b.x, b.width, width).value, ClippedAxis(b.y, b.height, height).value;
      Area(PixelRect(h.0, v.0, h.1, v.1)) <= b.width * b.height
  {
    var h, v := ClippedAxis(b.x, b.width, width).value, ClippedAxis(b.y, b.height, height).value;
    var rect := PixelRect(h.0, v.0, h.1, v.1);
    ProductFits(rect.width, rect.height);
    ProductGrows(rect.width, b.width, rect.height);
    ProductGrows(rect.height, b.height, b.width);
  }

  lemma ClippedMeets(region: seq<Box>, k: nat, width: u32, height: u32)
    requires k < |region| && ClippedAxis(region[k].x, region[k].width, width).Some?
    requires ClippedAxis(region[k].y, region[k].height, height).Some?
    ensures MeetsFrame(region, width, height)
  {
    var b := region[k];
    var x, y := ClippedAxis(b.x, b.width, width).value.0, ClippedAxis(b.y, b.height, height).value.0;
    assert Spans(x, ClippedAxis(b.x, b.width, width).value.1, x) && Spans(y, ClippedAxis(b.y, b.height, height).value.1, y);
    assert b in region && InBox(b, x, y);
    assert InRegion(region, x, y);
  }

  /// `PendingDamage::accumulate`: pixels pending before, and pixels newly damaged, are pending after; a full
  /// copy of rectangles takes more than 64 of them, and the total of their pixels does not grow.
  method Accumulate(current: PendingDamage, damage: PendingDamage, ghost width: nat, ghost height: nat)
    returns (d: PendingDamage)
    requires Fitting(current, width, height) && Fitting(damage, width, height)
    ensures Fitting(d, width, height)
    ensures forall x: nat, y: nat :: Pending(current, x, y) || Pending(damage, x, y) ==> Pending(d, x, y)
    ensures damage.Clean? || current.Full? ==> d == current
    ensures damage.Full? && !current.Full? ==> d == damage
    ensures d.Clean? <==> current.Clean? && damage.Clean?
    ensures d.Full? && !current.Full? && !damage.Full? ==> d.reason == TooManyRects && CountOf(current) + CountOf(damage) > 64
    ensures !d.Full? ==> CountOf(d) <= CountOf(current) + CountOf(damage) && AreaOf(d) <= AreaOf(current) + AreaOf(damage)
  {
    if current.Full? || damage.Clean? {
      return current;
    }
    if damage.Full? {
      return damage;
    }
    hide In, Within, Merge, Area, TotalArea;
    var rects := if current.Clean? then [] else current.rects;
    ghost var before := rects;
    var i := 0;
    while i < |damage.rects|
      invariant 0 <= i <= |damage.rects|
      invariant AllWithin(rects, width, height) && |rects| <= MAX_PENDING_DAMAGE_RECTS
      invariant i > 0 ==> rects != []
      invariant |rects| <= |before| + i && TotalArea(rects) <= TotalArea(before) + TotalArea(damage.rects[..i])
      invariant forall x: nat, y: nat :: Hit(before, x, y) || Hit(damage.rects[..i], x, y) ==> Hit(rects, x, y)
    {
      var rect := damage.rects[i];
      assert rect in damage.rects;
      assert damage.rects[..i + 1] == damage.rects[..i] + [rect];
      TotalAreaConcat(damage.rects[..i], [rect]);
      TotalAreaOne(rect);
      var ok, out := PushCoalesced(rects, rect, width, height);
      if !ok {
        return Full(TooManyRects);
      }
      rects := out;
      i := i + 1;
    }
    assert damage.rects[..i] == damage.rects;
    return Rects(rects);
  }
}
