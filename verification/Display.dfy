/// The three scan-out buffers of `src/ui.rs`: a cached image, the damage that each buffer still
/// lacks, partial copies and the rotation of the buffers.
module Display {
  import opened Bytes
  import opened Damage

  /// One pixel in the display's format.
  type Pixel = nat

  function Col(p: nat, stride: nat): nat { if stride == 0 then 0 else p % stride }

  function Row(p: nat, stride: nat): nat { if stride == 0 then 0 else p / stride }

  lemma RowSlice(stride: nat, row: nat, x: nat, width: nat, p: nat)
    requires x + width <= stride && stride > 0
    ensures row * stride + x <= p < row * stride + x + width <==> Row(p, stride) == row && x <= Col(p, stride) < x + width
  {
    assert p == Row(p, stride) * stride + Col(p, stride);
    if Row(p, stride) < row {
      ProductGrows(Row(p, stride) + 1, row, stride);
    } else if Row(p, stride) > row {
      ProductGrows(row + 1, Row(p, stride), stride);
    }
  }

  lemma RowFits(stride: nat, height: nat, row: nat, x: nat, width: nat)
    requires x + width <= stride && row < height
    ensures 0 <= row * stride && row * stride + x + width <= stride * height
  {
    ProductGrows(row + 1, height, stride);
    assert (row + 1) * stride == row * stride + stride;
    assert height * stride == stride * height;
  }

  /// Damage that stays small grows by no more than the boxes of the region.
  predicate Small(was: PendingDamage, now: PendingDamage, region: seq<Box>, newBuffer: bool) {
    && (newBuffer || was.Full? ==> now.Full?)
    && (!newBuffer && !was.Full? && CountOf(was) + |region| <= 64 ==>
          !now.Full? && AreaOf(now) <= AreaOf(was) + RegionArea(region))
  }

  /// ... and is then not copied as a full frame while it has fewer pixels.
  predicate Thrifty(was: PendingDamage, region: seq<Box>, newBuffer: bool, pixelSize: nat, width: nat, height: nat,
                    outcome: CopyOutcome)
  {
    && (newBuffer || was.Full? ==> outcome.mode.CopyFull?)
    && (!newBuffer && !was.Full? && CountOf(was) + |region| <= 64 && AreaOf(was) + RegionArea(region) < width * height ==>
          !outcome.mode.CopyFull? && outcome.copiedBytes <= (AreaOf(was) + RegionArea(region)) * pixelSize)
  }

  predicate PendingAt(d: PendingDamage, p: nat, stride: nat) { Pending(d, Col(p, stride), Row(p, stride)) }

  predicate HitAt(rects: seq<PixelRect>, p: nat, stride: nat) { Hit(rects, Col(p, stride), Row(p, stride)) }

  datatype CopyMode = CopyClean | CopyDamage | CopyFull(reason: FullCopyReason)

  datatype CopyOutcome = CopyOutcome(mode: CopyMode, rectCount: nat, copiedBytes: nat)

  /// The bytes of all the rectangles, counted with repetition; none when a 64-bit sum overflows.
  function RequestedBytes(rects: seq<PixelRect>, total: nat, pixelSize: nat): Option<nat> {
    if rects == [] then Some(total)
    else
      var pixels: nat := rects[0].width * rects[0].height;
      if pixels >= U64_LIMIT || pixels * pixelSize >= U64_LIMIT || total + pixels * pixelSize >= U64_LIMIT then None
      else RequestedBytes(rects[1..], total + pixels * pixelSize, pixelSize)
  }

  /// Rectangles that cost as much as the visible frame are copied as one full frame.
  predicate CostsFrame(rects: seq<PixelRect>, pixelSize: nat, width: nat, height: nat) {
    var requested := RequestedBytes(rects, 0, pixelSize);
    requested.None? || requested.value >= width * height * pixelSize
  }

  function ModeOf(damage: PendingDamage, pixelSize: nat, width: nat, height: nat): CopyMode {
    match damage
    case Full(reason) => CopyFull(reason)
    case Clean => CopyClean
    case Rects(rects) => if CostsFrame(rects, pixelSize, width, height) then CopyFull(DamageCost) else CopyDamage
  }

  /// When the bytes of the frame fit 64 bits, rectangles cost a frame exactly when they have as many pixels.
  lemma {:induction false} RequestedMeaning(rects: seq<PixelRect>, total: nat, pixelSize: nat)
    requires total < U64_LIMIT
    ensures
      var all := total + TotalArea(rects) * pixelSize;
      RequestedBytes(rects, total, pixelSize) == if all < U64_LIMIT then Some(all) else None
  {
    if rects != [] {
      var pixels, rest := rects[0].width * rects[0].height, TotalArea(rects[1..]);
      ProductFits(rects[0].width, rects[0].height);
      assert TotalArea(rects) * pixelSize == pixels * pixelSize + rest * pixelSize;
      ProductGrows(0, rest, pixelSize);
      ProductGrows(0, pixels, pixelSize);
      if total + pixels * pixelSize < U64_LIMIT {
        RequestedMeaning(rects[1..], total + pixels * pixelSize, pixelSize);
      }
    }
  }

  lemma CostMeaning(rects: seq<PixelRect>, pixelSize: nat, width: nat, height: nat)
    requires pixelSize > 0 && width * height * pixelSize < U64_LIMIT
    ensures CostsFrame(rects, pixelSize, width, height) <==> TotalArea(rects) >= width * height
    ensures !CostsFrame(rects, pixelSize, width, height) ==>
      RequestedBytes(rects, 0, pixelSize) == Some(TotalArea(rects) * pixelSize)
  {
    RequestedMeaning(rects, 0, pixelSize);
    var frame: nat := width * height;
    var area := TotalArea(rects);
    if area >= frame {
      ProductGrows(frame, area, pixelSize);
    } else {
      ProductGrows(area + 1, frame, pixelSize);
      assert (area + 1) * pixelSize == area * pixelSize + pixelSize;
    }
  }

  lemma SmallIsThrifty(was: PendingDamage, now: PendingDamage, region: seq<Box>, newBuffer: bool,
                       pixelSize: nat, width: nat, height: nat, outcome: CopyOutcome)
    requires pixelSize > 0 && width * height * pixelSize < U64_LIMIT && Small(was, now, region, newBuffer)
    requires outcome.mode == ModeOf(now, pixelSize, width, height)
    requires outcome.mode.CopyDamage? ==> Some(outcome.copiedBytes) == RequestedBytes(now.rects, 0, pixelSize)
    requires outcome.mode.CopyClean? ==> outcome.copiedBytes == 0
    ensures Thrifty(was, region, newBuffer, pixelSize, width, height, outcome)
  {
    hide TotalArea, RegionArea, RequestedBytes, CostsFrame;
    if now.Rects? {
      CostMeaning(now.rects, pixelSize, width, height);
    }
    if AreaOf(now) <= AreaOf(was) + RegionArea(region) {
      ProductGrows(AreaOf(now), AreaOf(was) + RegionArea(region), pixelSize);
    }
  }

  lemma GeometryFits(destination: nat, source: nat, pixelSize: nat, pitch: nat, width: nat, height: nat)
    requires pixelSize > 0 && Geometry(destination, source, pixelSize, pitch, width, height)
    ensures width * height * pixelSize < U64_LIMIT
  {
  }

  /// The sizes that `copy_pixels_to_drm` accepts.
  predicate Geometry(destination: nat, source: nat, pixelSize: nat, pitch: nat, width: nat, height: nat)
    requires pixelSize > 0
  {
    var stride := pitch / pixelSize;
    && pitch % pixelSize == 0 && width <= stride
    && stride * height <= destination && stride * height <= source
    && stride * height * pixelSize < U64_LIMIT && width * height * pixelSize < U64_LIMIT
  }

  /// `copy_pixels_to_drm`: the whole frame, or exactly the pending pixels, and only when every
  /// rectangle lies in the frame; a failed copy has written nothing but source pixels.
  method CopyPixels(destination: array<Pixel>, source: array<Pixel>, pixelSize: nat, pitch: u32,
                    width: u32, height: u32, damage: PendingDamage)
    returns (r: Result<CopyOutcome>)
    requires pixelSize > 0 && destination != source
    modifies destination
    ensures r.Ok? <==>
              && Geometry(destination.Length, source.Length, pixelSize, pitch, width, height)
              && (ModeOf(damage, pixelSize, width, height).CopyDamage? ==> AllWithin(damage.rects, width, height))
    ensures r.Ok? ==>
              var stride := pitch / pixelSize;
              && r.value.mode == ModeOf(damage, pixelSize, width, height)
              && forall p :: 0 <= p < destination.Length ==>
                   destination[p] ==
                   if p < stride * height && p < source.Length && (r.value.mode.CopyFull? || PendingAt(damage, p, stride))
                   then source[p] else old(destination[p])
    ensures r.Ok? && r.value.mode.CopyFull? ==>
              r.value.rectCount == 1 && r.value.copiedBytes == pitch / pixelSize * height * pixelSize
    ensures r.Ok? && r.value.mode.CopyDamage? ==>
              r.value.rectCount == |damage.rects| && Some(r.value.copiedBytes) == RequestedBytes(damage.rects, 0, pixelSize)
    ensures r.Ok? && r.value.mode.CopyClean? ==> r.value.rectCount == 0 && r.value.copiedBytes == 0
    ensures r.InvalidData? ==> forall p :: 0 <= p < destination.Length ==>
              destination[p] == old(destination[p]) || (p < source.Length && destination[p] == source[p])
  {
    hide Hit, RequestedBytes, Col, Row;
    if pitch % pixelSize != 0 {
      return InvalidData;
    }
    var stride := pitch / pixelSize;
    if width > stride {
      return InvalidData;
    }
    var frame := stride * height;
    if destination.Length < frame || source.Length < frame {
      return InvalidData;
    }
    if frame * pixelSize >= U64_LIMIT || width * height * pixelSize >= U64_LIMIT {
      return InvalidData;
    }
    match damage {
      case Full(reason) =>
        CopySlice(destination, source, 0, frame);
        return Ok(CopyOutcome(CopyFull(reason), 1, frame * pixelSize));
      case Clean =>
        return Ok(CopyOutcome(CopyClean, 0, 0));
      case Rects(rects) =>
        var requested := RequestedBytes(rects, 0, pixelSize);
        if requested.None? || requested.value >= width * height * pixelSize {
          CopySlice(destination, source, 0, frame);
          return Ok(CopyOutcome(CopyFull(DamageCost), 1, frame * pixelSize));
        }
        var copied := CopyRects(destination, source, stride, width, height, rects);
        if !copied {
          return InvalidData;
        }
        return Ok(CopyOutcome(CopyDamage, |rects|, requested.value));
    }
  }

  /// `copy_from_slice` on one range.
  method CopySlice(destination: array<Pixel>, source: array<Pixel>, start: nat, end: nat)
    requires destination != source && start <= end <= destination.Length && end <= source.Length
    modifies destination
    ensures forall p :: 0 <= p < destination.Length ==>
              destination[p] == if start <= p < end then source[p] else old(destination[p])
  {
    forall p | start <= p < end {
      destination[p] := source[p];
    }
  }

  /// One rectangle, row by row.
  method CopyRect(destination: array<Pixel>, source: array<Pixel>, stride: nat, height: nat, rect: PixelRect)
    requires destination != source && stride * height <= destination.Length && stride * height <= source.Length
    requires rect.x + rect.width <= stride && rect.y + rect.height <= height
    modifies destination
    ensures forall p :: 0 <= p < destination.Length ==>
              destination[p] == if p < source.Length && stride > 0 && In(rect, Col(p, stride), Row(p, stride))
                                then source[p] else old(destination[p])
  {
    hide Col, Row;
    var row := rect.y;
    while row < rect.y + rect.height
      invariant rect.y <= row <= rect.y + rect.height
      invariant forall p :: 0 <= p < destination.Length ==>
                  destination[p] ==
                  if p < source.Length && stride > 0 && rect.y <= Row(p, stride) < row
                     && rect.x <= Col(p, stride) < rect.x + rect.width
                  then source[p] else old(destination[p])
    {
      RowFits(stride, height, row, rect.x, rect.width);
      var start := row * stride + rect.x;
      CopySlice(destination, source, start, start + rect.width);
      if stride > 0 {
        forall p: nat | p < destination.Length
          ensures start <= p < start + rect.width <==>
                  Row(p, stride) == row && rect.x <= Col(p, stride) < rect.x + rect.width
        {
          RowSlice(stride, row, rect.x, rect.width, p);
        }
      }
      row := row + 1;
    }
  }

  /// The rectangles in order, up to one that leaves the frame.
  method CopyRects(destination: array<Pixel>, source: array<Pixel>, stride: nat, width: nat, height: nat,
                   rects: seq<PixelRect>)
    returns (ok: bool)
    requires destination != source && width <= stride
    requires stride * height <= destination.Length && stride * height <= source.Length
    modifies destination
    ensures ok <==> AllWithin(rects, width, height)
    ensures ok ==> forall p :: 0 <= p < destination.Length ==>
              destination[p] == if p < stride * height && HitAt(rects, p, stride) then source[p] else old(destination[p])
    ensures !ok ==> forall p :: 0 <= p < destination.Length ==>
              destination[p] == old(destination[p]) || (p < source.Length && destination[p] == source[p])
  {
    hide Col, Row;
    var i := 0;
    while i < |rects|
      invariant 0 <= i <= |rects|
      invariant AllWithin(rects[..i], width, height)
      invariant forall p :: 0 <= p < destination.Length ==>
                  destination[p] == if p < stride * height && HitAt(rects[..i], p, stride) then source[p] else old(destination[p])
    {
      var rect := rects[i];
      assert rects[..i + 1] == rects[..i] + [rect];
      assert rect in rects;
      if rect.x + rect.width > width || rect.y + rect.height > height {
        return false;
      }
      CopyRect(destination, source, stride, height, rect);
      forall p: nat | p < destination.Length
        ensures HitAt(rects[..i + 1], p, stride) <==> HitAt(rects[..i], p, stride) || In(rect, Col(p, stride), Row(p, stride))
        ensures In(rect, Col(p, stride), Row(p, stride)) && stride > 0 ==> p < stride * height
      {
        InFrame(stride, height, rect, p);
      }
      i := i + 1;
    }
    assert rects[..i] == rects;
    return true;
  }

  lemma InFrame(stride: nat, height: nat, rect: PixelRect, p: nat)
    requires rect.x + rect.width <= stride && rect.y + rect.height <= height
    ensures In(rect, Col(p, stride), Row(p, stride)) && stride > 0 ==> p < stride * height
  {
    if In(rect, Col(p, stride), Row(p, stride)) && stride > 0 {
      var row := Row(p, stride);
      RowSlice(stride, row, rect.x, rect.width, p);
      RowFits(stride, height, row, rect.x, rect.width);
    }
  }

  /// A scan-out buffer.
  class KmsBuffer {
    const id: nat
    const pixels: array<Pixel>
    var pendingDamage: PendingDamage

    /// `KmsBuffer::allocate`: nothing in a new buffer is known.
    constructor (id: nat, size: nat)
      ensures this.id == id && pixels.Length == size && fresh(pixels)
      ensures pendingDamage == Full(VirginBuffer)
    {
      this.id := id;
      pixels := new Pixel[size](_ => 0);
      pendingDamage := Full(VirginBuffer);
    }
  }

  /// The heap image after the renderer has run: it may change the pixels that it reports, the
  /// padding beyond the visible width, and everything when it was told that the buffer is new.
  function Painted(heap: seq<Pixel>, paint: seq<Pixel>, region: seq<Box>, newBuffer: bool, stride: nat, width: nat)
    : (image: seq<Pixel>)
    requires |paint| == |heap|
    ensures |image| == |heap|
  {
    seq(|heap|, p requires 0 <= p < |heap| =>
      if newBuffer || Col(p, stride) >= width || InRegion(region, Col(p, stride), Row(p, stride)) then paint[p] else heap[p])
  }

  /// An event read from the DRM device.
  datatype Event = PageFlip(crtc: nat) | OtherEvent

  /// What one `receive_events` call gives; after the last batch the call fails.
  type Batch = seq<Event>

  predicate FlipSeen(batches: seq<Batch>, crtc: nat) { exists b <- batches :: PageFlip(crtc) in b }

  class KmsDisplay {
    const crtc: nat
    const width: u32
    const height: u32
    const pixelSize: nat
    const pitch: u32
    const heap: array<Pixel>
    var front: KmsBuffer
    var back: KmsBuffer
    var inFlight: KmsBuffer
    var age: nat
    var posted: bool
    var pageFlipPending: bool

    // The display controller: the buffer that it scans out and the one queued to follow.
    var onScreen: Option<nat>
    var queued: Option<nat>

    ghost predicate Shape()
      reads this
    {
      && pixelSize > 0 && pitch % pixelSize == 0
      && heap.Length == pitch / pixelSize * height
      && front != back && front != inFlight && back != inFlight
      && front.id != back.id && front.id != inFlight.id && back.id != inFlight.id
      && front.pixels != back.pixels && front.pixels != inFlight.pixels && back.pixels != inFlight.pixels
      && heap != front.pixels && heap != back.pixels && heap != inFlight.pixels
    }

    /// The buffer agrees with the heap image wherever no damage is pending.
    ghost predicate InSync(b: KmsBuffer)
      requires pixelSize > 0
      reads this, heap, b, b.pixels
    {
      var stride := pitch / pixelSize;
      && Fitting(b.pendingDamage, width, height)
      && forall p ::
           (0 <= p < heap.Length && p < b.pixels.Length && Col(p, stride) < width
            && !PendingAt(b.pendingDamage, p, stride))
           ==> b.pixels[p] == heap[p]
    }

    /// The buffer shows the whole heap image.
    ghost predicate Shows(b: KmsBuffer)
      requires pixelSize > 0
      reads this, heap, b.pixels
    {
      forall p :: 0 <= p < heap.Length && p < b.pixels.Length && Col(p, pitch / pixelSize) < width ==>
        b.pixels[p] == heap[p]
    }

    ghost predicate ImagesValid()
      reads this, heap, front, back, inFlight, front.pixels, back.pixels, inFlight.pixels
    {
      Shape() && InSync(front) && InSync(back) && InSync(inFlight)
    }

    function Rotation(): Screen
      reads this, front, back, inFlight
    {
      Screen(front.id, back.id, inFlight.id, posted, pageFlipPending, onScreen, queued)
    }

    ghost predicate Valid()
      reads this, heap, front, back, inFlight, front.pixels, back.pixels, inFlight.pixels
    {
      ImagesValid() && Rotation().Valid()
    }

    /// `open_path`, once the buffers are allocated with equal pitches.
    constructor (crtc: nat, width: u32, height: u32, pixelSize: nat, pitch: u32, sizes: (nat, nat, nat))
      requires pixelSize > 0 && pitch % pixelSize == 0
      ensures Valid() && fresh(heap) && fresh(front) && fresh(back) && fresh(inFlight)
      ensures age == 0 && !posted
    {
      this.crtc, this.width, this.height, this.pixelSize, this.pitch := crtc, width, height, pixelSize, pitch;
      var f := new KmsBuffer(0, sizes.0);
      var b := new KmsBuffer(1, sizes.1);
      var i := new KmsBuffer(2, sizes.2);
      front, back, inFlight := f, b, i;
      heap := new Pixel[pitch / pixelSize * height](_ => 0);
      age, posted, pageFlipPending, onScreen, queued := 0, false, false, None, None;
    }

    ghost predicate Copyable(b: KmsBuffer)
      requires pixelSize > 0
      reads this
    {
      Geometry(b.pixels.Length, heap.Length, pixelSize, pitch, width, height)
    }

    method AddDamage(b: KmsBuffer, damage: PendingDamage)
      requires Fitting(b.pendingDamage, width, height) && Fitting(damage, width, height)
      modifies b`pendingDamage
      ensures Fitting(b.pendingDamage, width, height)
      ensures forall x: nat, y: nat ::
                Pending(old(b.pendingDamage), x, y) || Pending(damage, x, y) ==> Pending(b.pendingDamage, x, y)
      ensures damage.Full? || old(b.pendingDamage).Full? ==> b.pendingDamage.Full?
      ensures !damage.Full? && !old(b.pendingDamage).Full? && CountOf(old(b.pendingDamage)) + CountOf(damage) <= 64 ==>
                !b.pendingDamage.Full? && AreaOf(b.pendingDamage) <= AreaOf(old(b.pendingDamage)) + AreaOf(damage)
    {
      var d := Accumulate(b.pendingDamage, damage, width, height);
      b.pendingDamage := d;
    }

    /// The renderer draws into the heap image and every buffer takes note of the damage.
    method Paint(paint: seq<Pixel>, region: seq<Box>)
      requires ImagesValid() && |paint| == heap.Length
      modifies this`age, heap, front`pendingDamage, back`pendingDamage, inFlight`pendingDamage
      ensures ImagesValid() && age == 1
      ensures heap[..] == Painted(old(heap[..]), paint, region, old(age) == 0, pitch / pixelSize, width)
      ensures Small(old(back.pendingDamage), back.pendingDamage, region, old(age) == 0)
      ensures Small(old(front.pendingDamage), front.pendingDamage, region, old(age) == 0)
      ensures Small(old(inFlight.pendingDamage), inFlight.pendingDamage, region, old(age) == 0)
    {
      hide Col, Row, Hit, InRegion, Fitting, CountOf, AreaOf, RegionArea, MeetsFrame;
      var newBuffer := age == 0;
      var stride := pitch / pixelSize;
      age := 1;
      ghost var before := heap[..];
      var image := Painted(heap[..], paint, region, newBuffer, stride, width);
      forall p | 0 <= p < heap.Length {
        heap[p] := image[p];
      }
      var damage := FromPhysicalRegion(region, width, height, newBuffer);
      assert forall p: nat :: p < heap.Length && Col(p, stride) < width && heap[p] != before[p] ==> PendingAt(damage, p, stride) by {
        forall p: nat | p < heap.Length && Col(p, stride) < width && heap[p] != before[p] ensures PendingAt(damage, p, stride) {
          RowInHeap(stride, height, p);
        }
      }
      AddDamage(front, damage);
      AddDamage(back, damage);
      AddDamage(inFlight, damage);
    }

    /// `render`: afterwards the back buffer shows the whole image; a failure leaves the invariant intact,
    /// and only a failed mapping or mismatched sizes can make it fail. Up to 64 rectangles with fewer pixels
    /// than the frame are not copied as a full frame.
    method Render(paint: seq<Pixel>, region: seq<Box>, mapped: bool) returns (r: Result<CopyOutcome>)
      requires Valid() && |paint| == heap.Length
      modifies this`age, heap, front`pendingDamage, back`pendingDamage, inFlight`pendingDamage, back.pixels
      ensures Valid()
      ensures heap[..] == Painted(old(heap[..]), paint, region, old(age) == 0, pitch / pixelSize, width)
      ensures r.Ok? <==> mapped && Copyable(back)
      ensures r.Ok? ==> Shows(back) && back.pendingDamage == Clean
      ensures r.Ok? ==> Thrifty(old(back.pendingDamage), region, old(age) == 0, pixelSize, width, height, r.value)
    {
      ghost var was, newBuffer := back.pendingDamage, age == 0;
      Paint(paint, region);
      if !mapped {
        return InvalidData;
      }
      hide Col, Row, Hit, Geometry, ModeOf, Screen.Valid, Small, Thrifty;
      ghost var now := back.pendingDamage;
      r := CopyPixels(back.pixels, heap, pixelSize, pitch, width, height, back.pendingDamage);
      if r.InvalidData? {
        return;
      }
      back.pendingDamage := Clean;
      SmallIsThrifty(was, now, region, newBuffer, pixelSize, width, height, r.value) by {
        GeometryFits(back.pixels.Length, heap.Length, pixelSize, pitch, width, height);
      }
    }

    /// The controller reaches the vertical blank; a queued flip takes effect.
    method Vblank()
      requires Valid()
      modifies this`onScreen, this`queued
      ensures Valid() && Rotation() == old(Rotation()).FlipDone()
    {
      if queued.Some? {
        onScreen, queued := queued, None;
      }
    }

    /// `wait_for_page_flip`: reads batches until one holds a flip event of this controller, which
    /// the controller sends only after the flip has taken effect.
    method WaitForPageFlip(batches: seq<Batch>) returns (r: Result<()>)
      requires Valid()
      modifies this`onScreen, this`queued, this`pageFlipPending
      ensures Valid()
      ensures r.Ok? <==> (old(pageFlipPending) ==> FlipSeen(batches, crtc))
      ensures Rotation() == if r.Ok? then old(Rotation()).Waited() else old(Rotation())
    {
      if !pageFlipPending {
        return Ok(());
      }
      var i := 0;
      while i < |batches|
        invariant 0 <= i <= |batches|
        invariant forall b <- batches[..i] :: PageFlip(crtc) !in b
      {
        assert batches[..i + 1] == batches[..i] + [batches[i]];
        if PageFlip(crtc) in batches[i] {
          assert batches[i] in batches;
          Vblank();
          pageFlipPending := false;
          return Ok(());
        }
        i := i + 1;
      }
      assert batches[..i] == batches;
      return InvalidData;
    }

    /// `present`: the drawn buffer is handed to the controller and another becomes the back buffer.
    method Present(batches: seq<Batch>, submitted: bool) returns (r: Result<()>)
      requires Valid()
      modifies this`front, this`back, this`inFlight, this`posted, this`pageFlipPending, this`onScreen, this`queued
      ensures ImagesValid() && Rotation().BackIsHidden()
      ensures r.Ok? ==> Valid() && inFlight == old(back)
      ensures r.Ok? <==> submitted && (old(pageFlipPending) ==> FlipSeen(batches, crtc))
      ensures Rotation() ==
              if old(pageFlipPending) && !FlipSeen(batches, crtc) then old(Rotation())
              else old(Rotation()).Presented(submitted)
      ensures {front, back, inFlight} == old({front, back, inFlight})
    {
      var waited := WaitForPageFlip(batches);
      if waited.InvalidData? {
        return InvalidData;
      }
      back, front := front, back;
      front, inFlight := inFlight, front;
      if !submitted {
        return InvalidData;
      }
      if posted {
        queued, pageFlipPending := Some(inFlight.id), true;
      } else {
        onScreen, posted := Some(inFlight.id), true;
      }
      return Ok(());
    }

    /// `draw_if_needed` when the window needs a redraw: the buffer handed to the controller shows the
    /// whole image, and no pixel on screen or queued has been touched.
    method Draw(paint: seq<Pixel>, region: seq<Box>, mapped: bool, batches: seq<Batch>, submitted: bool)
      returns (r: Result<()>)
      requires Valid() && |paint| == heap.Length
      modifies this, heap, front`pendingDamage, back`pendingDamage, inFlight`pendingDamage, back.pixels
      ensures ImagesValid() && Rotation().BackIsHidden()
      ensures heap[..] == Painted(old(heap[..]), paint, region, old(age) == 0, pitch / pixelSize, width)
      ensures r.Ok? ==> Valid() && inFlight == old(back) && Shows(inFlight)
      ensures {front, back, inFlight} == old({front, back, inFlight})
    {
      var rendered := Render(paint, region, mapped);
      if rendered.InvalidData? {
        return InvalidData;
      }
      r := Present(batches, submitted);
    }

    /// `force_back_buffer_full_copy`.
    method ForceFullCopy(b: KmsBuffer, reason: FullCopyReason)
      requires Valid() && (b == front || b == back || b == inFlight)
      modifies b`pendingDamage
      ensures Valid() && b.pendingDamage == Full(reason)
    {
      b.pendingDamage := Full(reason);
    }

    /// `begin_copy_validation`, without the shadows: every buffer is to be copied in full.
    method SeedValidation()
      requires Valid()
      modifies front`pendingDamage, back`pendingDamage, inFlight`pendingDamage
      ensures Valid()
      ensures front.pendingDamage == back.pendingDamage == inFlight.pendingDamage == Full(ValidationSeed)
    {
      ForceFullCopy(front, ValidationSeed);
      ForceFullCopy(back, ValidationSeed);
      ForceFullCopy(inFlight, ValidationSeed);
    }

    /// Any run of the display, up to the first error, which ends the caller's loop.
    method Run(steps: seq<Step>) returns (ok: bool)
      requires Valid()
      requires forall s <- steps :: s.DrawFrame? ==> |s.paint| == heap.Length
      modifies this, heap, front, back, inFlight, front.pixels, back.pixels, inFlight.pixels
      ensures ImagesValid() && Rotation().BackIsHidden() && (ok ==> Valid())
    {
      ghost var buffers := {front, back, inFlight};
      ghost var arrays := {front.pixels, back.pixels, inFlight.pixels};
      var i := 0;
      while i < |steps|
        invariant 0 <= i <= |steps|
        invariant Valid()
        invariant {front, back, inFlight} == buffers
      {
        match steps[i] {
          case FlipHappens =>
            Vblank();
          case WaitFlip(batches) =>
            var waited := WaitForPageFlip(batches);
            if waited.InvalidData? {
              return false;
            }
          case DrawFrame(paint, region, mapped, batches, submitted) =>
            assert steps[i] in steps;
            var drawn := Draw(paint, region, mapped, batches, submitted);
            if drawn.InvalidData? {
              return false;
            }
          case ForceFull =>
            ForceFullCopy(back, ValidationFallback);
          case Seed =>
            SeedValidation();
        }
        i := i + 1;
      }
      return true;
    }
  }

  /// One step of the environment or of the caller's loop.
  datatype Step =
    | FlipHappens
    | WaitFlip(batches: seq<Batch>)
    | DrawFrame(paint: seq<Pixel>, region: seq<Box>, mapped: bool, flips: seq<Batch>, submitted: bool)
    | ForceFull
    | Seed

  lemma RowInHeap(stride: nat, height: nat, p: nat)
    requires p < stride * height
    ensures Row(p, stride) < height
  {
    if Row(p, stride) >= height {
      ProductGrows(height, Row(p, stride), stride);
    }
  }

  /// The roles of the three buffers and the state of the display controller.
  datatype Screen = Screen(
    front: nat, back: nat, inFlight: nat,
    posted: bool, flipPending: bool,
    onScreen: Option<nat>, queued: Option<nat>)
  {
    predicate BackIsHidden() { onScreen != Some(back) && queued != Some(back) }

    predicate Distinct() { front != back && front != inFlight && back != inFlight }

    /// Before the first mode set nothing is shown; a pending flip moves from the front buffer to the
    /// one in flight; otherwise the buffer in flight is on screen.
    predicate Valid() {
      && Distinct()
      && (!posted ==> !flipPending && onScreen.None? && queued.None?)
      && (posted && flipPending ==>
            (onScreen == Some(front) && queued == Some(inFlight)) || (onScreen == Some(inFlight) && queued.None?))
      && (posted && !flipPending ==> onScreen == Some(inFlight) && queued.None?)
    }

    function FlipDone(): Screen {
      if queued.Some? then this.(onScreen := queued, queued := None) else this
    }

    function Waited(): Screen {
      if flipPending then FlipDone().(flipPending := false) else this
    }

    /// The drawn buffer goes in flight, the one in flight to the front, the front one to the back.
    function Rotated(): Screen { this.(back := front, front := inFlight, inFlight := back) }

    function Submitted(): Screen {
      if posted then this.(queued := Some(inFlight), flipPending := true)
      else this.(onScreen := Some(inFlight), posted := true)
    }

    /// `present`, when the wait succeeds.
    function Presented(submitted: bool): Screen {
      var turned := Waited().Rotated();
      if submitted then turned.Submitted() else turned
    }
  }

  /// A vertical blank, or a present that is submitted or fails.
  datatype Move = Blank | Show(submitted: bool)

  /// The state after some moves; the first failed submission is the last move.
  function After(s: Screen, moves: seq<Move>): Screen
    decreases |moves|
  {
    if moves == [] then s
    else if moves[0].Blank? then After(s.FlipDone(), moves[1..])
    else if moves[0].submitted then After(s.Presented(true), moves[1..])
    else s.Presented(false)
  }

  /// However presents and vertical blanks interleave, the buffer about to be drawn is neither on
  /// screen nor queued.
  lemma {:induction false} AlwaysHidden(s: Screen, moves: seq<Move>)
    requires s.Valid()
    ensures After(s, moves).BackIsHidden()
    decreases |moves|
  {
    if moves != [] {
      PresentHidesBack(s, moves[0].Blank? || moves[0].submitted);
      if moves[0].Blank? {
        AlwaysHidden(s.FlipDone(), moves[1..]);
      } else if moves[0].submitted {
        AlwaysHidden(s.Presented(true), moves[1..]);
      }
    }
  }

  /// A present keeps the back buffer off the screen, also when it fails; after a success the
  /// invariant holds again.
  lemma PresentHidesBack(s: Screen, submitted: bool)
    requires s.Valid()
    ensures s.BackIsHidden()
    ensures s.Presented(submitted).BackIsHidden()
    ensures submitted ==> s.Presented(true).Valid()
  {
  }

  /// Going on after a failed submission is safe exactly when nothing had been posted yet: after a
  /// failed page flip the next present makes the visible buffer the back buffer.
  lemma AfterFailedFlip(s: Screen, submitted: bool)
    requires s.Valid()
    ensures s.Presented(false).Presented(submitted).BackIsHidden() <==> !s.posted
  {
    var failed := s.Presented(false);
    if s.posted {
      assert failed.onScreen == Some(failed.front) && !failed.flipPending;
    }
  }

  /// The three buffers before anything is shown.
  const FIRST_SCREEN := Screen(0, 1, 2, false, false, None, None)

  /// After one frame, going on after a failed page flip makes the visible buffer the back buffer.
  lemma VisibleAfterFailedFlip()
    ensures
      var shown := After(FIRST_SCREEN, [Show(true)]);
      && FIRST_SCREEN.Valid() && shown.Valid() && shown.posted
      && shown.Presented(false).Presented(true).onScreen == Some(1)
      && shown.Presented(false).Presented(true).back == 1
  {
    assert [Show(true)][1..] == [];
    assert After(FIRST_SCREEN, [Show(true)]) == FIRST_SCREEN.Presented(true);
  }
}
