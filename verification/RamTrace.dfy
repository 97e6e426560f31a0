/// The triplicated RAM trace: the writer of `pocketpreboot/src/ram_trace.rs` and the host decoder
/// `tools/preboot_ram_trace.py`.
module RamTrace {
  import opened Bytes

  const PAGE: nat := 4096
  const TEXT: nat := 128
  const CAPACITY: nat := PAGE - TEXT
  const STAGE_OFFSET: nat := 8
  const LENGTH_OFFSET: nat := 16
  const CHECKSUM_OFFSET: nat := 72
  const MAGIC: bytes := Ascii("PBTRACE1")

  // FNV-1a.

  function XorByte(x: byte, y: byte): byte { ((x as bv8) ^ (y as bv8)) as int }

  /// One step: the byte only meets the low eight bits, and the product wraps.
  function Mix(value: u64, b: byte): u64 {
    (value - value % 0x100 + XorByte(value % 0x100, b)) * 0x100000001b3 % U64_LIMIT
  }

  function Checksum(text: bytes): u64 {
    if text == [] then 0xcbf29ce484222325 else Mix(Checksum(text[..|text| - 1]), text[|text| - 1])
  }

  // One page.

  function LengthOf(page: bytes): u64
    requires |page| >= TEXT
  {
    Le64(page[LENGTH_OFFSET..LENGTH_OFFSET + 8])
  }

  function StageOf(page: bytes): u64
    requires |page| >= TEXT
  {
    Le64(page[STAGE_OFFSET..STAGE_OFFSET + 8])
  }

  function StoredChecksum(page: bytes): u64
    requires |page| >= TEXT
  {
    Le64(page[CHECKSUM_OFFSET..CHECKSUM_OFFSET + 8])
  }

  /// The text that the decoder accepts from a page, if it accepts one.
  function PageText(page: bytes): Option<bytes>
    requires |page| >= TEXT
  {
    if page[..8] != MAGIC || LengthOf(page) > |page| - TEXT then None
    else
      var text := page[TEXT..TEXT + LengthOf(page)];
      if Checksum(text) == StoredChecksum(page) then Some(text) else None
  }

  /// The page records this text.
  predicate Records(page: bytes, text: bytes) {
    |page| == PAGE && PageText(page) == Some(text)
  }

  lemma RecordedLength(page: bytes, text: bytes)
    requires Records(page, text)
    ensures |page| == PAGE
    ensures |text| == LengthOf(page) <= CAPACITY && page[TEXT..TEXT + |text|] == text && StoredChecksum(page) == Checksum(text)
    ensures page[..8] == MAGIC
  {
    hide LengthOf, Checksum, StoredChecksum, Bytes.Ascii;
  }

  // The writer.

  /// A store into one page.
  function Store(page: bytes, offset: nat, data: bytes): (r: bytes)
    requires offset + |data| <= |page|
    ensures |r| == |page|
    ensures forall i :: 0 <= i < |page| ==> r[i] == if offset <= i < offset + |data| then data[i - offset] else page[i]
  {
    page[..offset] + data + page[offset + |data|..]
  }

  lemma StoreSlice(page: bytes, offset: nat, data: bytes, start: nat, end: nat)
    requires offset + |data| <= |page| && start <= end <= |page|
    ensures end <= offset || offset + |data| <= start ==> Store(page, offset, data)[start..end] == page[start..end]
    ensures start == offset && end == offset + |data| ==> Store(page, offset, data)[start..end] == data
  {
    var out := Store(page, offset, data);
    if end <= offset || offset + |data| <= start {
      var x, y := out[start..end], page[start..end];
      assert forall i :: 0 <= i < |y| ==> x[i] == y[i];
    }
  }

  /// `write_byte` on one page, for the length and checksum read from the first.
  function WriteToPage(page: bytes, used: nat, checksum: u64, b: byte): (r: bytes)
    requires |page| == PAGE && used < CAPACITY
    ensures |r| == PAGE
  {
    Store(Store(Store(page, TEXT + used, [b]), CHECKSUM_OFFSET, ToLe64(checksum)), LENGTH_OFFSET, ToLe64(used + 1))
  }

  lemma ChecksumSnoc(text: bytes, b: byte)
    ensures Checksum(text + [b]) == Mix(Checksum(text), b)
  {
    hide Mix;
    assert (text + [b])[..|text|] == text;
  }

  /// The slices of a written page.
  lemma WrittenSlices(page: bytes, used: nat, checksum: u64, b: byte)
    requires |page| == PAGE && used < CAPACITY
    ensures
      var out := WriteToPage(page, used, checksum, b);
      && out[..8] == page[..8]
      && out[STAGE_OFFSET..STAGE_OFFSET + 8] == page[STAGE_OFFSET..STAGE_OFFSET + 8]
      && out[LENGTH_OFFSET..LENGTH_OFFSET + 8] == ToLe64(used + 1)
      && out[CHECKSUM_OFFSET..CHECKSUM_OFFSET + 8] == ToLe64(checksum)
      && out[TEXT..TEXT + (used + 1)] == page[TEXT..TEXT + used] + [b]
  {
    hide Store, Bytes.ToLe64;
    var word, count := ToLe64(checksum), ToLe64(used + 1);
    var p1 := Store(page, TEXT + used, [b]);
    var p2 := Store(p1, CHECKSUM_OFFSET, word);
    StoreSlice(page, TEXT + used, [b], 0, 8);
    StoreSlice(p1, CHECKSUM_OFFSET, word, 0, 8);
    StoreSlice(p2, LENGTH_OFFSET, count, 0, 8);
    StoreSlice(page, TEXT + used, [b], STAGE_OFFSET, STAGE_OFFSET + 8);
    StoreSlice(p1, CHECKSUM_OFFSET, word, STAGE_OFFSET, STAGE_OFFSET + 8);
    StoreSlice(p2, LENGTH_OFFSET, count, STAGE_OFFSET, STAGE_OFFSET + 8);
    StoreSlice(p2, LENGTH_OFFSET, count, LENGTH_OFFSET, LENGTH_OFFSET + 8);
    StoreSlice(p1, CHECKSUM_OFFSET, word, CHECKSUM_OFFSET, CHECKSUM_OFFSET + 8);
    StoreSlice(p2, LENGTH_OFFSET, count, CHECKSUM_OFFSET, CHECKSUM_OFFSET + 8);
    WrittenTail(page, used, b);
    StoreSlice(p1, CHECKSUM_OFFSET, word, TEXT, TEXT + (used + 1));
    StoreSlice(p2, LENGTH_OFFSET, count, TEXT, TEXT + (used + 1));
  }

  lemma WrittenTail(page: bytes, used: nat, b: byte)
    requires |page| == PAGE && used < CAPACITY
    ensures Store(page, TEXT + used, [b])[TEXT..TEXT + (used + 1)] == page[TEXT..TEXT + used] + [b]
  {
  }

  lemma RecordsIf(page: bytes, text: bytes)
    requires |page| == PAGE && |text| <= CAPACITY && page[..8] == MAGIC && page[TEXT..TEXT + |text|] == text
    requires page[LENGTH_OFFSET..LENGTH_OFFSET + 8] == ToLe64(|text|)
    requires page[CHECKSUM_OFFSET..CHECKSUM_OFFSET + 8] == ToLe64(Checksum(text))
    ensures Records(page, text)
  {
    hide Checksum, Bytes.Le64, Bytes.ToLe64, Bytes.Ascii;
    Le64ToLe64(|text|);
    Le64ToLe64(Checksum(text));
  }

  /// A written page records one more byte and keeps its stage.
  lemma WrittenRecords(page: bytes, text: bytes, b: byte)
    requires Records(page, text) && |text| < CAPACITY
    ensures Records(WriteToPage(page, |text|, Mix(Checksum(text), b), b), text + [b])
    ensures StageOf(WriteToPage(page, |text|, Mix(Checksum(text), b), b)) == StageOf(page)
  {
    hide Mix, Checksum, Store, Bytes.Le64, Bytes.ToLe64, Bytes.Ascii, WriteToPage, Records;
    RecordedLength(page, text);
    WrittenSlices(page, |text|, Mix(Checksum(text), b), b);
    ChecksumSnoc(text, b);
    RecordsIf(WriteToPage(page, |text|, Mix(Checksum(text), b), b), text + [b]);
  }

  /// No byte changes but the length, the checksum and these bytes of the text area.
  predicate Kept(was: bytes, now: bytes, start: nat, end: nat) {
    && |was| == |now| == 4096
    && forall i :: 0 <= i < 4096 && !(16 <= i < 24) && !(72 <= i < 80) && !(128 + start <= i < 128 + end) ==> now[i] == was[i]
  }

  lemma KeptTrans(a: bytes, b: bytes, c: bytes, start: nat, middle: nat, end: nat)
    requires Kept(a, b, start, middle) && Kept(b, c, middle, end) && start <= middle <= end
    ensures Kept(a, c, start, end)
  {
  }

  lemma KeptAll(page: bytes, n: nat)
    requires |page| == PAGE
    ensures Kept(page, page, n, n)
  {
  }

  lemma WrittenKeeps(page: bytes, used: nat, checksum: u64, b: byte)
    requires |page| == PAGE && used < CAPACITY
    ensures Kept(page, WriteToPage(page, used, checksum, b), used, used + 1)
  {
    hide Bytes.ToLe64;
  }

  function Truncate(text: bytes): bytes { if |text| <= CAPACITY then text else text[..CAPACITY] }

  /// The three pages.
  class Trace {
    const memory: array<byte>

    constructor (memory: array<byte>)
      ensures this.memory == memory
    {
      this.memory := memory;
    }

    ghost predicate Shape() { memory.Length == 3 * PAGE }

    function Page(copy: nat): (p: bytes)
      requires Shape() && copy < 3
      reads memory
      ensures |p| == PAGE
    {
      memory[copy * PAGE..copy * PAGE + PAGE]
    }

    /// All three copies record this text and stage, and agree in header and text.
    ghost predicate Holds(text: bytes, stage: u64)
      reads memory
    {
      && Shape()
      && (forall copy :: 0 <= copy < 3 ==> Records(Page(copy), text) && StageOf(Page(copy)) == stage)
      && forall copy :: 0 <= copy < 3 ==> SamePrefix(Page(0), Page(copy), TEXT + |text|)
    }

    ghost function Copies(): (pages: seq<bytes>)
      requires Shape()
      reads memory
      ensures |pages| == 3 && forall k :: 0 <= k < 3 ==> |pages[k]| == PAGE
    {
      [Page(0), Page(1), Page(2)]
    }

    method StoreInCopy(copy: nat, offset: nat, data: bytes)
      requires Shape() && copy < 3 && offset + |data| <= PAGE
      modifies memory
      ensures Page(copy) == Store(old(Page(copy)), offset, data)
      ensures forall other :: 0 <= other < 3 && other != copy ==> Page(other) == old(Page(other))
    {
      var start := copy * PAGE + offset;
      forall i | 0 <= i < |data| {
        memory[start + i] := data[i];
      }
      assert forall i :: start <= i < start + |data| ==> memory[i] == data[i - start] by {
        forall i | start <= i < start + |data| ensures memory[i] == data[i - start] {
          assert memory[start + (i - start)] == data[i - start];
        }
      }
      assert Page(copy) == Store(old(Page(copy)), offset, data);
      forall other | 0 <= other < 3 && other != copy ensures Page(other) == old(Page(other)) {
        assert forall i :: 0 <= i < PAGE ==> Page(other)[i] == old(Page(other))[i];
      }
    }

    /// `stage`.
    method SetStage(value: u64, ghost text: bytes, ghost before: u64)
      requires Holds(text, before)
      modifies memory
      ensures Holds(text, value)
      ensures forall c :: 0 <= c < 3 ==> Page(c)[..8] == old(Page(c))[..8] && Page(c)[16..] == old(Page(c))[16..]
    {
      hide Records, StageOf, Store, Bytes.ToLe64, SamePrefix;
      var copy := 0;
      while copy < 3
        invariant 0 <= copy <= 3
        invariant forall c :: 0 <= c < copy ==> Page(c) == Store(old(Page(c)), STAGE_OFFSET, ToLe64(value))
        invariant forall c :: copy <= c < 3 ==> Page(c) == old(Page(c))
      {
        StoreInCopy(copy, STAGE_OFFSET, ToLe64(value));
        copy := copy + 1;
      }
      forall c | 0 <= c < 3
        ensures Records(Page(c), text) && StageOf(Page(c)) == value && SamePrefix(Page(0), Page(c), TEXT + |text|)
        ensures Page(c)[..8] == old(Page(c))[..8] && Page(c)[16..] == old(Page(c))[16..]
      {
        StageStored(old(Page(c)), text, value);
        StoreSlice(old(Page(c)), STAGE_OFFSET, ToLe64(value), 0, 8);
        StoreSlice(old(Page(c)), STAGE_OFFSET, ToLe64(value), 16, PAGE);
        StorePrefix(old(Page(0)), old(Page(c)), STAGE_OFFSET, ToLe64(value), TEXT + |text|);
      }
    }

    /// `write_byte`: one more byte in every copy, until the page is full.
    method WriteByte(b: byte, ghost text: bytes, ghost stage: u64)
      requires Holds(text, stage)
      modifies memory
      ensures Holds(Truncate(text + [b]), stage)
      ensures forall c :: 0 <= c < 3 ==> Kept(old(Page(c)), Page(c), |text|, |Truncate(text + [b])|)
    {
      hide Records, StageOf, Store, Bytes.ToLe64, Mix, Checksum, Bytes.Le64, SamePrefix, Kept;
      RecordedLength(Page(0), text);
      var used := LengthOf(Page(0));
      if used >= CAPACITY {
        assert (text + [b])[..CAPACITY] == text;
        forall c | 0 <= c < 3 ensures Kept(old(Page(c)), Page(c), |text|, |text|) {
          KeptAll(Page(c), |text|);
        }
        return;
      }
      var checksum := Mix(StoredChecksum(Page(0)), b);
      var copy := 0;
      while copy < 3
        invariant 0 <= copy <= 3
        invariant forall c :: 0 <= c < copy ==> Page(c) == WriteToPage(old(Page(c)), used, checksum, b)
        invariant forall c :: copy <= c < 3 ==> Page(c) == old(Page(c))
      {
        StoreInCopy(copy, TEXT + used, [b]);
        StoreInCopy(copy, CHECKSUM_OFFSET, ToLe64(checksum));
        StoreInCopy(copy, LENGTH_OFFSET, ToLe64(used + 1));
        copy := copy + 1;
      }
      forall c | 0 <= c < 3
        ensures Records(Page(c), text + [b]) && StageOf(Page(c)) == stage && SamePrefix(Page(0), Page(c), TEXT + (used + 1))
        ensures Kept(old(Page(c)), Page(c), used, used + 1)
      {
        WrittenKeeps(old(Page(c)), used, checksum, b);
        WrittenRecords(old(Page(c)), text, b);
        WrittenPrefix(old(Page(0)), old(Page(c)), used, checksum, b);
      }
    }

    /// Any sequence of bytes: the copies record the first 3968 of them, and whatever is lost of them, as
    /// long as no bit is lost in two copies, decoding gives these bytes back or reports ambiguity.
    method WriteText(more: bytes, ghost text: bytes, ghost stage: u64)
      requires Holds(text, stage)
      modifies memory
      ensures Holds(Truncate(text + more), stage)
      ensures Recoverable(Copies(), Truncate(text + more), stage)
      ensures forall c :: 0 <= c < 3 ==> Kept(old(Page(c)), Page(c), |text|, |Truncate(text + more)|)
    {
      hide Records, StageOf, SamePrefix, Recoverable, Kept;
      var i := 0;
      forall c | 0 <= c < 3 ensures Kept(old(Page(c)), Page(c), |text|, |text|) {
        KeptAll(Page(c), |text|);
      }
      TruncateRecorded(Page(0), text);
      assert text + more[..0] == text;
      while i < |more|
        invariant 0 <= i <= |more| && Holds(Truncate(text + more[..i]), stage)
        invariant |text| <= |Truncate(text + more[..i])|
        invariant forall c :: 0 <= c < 3 ==> Kept(old(Page(c)), Page(c), |text|, |Truncate(text + more[..i])|)
      {
        ghost var pages := Copies();
        TruncateStep(text + more[..i], more[i]);
        assert text + more[..i + 1] == text + more[..i] + [more[i]];
        WriteByte(more[i], Truncate(text + more[..i]), stage);
        forall c | 0 <= c < 3 ensures Kept(old(Page(c)), Page(c), |text|, |Truncate(text + more[..i + 1])|) {
          KeptTrans(old(Page(c)), pages[c], Page(c), |text|, |Truncate(text + more[..i])|, |Truncate(text + more[..i + 1])|);
        }
        i := i + 1;
      }
      assert more[..i] == more;
      HeldIsRecoverable(Copies(), Truncate(text + more), stage);
    }
  }

  lemma StorePrefix(page: bytes, other: bytes, offset: nat, data: bytes, n: nat)
    requires SamePrefix(page, other, n) && offset + |data| <= n
    ensures SamePrefix(Store(page, offset, data), Store(other, offset, data), n)
  {
    assert forall i :: 0 <= i < n ==> page[..n][i] == page[i] && other[..n][i] == other[i];
  }

  /// A byte written behind equal texts.
  lemma WrittenPrefix(page: bytes, other: bytes, used: nat, checksum: u64, b: byte)
    requires |page| == |other| == PAGE && used < CAPACITY && SamePrefix(page, other, TEXT + used)
    ensures SamePrefix(WriteToPage(page, used, checksum, b), WriteToPage(other, used, checksum, b), TEXT + (used + 1))
  {
    hide Bytes.ToLe64;
    var n := TEXT + (used + 1);
    var p, q := Store(page, TEXT + used, [b]), Store(other, TEXT + used, [b]);
    assert SamePrefix(p, q, n) by {
      assert forall i :: 0 <= i < TEXT + used ==> page[..TEXT + used][i] == page[i] && other[..TEXT + used][i] == other[i];
      assert p[..n] == q[..n];
    }
    hide Store, SamePrefix;
    StorePrefix(p, q, CHECKSUM_OFFSET, ToLe64(checksum), n);
    StorePrefix(Store(p, CHECKSUM_OFFSET, ToLe64(checksum)), Store(q, CHECKSUM_OFFSET, ToLe64(checksum)), LENGTH_OFFSET, ToLe64(used + 1), n);
  }

  lemma TruncateRecorded(page: bytes, text: bytes)
    requires Records(page, text)
    ensures Truncate(text) == text
  {
    RecordedLength(page, text);
  }

  lemma TruncateStep(text: bytes, b: byte)
    ensures Truncate(Truncate(text) + [b]) == Truncate(text + [b])
  {
    if |text| > CAPACITY {
      assert (text[..CAPACITY] + [b])[..CAPACITY] == text[..CAPACITY] == (text + [b])[..CAPACITY];
    }
  }

  lemma StageStored(page: bytes, text: bytes, value: u64)
    requires Records(page, text)
    ensures Records(Store(page, STAGE_OFFSET, ToLe64(value)), text) && StageOf(Store(page, STAGE_OFFSET, ToLe64(value))) == value
  {
    RecordedLength(page, text);
    Le64ToLe64(value);
    hide Checksum, Store, Bytes.Le64, Bytes.ToLe64, Bytes.Ascii;
    var word := ToLe64(value);
    StoreSlice(page, STAGE_OFFSET, word, 0, 8);
    StoreSlice(page, STAGE_OFFSET, word, STAGE_OFFSET, STAGE_OFFSET + 8);
    StoreSlice(page, STAGE_OFFSET, word, LENGTH_OFFSET, LENGTH_OFFSET + 8);
    StoreSlice(page, STAGE_OFFSET, word, CHECKSUM_OFFSET, CHECKSUM_OFFSET + 8);
    StoreSlice(page, STAGE_OFFSET, word, TEXT, TEXT + |text|);
    assert page[0..8] == page[..8] && Store(page, STAGE_OFFSET, word)[0..8] == Store(page, STAGE_OFFSET, word)[..8];
  }

  // The decoder.

  function MajorityBits(a: bv8, b: bv8, c: bv8): bv8 { (a & b) | (a & c) | (b & c) }

  function MajorityByte(a: byte, b: byte, c: byte): byte { MajorityBits(a as bv8, b as bv8, c as bv8) as int }

  function OrByte(a: byte, b: byte, c: byte): byte { ((a as bv8) | (b as bv8) | (c as bv8)) as int }

  /// No bit is wrong in two of the three copies.
  predicate OneWrong(a: bv8, b: bv8, c: bv8, p: bv8) {
    (a ^ p) & (b ^ p) == 0 && (a ^ p) & (c ^ p) == 0 && (b ^ p) & (c ^ p) == 0
  }

  predicate OneWrongByte(a: byte, b: byte, c: byte, p: byte) { OneWrong(a as bv8, b as bv8, c as bv8, p as bv8) }

  lemma MajorityOfBits(a: bv8, b: bv8, c: bv8, p: bv8)
    requires OneWrong(a, b, c, p)
    ensures MajorityBits(a, b, c) == p
  {
  }

  lemma BitsOfByte(p: byte)
    ensures (p as bv8) as int == p
  {
    if p < 32 {
    } else if p < 64 {
    } else if p < 96 {
    } else if p < 128 {
    } else if p < 160 {
    } else if p < 192 {
    } else if p < 224 {
    } else {
    }
  }

  lemma MajorityOfBytes(a: byte, b: byte, c: byte, p: byte)
    requires OneWrongByte(a, b, c, p)
    ensures MajorityByte(a, b, c) == p
  {
    hide MajorityBits, OneWrong;
    MajorityOfBits(a as bv8, b as bv8, c as bv8, p as bv8);
    BitsOfByte(p);
  }

  lemma AgreeingBytes(a: byte)
    ensures MajorityByte(a, a, a) == a && OrByte(a, a, a) == a
  {
  }

  function Zip(pages: seq<bytes>, f: (byte, byte, byte) -> byte): (r: bytes)
    requires |pages| == 3 && |pages[0]| == |pages[1]| == |pages[2]|
    ensures |r| == |pages[0]|
  {
    seq(|pages[0]|, i requires 0 <= i < |pages[0]| => f(pages[0][i], pages[1][i], pages[2][i]))
  }

  function Pages(data: bytes): (pages: seq<bytes>)
    requires |data| % 3 == 0
    ensures |pages| == 3 && |pages[0]| == |pages[1]| == |pages[2]| == |data| / 3
  {
    var n := |data| / 3;
    [data[..n], data[n..2 * n], data[2 * n..]]
  }

  /// The majority, the three copies, and the bitwise or, in the order in which they are tried.
  function Candidates(pages: seq<bytes>): (cs: seq<bytes>)
    requires |pages| == 3 && |pages[0]| == |pages[1]| == |pages[2]|
    ensures |cs| == 5 && forall i :: 0 <= i < 5 ==> |cs[i]| == |pages[0]|
  {
    [Zip(pages, MajorityByte), pages[0], pages[1], pages[2], Zip(pages, OrByte)]
  }

  datatype DecodeError = BadShape | NoValidText | Ambiguous

  datatype Decoded = Decoded(selected: nat, page: bytes, text: bytes) | Failed(error: DecodeError)

  /// The candidates that carry a valid text.
  function Valid(cs: seq<bytes>, from: nat): (r: seq<nat>)
    requires from <= |cs| && forall i :: 0 <= i < |cs| ==> |cs[i]| >= TEXT
    ensures forall k <- r :: from <= k < |cs| && PageText(cs[k]).Some?
    ensures forall k :: from <= k < |cs| && PageText(cs[k]).Some? ==> k in r
    ensures r != [] ==> r[0] < |cs| && forall k :: from <= k < r[0] ==> PageText(cs[k]).None?
    decreases |cs| - from
  {
    if from == |cs| then []
    else if PageText(cs[from]).Some? then [from] + Valid(cs, from + 1)
    else Valid(cs, from + 1)
  }

  predicate GoodShape(data: bytes) {
    |data| % 3 == 0 && TEXT <= |data| / 3 <= PAGE && |data| / 3 % 8 == 0
  }

  /// `decode`, with the page whose header it prints.
  function Decode(data: bytes): (r: Decoded)
    ensures r.Decoded? ==> |r.page| == |data| / 3 >= TEXT
  {
    if !GoodShape(data) then Failed(BadShape)
    else
      var cs := Candidates(Pages(data));
      var valid := Valid(cs, 0);
      if valid == [] then Failed(NoValidText)
      else if exists k <- valid :: PageText(cs[k]) != PageText(cs[valid[0]]) then Failed(Ambiguous)
      else Decoded(valid[0], cs[valid[0]], PageText(cs[valid[0]]).value)
  }

  lemma ValidStep(cs: seq<bytes>, i: nat)
    requires i < |cs| && forall k :: 0 <= k < |cs| ==> |cs[k]| >= TEXT
    ensures Valid(cs, i) == if PageText(cs[i]).Some? then [i] + Valid(cs, i + 1) else Valid(cs, i + 1)
  {
  }

  lemma ValidEnd(cs: seq<bytes>)
    requires forall k :: 0 <= k < |cs| ==> |cs[k]| >= TEXT
    ensures Valid(cs, |cs|) == []
  {
  }

  /// The loop over the candidates.
  method DecodeTrace(data: bytes) returns (r: Decoded)
    ensures r == Decode(data)
  {
    if !GoodShape(data) {
      return Failed(BadShape);
    }
    hide PageText, Zip, Candidates, Pages, Valid;
    var cs := Candidates(Pages(data));
    var valid := ValidCandidates(cs);
    if valid == [] {
      return Failed(NoValidText);
    }
    if exists k <- valid :: PageText(cs[k]) != PageText(cs[valid[0]]) {
      return Failed(Ambiguous);
    }
    return Decoded(valid[0], cs[valid[0]], PageText(cs[valid[0]]).value);
  }

  method ValidCandidates(cs: seq<bytes>) returns (valid: seq<nat>)
    requires forall k :: 0 <= k < |cs| ==> |cs[k]| >= TEXT
    ensures valid == Valid(cs, 0)
  {
    hide PageText, Valid;
    valid := [];
    var i := 0;
    EmptyConcat(Valid(cs, 0));
    while i < |cs|
      invariant 0 <= i <= |cs| && valid + Valid(cs, i) == Valid(cs, 0)
    {
      ValidStep(cs, i);
      if PageText(cs[i]).Some? {
        Assoc(valid, [i], Valid(cs, i + 1));
        valid := valid + [i];
      }
      i := i + 1;
    }
    ValidEnd(cs);
    EmptyConcat(valid);
  }

  /// What the decoder looks at in a page that records this text: the header and the text.
  predicate SamePrefix(page: bytes, other: bytes, n: nat) { n <= |page| && n <= |other| && page[..n] == other[..n] }

  lemma PrefixDecides(page: bytes, other: bytes, text: bytes)
    requires Records(page, text) && |other| == PAGE && SamePrefix(page, other, TEXT + |text|)
    ensures Records(other, text) && StageOf(other) == StageOf(page)
  {
    RecordedLength(page, text);
    var n := TEXT + |text|;
    hide Checksum, Bytes.Le64, Bytes.Ascii;
    PrefixSlice(page, other, n, 0, 8);
    assert page[0..8] == page[..8] && other[0..8] == other[..8];
    PrefixSlice(page, other, n, STAGE_OFFSET, STAGE_OFFSET + 8);
    PrefixSlice(page, other, n, LENGTH_OFFSET, LENGTH_OFFSET + 8);
    PrefixSlice(page, other, n, CHECKSUM_OFFSET, CHECKSUM_OFFSET + 8);
    PrefixSlice(page, other, n, TEXT, n);
  }

  lemma PrefixSlice(page: bytes, other: bytes, n: nat, start: nat, end: nat)
    requires SamePrefix(page, other, n) && start <= end <= n
    ensures page[start..end] == other[start..end]
  {
    assert page[..n][start..end] == page[start..end] && other[..n][start..end] == other[start..end];
  }

  /// Where no bit is wrong twice, the majority is the page that was written.
  lemma MajorityRestores(page: bytes, pages: seq<bytes>, n: nat)
    requires |pages| == 3 && |pages[0]| == |pages[1]| == |pages[2]| == |page| && n <= |page|
    requires forall i :: 0 <= i < n ==> OneWrongByte(pages[0][i], pages[1][i], pages[2][i], page[i])
    ensures SamePrefix(page, Zip(pages, MajorityByte), n)
  {
    hide OneWrongByte, MajorityByte;
    var m := Zip(pages, MajorityByte);
    forall i | 0 <= i < n ensures m[i] == page[i] {
      MajorityOfBytes(pages[0][i], pages[1][i], pages[2][i], page[i]);
    }
    assert m[..n] == page[..n];
  }

  lemma PagesOf(pages: seq<bytes>)
    requires |pages| == 3 && |pages[0]| == |pages[1]| == |pages[2]| == PAGE
    ensures GoodShape(pages[0] + pages[1] + pages[2]) && Pages(pages[0] + pages[1] + pages[2]) == pages
  {
    var data := pages[0] + pages[1] + pages[2];
    assert |data| == 3 * PAGE;
    assert data[..PAGE] == pages[0] && data[PAGE..2 * PAGE] == pages[1] && data[2 * PAGE..] == pages[2];
  }

  /// After any loss that spoils no bit of the header or the text in two copies, decoding returns the
  /// recorded text with the recorded stage, or reports ambiguity; never another text.
  lemma Recovery(page: bytes, text: bytes, pages: seq<bytes>)
    requires Records(page, text)
    requires |pages| == 3 && |pages[0]| == |pages[1]| == |pages[2]| == PAGE
    requires forall i :: 0 <= i < TEXT + |text| && i < PAGE ==> OneWrongByte(pages[0][i], pages[1][i], pages[2][i], page[i])
    ensures
      var r := Decode(pages[0] + pages[1] + pages[2]);
      if exists c <- Candidates(pages) :: PageText(c).Some? && PageText(c) != Some(text) then r == Failed(Ambiguous)
      else r.Decoded? && r.text == text && r.selected == 0 && StageOf(r.page) == StageOf(page)
  {
    hide OneWrongByte, PageText, StageOf, Pages, GoodShape, Zip;
    PagesOf(pages);
    RecordedLength(page, text);
    MajorityRestores(page, pages, TEXT + |text|);
    var cs := Candidates(pages);
    PrefixDecides(page, cs[0], text);
    var valid := Valid(cs, 0);
    assert 0 in valid;
    assert valid[0] == 0;
    if c :| c in cs && PageText(c).Some? && PageText(c) != Some(text) {
      var k :| 0 <= k < |cs| && cs[k] == c;
      assert k in valid;
    } else {
      forall k <- valid ensures PageText(cs[k]) == Some(text) {
        assert cs[k] in cs;
      }
    }
  }

  /// What a reset may do to one byte in the three copies: no bit is lost in two of them.
  predicate LostOnce(w0: byte, w1: byte, w2: byte, r0: byte, r1: byte, r2: byte) {
    var x, y, z := (r0 as bv8) ^ (w0 as bv8), (r1 as bv8) ^ (w1 as bv8), (r2 as bv8) ^ (w2 as bv8);
    x & y == 0 && x & z == 0 && y & z == 0
  }

  /// What is left of the copies after a reset.
  predicate Lost(copies: seq<bytes>, left: seq<bytes>)
    requires |copies| == 3 && forall k :: 0 <= k < 3 ==> |copies[k]| == PAGE
  {
    && |left| == 3 && |left[0]| == |left[1]| == |left[2]| == PAGE
    && forall i :: 0 <= i < PAGE ==>
         LostOnce(copies[0][i], copies[1][i], copies[2][i], left[0][i], left[1][i], left[2][i])
  }

  /// Whatever is lost, decoding gives this text and stage back, or reports ambiguity.
  ghost predicate Recoverable(copies: seq<bytes>, text: bytes, stage: u64)
    requires |copies| == 3 && forall k :: 0 <= k < 3 ==> |copies[k]| == PAGE
  {
    forall left: seq<bytes> :: Lost(copies, left) ==>
      var r := Decode(left[0] + left[1] + left[2]);
      r == Failed(Ambiguous) || (r.Decoded? && r.text == text && StageOf(r.page) == stage)
  }

  lemma HeldIsRecoverable(copies: seq<bytes>, text: bytes, stage: u64)
    requires |copies| == 3 && forall k :: 0 <= k < 3 ==> |copies[k]| == PAGE
    requires Records(copies[0], text) && StageOf(copies[0]) == stage
    requires forall k :: 0 <= k < 3 ==> SamePrefix(copies[0], copies[k], TEXT + |text|)
    ensures Recoverable(copies, text, stage)
  {
    hide Records, StageOf, Decode, LostOnce, OneWrongByte, Candidates, PageText;
    forall left: seq<bytes> | Lost(copies, left)
      ensures
        var r := Decode(left[0] + left[1] + left[2]);
        r == Failed(Ambiguous) || (r.Decoded? && r.text == text && StageOf(r.page) == stage)
    {
      forall i | 0 <= i < TEXT + |text| && i < PAGE ensures OneWrongByte(left[0][i], left[1][i], left[2][i], copies[0][i]) {
        PrefixByte(copies[0], copies[1], TEXT + |text|, i);
        PrefixByte(copies[0], copies[2], TEXT + |text|, i);
        LostIsOneWrong(copies[0][i], left[0][i], left[1][i], left[2][i]);
      }
      Recovery(copies[0], text, left);
    }
  }

  lemma PrefixByte(page: bytes, other: bytes, n: nat, i: nat)
    requires SamePrefix(page, other, n) && i < n
    ensures page[i] == other[i]
  {
    assert page[..n][i] == page[i] && other[..n][i] == other[i];
  }

  lemma LostIsOneWrong(w: byte, r0: byte, r1: byte, r2: byte)
    requires LostOnce(w, w, w, r0, r1, r2)
    ensures OneWrongByte(r0, r1, r2, w)
  {
  }

  /// Three intact copies decode to their text.
  lemma CleanDecode(page: bytes, text: bytes)
    requires Records(page, text)
    ensures Decode(page + page + page) == Decoded(0, page, text)
  {
    hide PageText, Pages, GoodShape, MajorityByte, OrByte;
    var pages := [page, page, page];
    PagesOf(pages);
    assert Zip(pages, MajorityByte) == page by {
      forall i | 0 <= i < |page| ensures MajorityByte(page[i], page[i], page[i]) == page[i] { AgreeingBytes(page[i]); }
    }
    assert Zip(pages, OrByte) == page by {
      forall i | 0 <= i < |page| ensures OrByte(page[i], page[i], page[i]) == page[i] { AgreeingBytes(page[i]); }
    }
    var cs := Candidates(pages);
    var valid := Valid(cs, 0);
    assert 0 in valid && valid[0] == 0;
  }
}
