/// The GUID partition table of `src/ab_slots.rs`: reading both copies of a disk, and writing them
/// back so that a crash at any point leaves one copy whole (UEFI Specification, section 5.3).
module Gpt {
  import opened Bytes

  const GPT_SIGNATURE: bytes := Ascii("EFI PART")
  const GPT_MIN_HEADER_SIZE: nat := 92
  const GPT_MIN_ENTRY_SIZE: nat := 128
  const GPT_TABLE_MAX_BYTES: nat := 0x100_0000

  // CRC-32.

  function CrcBit(crc: bv32): bv32 { if crc & 1 != 0 then (crc >> 1) ^ 0xedb88320 else crc >> 1 }

  function CrcBits(crc: bv32, n: nat): bv32 { if n == 0 then crc else CrcBit(CrcBits(crc, n - 1)) }

  function MixByte(crc: bv32, b: byte): bv32 { crc ^ (b as bv32) }

  function Word(w: bv32): u32 { w as int }

  function Complement(crc: bv32): u32 { Word(crc ^ 0xffff_ffff) }

  function CrcBytes(data: bytes, n: nat): bv32
    requires n <= |data|
  {
    if n == 0 then 0xffff_ffff else CrcBits(MixByte(CrcBytes(data, n - 1), data[n - 1]), 8)
  }

  function Crc32(data: bytes): u32 { Complement(CrcBytes(data, |data|)) }

  lemma MaskedBit(crc: bv32)
    ensures (crc >> 1) ^ (0xedb88320 & (0 - (crc & 1))) == CrcBit(crc)
  {
    assert crc & 1 == 0 || crc & 1 == 1;
  }

  lemma NextBit(crc: bv32, n: nat)
    ensures CrcBits(crc, n + 1) == CrcBit(CrcBits(crc, n)) && CrcBits(crc, 0) == crc
  {
  }

  lemma NextByte(data: bytes, n: nat)
    requires n < |data|
    ensures CrcBytes(data, n + 1) == CrcBits(MixByte(CrcBytes(data, n), data[n]), 8)
  {
    hide CrcBits, MixByte;
  }

  method CrcByte(start: bv32) returns (crc: bv32)
    ensures crc == CrcBits(start, 8)
  {
    hide CrcBits, CrcBit;
    crc := start;
    var bit := 0;
    NextBit(start, 0);
    while bit < 8
      invariant 0 <= bit <= 8 && crc == CrcBits(start, bit)
    {
      MaskedBit(crc);
      NextBit(start, bit);
      crc := (crc >> 1) ^ (0xedb88320 & (0 - (crc & 1)));
      bit := bit + 1;
    }
  }

  /// `crc32_ieee`.
  method Crc32Ieee(data: bytes) returns (crc32: u32)
    ensures crc32 == Crc32(data)
  {
    hide CrcBits, MixByte, Complement;
    var crc: bv32 := 0xffff_ffff;
    var i := 0;
    while i < |data|
      invariant 0 <= i <= |data| && crc == CrcBytes(data, i)
    {
      NextByte(data, i);
      crc := CrcByte(MixByte(crc, data[i]));
      i := i + 1;
    }
    return Complement(crc);
  }

  // Headers.

  datatype GptHeader = GptHeader(
    currentLba: u64, backupLba: u64, entriesLba: u64, entryCount: u32, entrySize: u32, entryArrayCrc32: u32)

  function Word32(raw: bytes, start: nat): u32
    requires start + 4 <= |raw|
  {
    Le32(raw[start..start + 4])
  }

  function Word64(raw: bytes, start: nat): u64
    requires start + 8 <= |raw|
  {
    Le64(raw[start..start + 8])
  }

  /// A range of bytes replaced.
  function Splice(raw: bytes, start: nat, data: bytes): (r: bytes)
    requires start + |data| <= |raw|
    ensures |r| == |raw|
    ensures forall i :: 0 <= i < |raw| ==> r[i] == if start <= i < start + |data| then data[i - start] else raw[i]
  {
    raw[..start] + data + raw[start + |data|..]
  }

  /// The header's own checksum, over its bytes with the checksum field zeroed.
  function HeaderCrc(raw: bytes, size: nat): u32
    requires 20 <= size <= |raw|
  {
    Crc32(Splice(raw[..size], 16, Zeros(4)))
  }

  function Fields(raw: bytes): GptHeader
    requires |raw| >= GPT_MIN_HEADER_SIZE
  {
    GptHeader(Word64(raw, 24), Word64(raw, 32), Word64(raw, 72), Word32(raw, 80), Word32(raw, 84), Word32(raw, 88))
  }

  /// What the parser asks of a header, its checksum aside.
  predicate GoodFields(raw: bytes, totalBlocks: nat) {
    && |raw| >= GPT_MIN_HEADER_SIZE && raw[..8] == GPT_SIGNATURE && GPT_MIN_HEADER_SIZE <= Word32(raw, 12) <= |raw|
    && var h := Fields(raw);
    && h.currentLba < totalBlocks && h.backupLba < totalBlocks && h.entriesLba < totalBlocks
    && Word64(raw, 40) <= Word64(raw, 48) && h.entryCount > 0 && h.entrySize >= GPT_MIN_ENTRY_SIZE
  }

  /// `parse_gpt_header`.
  function ParseGptHeader(raw: bytes, totalBlocks: nat): Result<GptHeader> {
    if |raw| < GPT_MIN_HEADER_SIZE || raw[..8] != GPT_SIGNATURE then InvalidData
    else
      var size := Word32(raw, 12);
      if !(GPT_MIN_HEADER_SIZE <= size <= |raw|) || HeaderCrc(raw, size) != Word32(raw, 16) then InvalidData
      else
        var h := Fields(raw);
        if h.currentLba >= totalBlocks || h.backupLba >= totalBlocks || h.entriesLba >= totalBlocks then InvalidData
        else if Word64(raw, 40) > Word64(raw, 48) then InvalidData
        else if h.entryCount == 0 || h.entrySize < GPT_MIN_ENTRY_SIZE then InvalidData
        else Ok(h)
  }

  /// `update_entry_array_crc` and `update_header_crc`.
  function UpdateHeader(raw: bytes, entries: bytes): Result<bytes> {
    if |raw| < GPT_MIN_HEADER_SIZE then InvalidData
    else
      var withTable := Splice(raw, 88, ToLe32(Crc32(entries)));
      var size := Word32(withTable, 12);
      if !(GPT_MIN_HEADER_SIZE <= size <= |raw|) then InvalidData
      else
        var zeroed := Splice(withTable, 16, Zeros(4));
        Ok(Splice(zeroed, 16, ToLe32(Crc32(zeroed[..size]))))
  }

  lemma SameWord(x: bytes, y: bytes, start: nat, n: nat)
    requires start + n <= |x| && |x| == |y| && forall i :: start <= i < start + n ==> x[i] == y[i]
    ensures x[start..start + n] == y[start..start + n]
  {
    var a, b := x[start..start + n], y[start..start + n];
    assert forall i :: 0 <= i < n ==> a[i] == b[i];
  }

  lemma SplicedWord(raw: bytes, start: nat, data: bytes)
    requires start + |data| <= |raw|
    ensures Splice(raw, start, data)[start..start + |data|] == data
  {
  }

  /// The bytes that the header checksum covers are the ones it was computed from.
  lemma ChecksumCovers(zeroed: bytes, size: nat, crc: bytes)
    requires 20 <= size <= |zeroed| && |crc| == 4 && forall i :: 16 <= i < 20 ==> zeroed[i] == 0
    ensures Splice(Splice(zeroed, 16, crc)[..size], 16, Zeros(4)) == zeroed[..size]
  {
    var a, b := Splice(Splice(zeroed, 16, crc)[..size], 16, Zeros(4)), zeroed[..size];
    assert forall i :: 0 <= i < size ==> a[i] == b[i];
  }

  /// An updated header parses to the same fields with the checksum of the new table.
  lemma UpdatedParses(raw: bytes, totalBlocks: nat, entries: bytes)
    requires ParseGptHeader(raw, totalBlocks).Ok?
    ensures UpdateHeader(raw, entries).Ok? && |UpdateHeader(raw, entries).value| == |raw|
    ensures ParseGptHeader(UpdateHeader(raw, entries).value, totalBlocks)
      == Ok(ParseGptHeader(raw, totalBlocks).value.(entryArrayCrc32 := Crc32(entries)))
  {
    hide UpdateHeader, HeaderCrc, Word32, Word64, Fields, Bytes.Ascii;
    UpdatedIsValid(raw, totalBlocks, entries);
  }

  /// An update makes a header valid whatever its checksum was.
  lemma UpdatedIsValid(raw: bytes, totalBlocks: nat, entries: bytes)
    requires GoodFields(raw, totalBlocks)
    ensures UpdateHeader(raw, entries).Ok? && |UpdateHeader(raw, entries).value| == |raw|
    ensures ParseGptHeader(UpdateHeader(raw, entries).value, totalBlocks)
      == Ok(Fields(raw).(entryArrayCrc32 := Crc32(entries)))
  {
    hide Crc32, Bytes.Le32, Bytes.Le64, Bytes.ToLe32, Bytes.Ascii, Splice;
    var crcBytes := ToLe32(Crc32(entries));
    var withTable := Splice(raw, 88, crcBytes);
    SameWord(raw, withTable, 12, 4);
    var size := Word32(raw, 12);
    var zeroed := Splice(withTable, 16, Zeros(4));
    var crc := ToLe32(Crc32(zeroed[..size]));
    var out := Splice(zeroed, 16, crc);
    assert UpdateHeader(raw, entries) == Ok(out);
    SameWord(raw, out, 0, 8);
    assert raw[0..8] == raw[..8] && out[0..8] == out[..8];
    SameWord(raw, out, 12, 4);
    SameWord(raw, out, 24, 8);
    SameWord(raw, out, 32, 8);
    SameWord(raw, out, 40, 8);
    SameWord(raw, out, 48, 8);
    SameWord(raw, out, 72, 8);
    SameWord(raw, out, 80, 4);
    SameWord(raw, out, 84, 4);
    SplicedWord(raw, 88, crcBytes);
    SameWord(withTable, out, 88, 4);
    Le32ToLe32(Crc32(entries));
    SplicedWord(zeroed, 16, crc);
    Le32ToLe32(Crc32(zeroed[..size]));
    ChecksumCovers(zeroed, size, crc);
  }

  // Disks.

  /// `checked_lba_offset`.
  function LbaOffset(lba: u64, blockSize: nat): nat { lba * blockSize }

  function ReadAt(disk: bytes, offset: nat, length: nat): Result<bytes> {
    if offset >= U64_LIMIT || offset + length > |disk| then InvalidData else Ok(disk[offset..offset + length])
  }

  function TableBytes(h: GptHeader): nat { h.entryCount * h.entrySize }

  /// `read_entry_array` and `validate_entry_array_crc`.
  function ReadEntries(disk: bytes, blockSize: nat, h: GptHeader): Result<bytes> {
    if TableBytes(h) == 0 || TableBytes(h) > GPT_TABLE_MAX_BYTES then InvalidData
    else
      var entries :- ReadAt(disk, LbaOffset(h.entriesLba, blockSize), TableBytes(h));
      if Crc32(entries) != h.entryArrayCrc32 then InvalidData else Ok(entries)
  }

  /// One copy of the partition table.
  datatype Copy = Copy(header: GptHeader, block: bytes, entries: bytes)

  function ReadCopy(disk: bytes, blockSize: nat, lba: u64): Result<Copy>
    requires blockSize > 0
  {
    var block :- ReadAt(disk, LbaOffset(lba, blockSize), blockSize);
    var header :- ParseGptHeader(block, |disk| / blockSize);
    var entries :- ReadEntries(disk, blockSize, header);
    Ok(Copy(header, block, entries))
  }

  datatype GptDisk = GptDisk(primary: Copy, backup: Copy)

  /// `GptDisk::load`.
  function Load(disk: bytes, blockSize: nat): Result<GptDisk>
    requires blockSize > 0
  {
    if |disk| / blockSize < 2 then InvalidData
    else
      var primary :- ReadCopy(disk, blockSize, 1);
      var backup :- ReadCopy(disk, blockSize, primary.header.backupLba);
      if primary.header.entryCount != backup.header.entryCount || primary.header.entrySize != backup.header.entrySize then InvalidData
      else Ok(GptDisk(primary, backup))
  }

  // Writing.

  /// One write: where, and what.
  datatype Write = Write(offset: nat, data: bytes)

  predicate Fits(w: Write, size: nat) { w.offset + |w.data| <= size }

  predicate Apart(x: Write, y: Write) { x.offset + |x.data| <= y.offset || y.offset + |y.data| <= x.offset }

  function Apply(disk: bytes, w: Write): (r: bytes)
    requires Fits(w, |disk|)
    ensures |r| == |disk|
  {
    Splice(disk, w.offset, w.data)
  }

  /// What a crash inside a write may leave: anything where the write goes, nothing else changed.
  ghost predicate Torn(before: bytes, w: Write, after: bytes) {
    && |after| == |before|
    && forall i :: 0 <= i < |before| && !(w.offset <= i < w.offset + |w.data|) ==> after[i] == before[i]
  }

  /// The disk after the first `n` writes.
  function Applied(disk: bytes, writes: seq<Write>, n: nat): (r: bytes)
    requires n <= |writes| && forall w <- writes :: Fits(w, |disk|)
    ensures |r| == |disk|
  {
    if n == 0 then disk else Apply(Applied(disk, writes, n - 1), writes[n - 1])
  }

  /// The disk at some point of a sequence of writes: between two, or inside one.
  ghost predicate Crashed(disk: bytes, writes: seq<Write>, after: bytes)
    requires forall w <- writes :: Fits(w, |disk|)
  {
    || after == Applied(disk, writes, |writes|)
    || exists n :: 0 <= n < |writes| && Torn(Applied(disk, writes, n), writes[n], after)
  }

  /// `write_all_at`, with the number of bytes that each call of the device takes; at any point the
  /// disk is torn inside this write at most.
  method WriteAllAt(device: array<byte>, w: Write, taken: seq<nat>) returns (r: Result<()>)
    requires Fits(w, device.Length)
    modifies device
    ensures Torn(old(device[..]), w, device[..])
    ensures r.Ok? ==> device[..] == Apply(old(device[..]), w)
  {
    ghost var before := device[..];
    var written, call := 0, 0;
    while written < |w.data|
      invariant 0 <= written <= |w.data| && 0 <= call <= |taken|
      invariant forall i :: 0 <= i < device.Length ==>
        device[i] == if w.offset <= i < w.offset + written then w.data[i - w.offset] else before[i]
      decreases |taken| - call
    {
      if call == |taken| || taken[call] == 0 {
        return InvalidData;
      }
      var n := if taken[call] <= |w.data| - written then taken[call] else |w.data| - written;
      var start := w.offset + written;
      forall i | 0 <= i < n {
        device[start + i] := w.data[written + i];
      }
      assert forall i :: start <= i < start + n ==> device[i] == w.data[i - w.offset] by {
        forall i | start <= i < start + n ensures device[i] == w.data[i - w.offset] {
          assert device[start + (i - start)] == w.data[written + (i - start)];
        }
      }
      written := written + n;
      call := call + 1;
    }
    return Ok(());
  }

  // Commit.

  /// The four writes of `commit`, in order.
  function CommitWrites(g: GptDisk, blockSize: nat): Result<seq<Write>> {
    var primary :- UpdateHeader(g.primary.block, g.primary.entries);
    var backup :- UpdateHeader(g.backup.block, g.backup.entries);
    Ok([Write(LbaOffset(g.primary.header.entriesLba, blockSize), g.primary.entries),
        Write(LbaOffset(g.primary.header.currentLba, blockSize), primary),
        Write(LbaOffset(g.backup.header.entriesLba, blockSize), g.backup.entries),
        Write(LbaOffset(g.backup.header.currentLba, blockSize), backup)])
  }

  /// The disk that was loaded, with other tables of the same sizes.
  function Edited(g: GptDisk, primary: bytes, backup: bytes): GptDisk {
    GptDisk(g.primary.(entries := primary), g.backup.(entries := backup))
  }

  predicate AllFit(writes: seq<Write>, size: nat) { forall w <- writes :: Fits(w, size) }

  predicate AllApart(writes: seq<Write>) { forall i, j :: 0 <= i < j < |writes| ==> Apart(writes[i], writes[j]) }

  /// The copies stand where their own headers say, and the four regions do not overlap.
  ghost predicate Layout(disk: bytes, blockSize: nat, g: GptDisk, writes: seq<Write>)
    requires blockSize > 0
  {
    && Load(disk, blockSize) == Ok(g)
    && g.primary.header.currentLba == 1 && g.backup.header.currentLba == g.primary.header.backupLba
    && |writes| == 4 && AllFit(writes, |disk|) && AllApart(writes)
  }

  /// `commit`: after every write, and inside every write, the device is in a crash state of the four
  /// writes; when it succeeds, all four are done.
  method Commit(device: array<byte>, g: GptDisk, blockSize: nat, taken: seq<seq<nat>>) returns (r: Result<()>)
    requires CommitWrites(g, blockSize).Ok? ==> AllFit(CommitWrites(g, blockSize).value, device.Length)
    requires |taken| == 4
    modifies device
    ensures CommitWrites(g, blockSize).InvalidData? ==> r.InvalidData? && device[..] == old(device[..])
    ensures CommitWrites(g, blockSize).Ok? ==> Crashed(old(device[..]), CommitWrites(g, blockSize).value, device[..])
    ensures r.Ok? ==> CommitWrites(g, blockSize).Ok?
                      && device[..] == Applied(old(device[..]), CommitWrites(g, blockSize).value, 4)
  {
    hide UpdateHeader, Splice, Apply, Torn;
    var planned := CommitWrites(g, blockSize);
    if planned.InvalidData? {
      return InvalidData;
    }
    var writes := planned.value;
    ghost var before := device[..];
    var i := 0;
    while i < |writes|
      invariant 0 <= i <= |writes| && device[..] == Applied(before, writes, i)
    {
      var written := WriteAllAt(device, writes[i], taken[i]);
      assert Torn(Applied(before, writes, i), writes[i], device[..]);
      if written.InvalidData? {
        return InvalidData;
      }
      i := i + 1;
    }
    return Ok(());
  }

  /// Two disks that agree on a range.
  predicate Agree(x: bytes, y: bytes, start: nat, n: nat) {
    |x| == |y| && start + n <= |x| && x[start..start + n] == y[start..start + n]
  }

  /// A copy is read from two ranges only.
  lemma CopySurvives(disk: bytes, after: bytes, blockSize: nat, lba: u64)
    requires blockSize > 0 && ReadCopy(disk, blockSize, lba).Ok?
    requires Agree(disk, after, LbaOffset(lba, blockSize), blockSize)
    requires
      var h := ReadCopy(disk, blockSize, lba).value.header;
      Agree(disk, after, LbaOffset(h.entriesLba, blockSize), TableBytes(h))
    ensures ReadCopy(after, blockSize, lba) == ReadCopy(disk, blockSize, lba)
  {
    hide ParseGptHeader, Crc32, LbaOffset, TableBytes;
  }

  /// The disk holds what this write puts there.
  predicate HoldsAt(disk: bytes, w: Write) { Fits(w, |disk|) && disk[w.offset..w.offset + |w.data|] == w.data }

  /// A copy whose table and header were rewritten together is whole again.
  lemma CopyRewritten(disk: bytes, after: bytes, blockSize: nat, lba: u64, entries: bytes)
    requires blockSize > 0 && ReadCopy(disk, blockSize, lba).Ok? && |after| == |disk|
    requires
      var c := ReadCopy(disk, blockSize, lba).value;
      && |entries| == |c.entries| && UpdateHeader(c.block, entries).Ok?
      && |UpdateHeader(c.block, entries).value| == blockSize
      && HoldsAt(after, Write(LbaOffset(lba, blockSize), UpdateHeader(c.block, entries).value))
      && HoldsAt(after, Write(LbaOffset(c.header.entriesLba, blockSize), entries))
    ensures
      var c := ReadCopy(disk, blockSize, lba).value;
      ReadCopy(after, blockSize, lba)
      == Ok(Copy(c.header.(entryArrayCrc32 := Crc32(entries)), UpdateHeader(c.block, entries).value, entries))
  {
    hide ParseGptHeader, Crc32, LbaOffset, UpdateHeader;
    UpdatedParses(ReadCopy(disk, blockSize, lba).value.block, |disk| / blockSize, entries);
  }

  /// The regions that a copy is read from.
  lemma CopyRegions(disk: bytes, blockSize: nat, lba: u64)
    requires blockSize > 0 && ReadCopy(disk, blockSize, lba).Ok?
    ensures
      var c := ReadCopy(disk, blockSize, lba).value;
      && |c.block| == blockSize && LbaOffset(lba, blockSize) + blockSize <= |disk|
      && |c.entries| == TableBytes(c.header)
      && LbaOffset(c.header.entriesLba, blockSize) + |c.entries| <= |disk|
      && ParseGptHeader(c.block, |disk| / blockSize) == Ok(c.header)
  {
    hide ParseGptHeader, Crc32, LbaOffset, TableBytes;
  }

  lemma ApartAgrees(disk: bytes, w: Write, after: bytes, start: nat, n: nat)
    requires Torn(disk, w, after) && Fits(w, |disk|) && start + n <= |disk|
    requires w.offset + |w.data| <= start || start + n <= w.offset
    ensures Agree(disk, after, start, n)
  {
    assert forall i :: start <= i < start + n ==> after[i] == disk[i];
    SameWord(disk, after, start, n);
  }

  lemma AppliedIsTorn(disk: bytes, w: Write)
    requires Fits(w, |disk|)
    ensures Torn(disk, w, Apply(disk, w))
  {
  }

  lemma AppliedHolds(disk: bytes, w: Write)
    requires Fits(w, |disk|)
    ensures Apply(disk, w)[w.offset..w.offset + |w.data|] == w.data
  {
    SplicedWord(disk, w.offset, w.data);
  }

  lemma AgreeTrans(x: bytes, y: bytes, z: bytes, start: nat, n: nat)
    requires Agree(x, y, start, n) && Agree(y, z, start, n)
    ensures Agree(x, z, start, n)
  {
  }

  /// A region apart from the first `n` writes, and from the one in progress, still holds what it held.
  lemma {:induction false} UntouchedBy(disk: bytes, writes: seq<Write>, n: nat, start: nat, length: nat)
    requires n <= |writes| && AllFit(writes, |disk|) && start + length <= |disk|
    requires forall i :: 0 <= i < n ==> writes[i].offset + |writes[i].data| <= start || start + length <= writes[i].offset
    ensures Agree(disk, Applied(disk, writes, n), start, length)
  {
    hide Torn, Agree, Apply;
    if n == 0 {
      assert Agree(disk, disk, start, length) by { SelfAgrees(disk, start, length); }
    } else {
      UntouchedBy(disk, writes, n - 1, start, length);
      var d := Applied(disk, writes, n - 1);
      AppliedIsTorn(d, writes[n - 1]);
      ApartAgrees(d, writes[n - 1], Apply(d, writes[n - 1]), start, length);
      AgreeTrans(disk, d, Applied(disk, writes, n), start, length);
    }
  }

  lemma SelfAgrees(disk: bytes, start: nat, length: nat)
    requires start + length <= |disk|
    ensures Agree(disk, disk, start, length)
  {
  }

  /// What a write left stays while later writes go elsewhere.
  lemma {:induction false} WrittenStays(disk: bytes, writes: seq<Write>, k: nat, n: nat)
    requires k < n <= |writes| && AllFit(writes, |disk|) && AllApart(writes)
    ensures HoldsAt(Applied(disk, writes, n), writes[k])
  {
    hide Torn, Apply;
    var w := writes[k];
    assert w in writes;
    if n == k + 1 {
      AppliedHolds(Applied(disk, writes, k), w);
    } else {
      WrittenStays(disk, writes, k, n - 1);
      var d, last := Applied(disk, writes, n - 1), writes[n - 1];
      assert last in writes && Apart(writes[k], writes[n - 1]);
      AppliedIsTorn(d, last);
      ApartAgrees(d, last, Apply(d, last), w.offset, |w.data|);
    }
  }

  /// The new copy that a write pair makes.
  function NewCopy(c: Copy, entries: bytes): Copy
    requires UpdateHeader(c.block, entries).Ok?
  {
    Copy(c.header.(entryArrayCrc32 := Crc32(entries)), UpdateHeader(c.block, entries).value, entries)
  }

  lemma LoadedCopies(disk: bytes, blockSize: nat, g: GptDisk)
    requires blockSize > 0 && Load(disk, blockSize) == Ok(g)
    ensures ReadCopy(disk, blockSize, 1) == Ok(g.primary)
    ensures ReadCopy(disk, blockSize, g.primary.header.backupLba) == Ok(g.backup)
    ensures g.primary.header.entryCount == g.backup.header.entryCount && g.primary.header.entrySize == g.backup.header.entrySize
    ensures |disk| / blockSize >= 2
  {
    hide ReadCopy;
  }

  /// The premises that the crash and the reload lemmas share.
  ghost predicate Committing(disk: bytes, blockSize: nat, g: GptDisk, primary: bytes, backup: bytes, writes: seq<Write>)
  {
    && blockSize > 0 && Layout(disk, blockSize, g, writes)
    && |primary| == |g.primary.entries| && |backup| == |g.backup.entries|
    && CommitWrites(Edited(g, primary, backup), blockSize) == Ok(writes)
  }

  lemma WritesAre(disk: bytes, blockSize: nat, g: GptDisk, primary: bytes, backup: bytes, writes: seq<Write>)
    requires Committing(disk, blockSize, g, primary, backup, writes)
    ensures UpdateHeader(g.primary.block, primary).Ok? && UpdateHeader(g.backup.block, backup).Ok?
    ensures writes == [Write(LbaOffset(g.primary.header.entriesLba, blockSize), primary),
                       Write(LbaOffset(1, blockSize), UpdateHeader(g.primary.block, primary).value),
                       Write(LbaOffset(g.backup.header.entriesLba, blockSize), backup),
                       Write(LbaOffset(g.primary.header.backupLba, blockSize), UpdateHeader(g.backup.block, backup).value)]
    ensures |UpdateHeader(g.primary.block, primary).value| == blockSize && |UpdateHeader(g.backup.block, backup).value| == blockSize
    ensures |primary| == TableBytes(g.primary.header) && |backup| == TableBytes(g.backup.header)
  {
    LoadedCopies(disk, blockSize, g);
    CopyRegions(disk, blockSize, 1);
    CopyRegions(disk, blockSize, g.primary.header.backupLba);
    hide Load, UpdateHeader, LbaOffset, ReadCopy, TableBytes, ParseGptHeader;
    UpdatedParses(g.primary.block, |disk| / blockSize, primary);
    UpdatedParses(g.backup.block, |disk| / blockSize, backup);
  }

  lemma RegionKept(disk: bytes, writes: seq<Write>, n: nat, k: nat, after: bytes)
    requires |writes| == 4 && n < k < 4 && AllFit(writes, |disk|) && AllApart(writes)
    requires Torn(Applied(disk, writes, n), writes[n], after)
    ensures Agree(disk, after, writes[k].offset, |writes[k].data|)
  {
    var w := writes[k];
    assert w in writes && writes[n] in writes;
    forall i | 0 <= i <= n
      ensures writes[i].offset + |writes[i].data| <= w.offset || w.offset + |w.data| <= writes[i].offset
    {
      assert Apart(writes[i], writes[k]);
    }
    hide Torn, Agree, Applied;
    UntouchedBy(disk, writes, n, w.offset, |w.data|);
    ApartAgrees(Applied(disk, writes, n), writes[n], after, w.offset, |w.data|);
    AgreeTrans(disk, Applied(disk, writes, n), after, w.offset, |w.data|);
  }

  /// What two finished writes left stays while a later one is in progress.
  lemma RegionWritten(disk: bytes, writes: seq<Write>, k: nat, n: nat, after: bytes)
    requires |writes| == 4 && k < n < 4 && AllFit(writes, |disk|) && AllApart(writes)
    requires Torn(Applied(disk, writes, n), writes[n], after)
    ensures HoldsAt(after, writes[k])
  {
    var w := writes[k];
    assert w in writes && writes[n] in writes && Apart(writes[k], writes[n]);
    WrittenStays(disk, writes, k, n);
    ApartAgrees(Applied(disk, writes, n), writes[n], after, w.offset, |w.data|);
  }

  lemma FinishedPrimary(disk: bytes, blockSize: nat, g: GptDisk, primary: bytes, backup: bytes, writes: seq<Write>)
    requires Committing(disk, blockSize, g, primary, backup, writes)
    requires |writes| == 4 && AllFit(writes, |disk|) && AllApart(writes)
    ensures UpdateHeader(g.primary.block, primary).Ok? && UpdateHeader(g.backup.block, backup).Ok?
    ensures ReadCopy(Applied(disk, writes, 4), blockSize, 1) == Ok(NewCopy(g.primary, primary))
    ensures ReadCopy(Applied(disk, writes, 4), blockSize, g.primary.header.backupLba) == Ok(NewCopy(g.backup, backup))
  {
    WritesAre(disk, blockSize, g, primary, backup, writes);
    LoadedCopies(disk, blockSize, g);
    hide *;
    WrittenStays(disk, writes, 0, 4);
    WrittenStays(disk, writes, 1, 4);
    WrittenStays(disk, writes, 2, 4);
    WrittenStays(disk, writes, 3, 4);
    CopyRewritten(disk, Applied(disk, writes, 4), blockSize, 1, primary);
    CopyRewritten(disk, Applied(disk, writes, 4), blockSize, g.primary.header.backupLba, backup);
  }

  /// Nothing of the backup copy has reached the disk, or all of the primary copy has; within a copy the
  /// two writes may land in any order and in any pieces.
  predicate BetweenCopies(disk: bytes, writes: seq<Write>, after: bytes)
    requires |writes| == 4
  {
    || (Agree(disk, after, writes[2].offset, |writes[2].data|) && Agree(disk, after, writes[3].offset, |writes[3].data|))
    || (|after| == |disk| && HoldsAt(after, writes[0]) && HoldsAt(after, writes[1]))
  }

  /// One of the two copies is whole as long as the device keeps the order of the copies, whatever it does
  /// to the writes of one copy.
  lemma CrashBetweenCopies(disk: bytes, blockSize: nat, g: GptDisk, primary: bytes, backup: bytes, writes: seq<Write>, after: bytes)
    requires Committing(disk, blockSize, g, primary, backup, writes) && AllFit(writes, |disk|)
    requires |writes| == 4 && BetweenCopies(disk, writes, after)
    ensures UpdateHeader(g.primary.block, primary).Ok?
    ensures
      || ReadCopy(after, blockSize, g.primary.header.backupLba) == Ok(g.backup)
      || ReadCopy(after, blockSize, 1) == Ok(NewCopy(g.primary, primary))
  {
    WritesAre(disk, blockSize, g, primary, backup, writes);
    LoadedCopies(disk, blockSize, g);
    hide Load, UpdateHeader, LbaOffset, ReadCopy, TableBytes, ParseGptHeader, Agree, HoldsAt, Layout;
    if Agree(disk, after, writes[2].offset, |writes[2].data|) && Agree(disk, after, writes[3].offset, |writes[3].data|) {
      CopySurvives(disk, after, blockSize, g.primary.header.backupLba);
    } else {
      CopyRewritten(disk, after, blockSize, 1, primary);
    }
  }

  /// The order within a copy matters to that copy: a new header in front of the old table is readable
  /// exactly when the two tables have the same checksum.
  lemma HeaderAlone(disk: bytes, after: bytes, blockSize: nat, lba: u64, entries: bytes)
    requires blockSize > 0 && ReadCopy(disk, blockSize, lba).Ok? && |after| == |disk|
    requires
      var c := ReadCopy(disk, blockSize, lba).value;
      && UpdateHeader(c.block, entries).Ok? && |UpdateHeader(c.block, entries).value| == blockSize
      && HoldsAt(after, Write(LbaOffset(lba, blockSize), UpdateHeader(c.block, entries).value))
      && Agree(disk, after, LbaOffset(c.header.entriesLba, blockSize), TableBytes(c.header))
    ensures ReadCopy(after, blockSize, lba).Ok? <==> Crc32(ReadCopy(disk, blockSize, lba).value.entries) == Crc32(entries)
  {
    var c := ReadCopy(disk, blockSize, lba).value;
    var block, header := UpdateHeader(c.block, entries).value, c.header.(entryArrayCrc32 := Crc32(entries));
    hide *;
    CopyParts(disk, blockSize, lba);
    EntriesKept(disk, after, blockSize, c.header, Crc32(entries));
    HeldIsRead(after, LbaOffset(lba, blockSize), block);
    UpdatedParses(c.block, |disk| / blockSize, entries);
    ReadCopyOf(after, blockSize, lba, block, header);
  }

  /// A device that reorders the copies can lose both: with both new headers in front of the old tables, a
  /// copy is readable only if its two tables have the same checksum.
  lemma HeadersAlone(disk: bytes, blockSize: nat, g: GptDisk, primary: bytes, backup: bytes, writes: seq<Write>, after: bytes)
    requires Committing(disk, blockSize, g, primary, backup, writes) && |writes| == 4 && |after| == |disk|
    requires HoldsAt(after, writes[1]) && HoldsAt(after, writes[3])
    requires Agree(disk, after, writes[0].offset, |writes[0].data|) && Agree(disk, after, writes[2].offset, |writes[2].data|)
    ensures ReadCopy(after, blockSize, 1).Ok? <==> Crc32(g.primary.entries) == Crc32(primary)
    ensures ReadCopy(after, blockSize, g.primary.header.backupLba).Ok? <==> Crc32(g.backup.entries) == Crc32(backup)
  {
    WritesAre(disk, blockSize, g, primary, backup, writes);
    LoadedCopies(disk, blockSize, g);
    hide Load, UpdateHeader, LbaOffset, ReadCopy, TableBytes, ParseGptHeader, Agree, HoldsAt, Layout, Crc32;
    HeaderAlone(disk, after, blockSize, 1, primary);
    HeaderAlone(disk, after, blockSize, g.primary.header.backupLba, backup);
  }

  lemma CopyParts(disk: bytes, blockSize: nat, lba: u64)
    requires blockSize > 0 && ReadCopy(disk, blockSize, lba).Ok?
    ensures
      var c := ReadCopy(disk, blockSize, lba).value;
      && LbaOffset(lba, blockSize) < U64_LIMIT
      && ParseGptHeader(c.block, |disk| / blockSize) == Ok(c.header)
      && ReadEntries(disk, blockSize, c.header) == Ok(c.entries)
  {
    hide ParseGptHeader, ReadEntries, LbaOffset;
  }

  lemma HeldIsRead(disk: bytes, offset: nat, data: bytes)
    requires HoldsAt(disk, Write(offset, data)) && offset < U64_LIMIT
    ensures ReadAt(disk, offset, |data|) == Ok(data)
  {
  }

  lemma ReadCopyOf(disk: bytes, blockSize: nat, lba: u64, block: bytes, header: GptHeader)
    requires blockSize > 0 && ReadAt(disk, LbaOffset(lba, blockSize), blockSize) == Ok(block)
    requires ParseGptHeader(block, |disk| / blockSize) == Ok(header)
    ensures ReadCopy(disk, blockSize, lba) ==
      if ReadEntries(disk, blockSize, header).Ok? then Ok(Copy(header, block, ReadEntries(disk, blockSize, header).value)) else InvalidData
  {
    hide ReadAt, ParseGptHeader, ReadEntries, LbaOffset;
  }

  /// The table of a copy, read for another checksum.
  lemma EntriesKept(disk: bytes, after: bytes, blockSize: nat, h: GptHeader, crc: u32)
    requires ReadEntries(disk, blockSize, h).Ok? && Agree(disk, after, LbaOffset(h.entriesLba, blockSize), TableBytes(h))
    ensures ReadEntries(after, blockSize, h.(entryArrayCrc32 := crc)).Ok? <==> Crc32(ReadEntries(disk, blockSize, h).value) == crc
  {
    assert TableBytes(h.(entryArrayCrc32 := crc)) == TableBytes(h);
    hide Crc32, LbaOffset, TableBytes;
  }

  /// At every point of a commit, also inside a write, one of the two copies on the disk is whole: the
  /// old backup until the primary copy is complete, the new primary from then on.
  lemma CrashConsistent(disk: bytes, blockSize: nat, g: GptDisk, primary: bytes, backup: bytes, writes: seq<Write>, after: bytes)
    requires Committing(disk, blockSize, g, primary, backup, writes) && AllFit(writes, |disk|)
    requires Crashed(disk, writes, after)
    ensures UpdateHeader(g.primary.block, primary).Ok?
    ensures
      || ReadCopy(after, blockSize, g.primary.header.backupLba) == Ok(g.backup)
      || ReadCopy(after, blockSize, 1) == Ok(NewCopy(g.primary, primary))
  {
    FourWrites(disk, blockSize, g, primary, backup, writes);
    hide *;
    OrderedIsBetween(disk, writes, after);
    CrashBetweenCopies(disk, blockSize, g, primary, backup, writes, after);
  }

  /// Writes that reach the disk in the order in which they are issued keep the order of the copies.
  lemma OrderedIsBetween(disk: bytes, writes: seq<Write>, after: bytes)
    requires |writes| == 4 && AllFit(writes, |disk|) && AllApart(writes) && Crashed(disk, writes, after)
    ensures BetweenCopies(disk, writes, after)
  {
    hide Torn, Agree, Applied, HoldsAt, Apart;
    if after == Applied(disk, writes, |writes|) {
      WrittenStays(disk, writes, 0, 4);
      WrittenStays(disk, writes, 1, 4);
    } else {
      var n :| 0 <= n < |writes| && Torn(Applied(disk, writes, n), writes[n], after);
      if n < 2 {
        RegionKept(disk, writes, n, 2, after);
        RegionKept(disk, writes, n, 3, after);
      } else {
        RegionWritten(disk, writes, 0, n, after);
        RegionWritten(disk, writes, 1, n, after);
        TornLength(Applied(disk, writes, n), writes[n], after);
      }
    }
  }

  lemma TornLength(before: bytes, w: Write, after: bytes)
    requires Torn(before, w, after)
    ensures |after| == |before|
  {
  }

  lemma FourWrites(disk: bytes, blockSize: nat, g: GptDisk, primary: bytes, backup: bytes, writes: seq<Write>)
    requires Committing(disk, blockSize, g, primary, backup, writes)
    ensures |writes| == 4 && AllApart(writes)
  {
  }

  /// After a commit the disk loads again, with the tables that were written.
  lemma CommitThenLoad(disk: bytes, blockSize: nat, g: GptDisk, primary: bytes, backup: bytes, writes: seq<Write>)
    requires Committing(disk, blockSize, g, primary, backup, writes) && AllFit(writes, |disk|)
    ensures |writes| == 4
    ensures
      var r := Load(Applied(disk, writes, 4), blockSize);
      r.Ok? && r.value.primary.entries == primary && r.value.backup.entries == backup
  {
    FourWrites(disk, blockSize, g, primary, backup, writes);
    FinishedPrimary(disk, blockSize, g, primary, backup, writes);
    LoadedCopies(disk, blockSize, g);
    hide UpdateHeader, LbaOffset, ReadCopy, TableBytes, ParseGptHeader, Applied, Crc32;
  }
}
