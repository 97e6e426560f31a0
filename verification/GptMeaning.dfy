/// The partition table format that `src/ab_slots.rs` reads and writes, offset by offset (UEFI Specification
/// 2.10, section 5.3.2), and what a commit leaves on the disk.
module GptMeaning {
  import opened Bytes
  import opened Gpt

  // The checksum.

  /// One more byte goes into the register, which is shifted right eight times.
  lemma CrcStep(data: bytes, n: nat)
    requires n < |data|
    ensures CrcBytes(data, 0) == 0xffff_ffff
    ensures CrcBytes(data, n + 1) == Mixed(CrcBytes(data, n), data[n])
  {
    NextByte(data, n);
    hide Mixed, CrcBits, MixByte;
    MixedBits(CrcBytes(data, n), data[n]);
  }

  lemma MixedBits(register: bv32, b: byte)
    ensures CrcBits(MixByte(register, b), 8) == Mixed(register, b)
  {
    EightBits(register ^ (b as bv32));
    hide CrcBits, Eight;
  }

  function Mixed(register: bv32, b: byte): bv32 { Eight(register ^ (b as bv32)) }

  function Eight(x: bv32): bv32 { Four(Four(x)) }

  function Four(x: bv32): bv32 { Once(Once(Once(Once(x)))) }

  /// Division by the reflected polynomial 0xedb88320, bit by bit.
  function Once(x: bv32): bv32 { if x & 1 == 1 then (x >> 1) ^ 0xedb8_8320 else x >> 1 }

  lemma OneBit(x: bv32)
    ensures CrcBit(x) == Once(x)
  {
    assert x & 1 == 0 || x & 1 == 1;
  }

  lemma FourBits(x: bv32, n: nat)
    ensures CrcBits(x, n + 4) == Four(CrcBits(x, n))
  {
    hide CrcBit, Once;
    forall y: bv32 ensures CrcBit(y) == Once(y) {
      OneBit(y);
    }
    NextBit(x, n);
    NextBit(x, n + 1);
    NextBit(x, n + 2);
    NextBit(x, n + 3);
  }

  lemma EightBits(x: bv32)
    ensures CrcBits(x, 8) == Eight(x)
  {
    hide CrcBit, Four;
    FourBits(x, 4);
    FourBits(x, 0);
    NextBit(x, 0);
  }

  /// The check value of CRC-32/ISO-HDLC.
  lemma CheckValue()
    ensures Crc32([]) == 0 && Crc32(Ascii("123456789")) == 0xcbf4_3926
  {
    var data := Ascii("123456789");
    Digits();
    CheckSteps();
    NoBytes();
    hide CrcBytes, Mixed, Bytes.Ascii;
    CrcStep(data, 0);
    CrcStep(data, 1);
    CrcStep(data, 2);
    CrcStep(data, 3);
    CrcStep(data, 4);
    CrcStep(data, 5);
    CrcStep(data, 6);
    CrcStep(data, 7);
    CrcStep(data, 8);
  }

  lemma Digits()
    ensures |Ascii("123456789")| == 9
    ensures forall i :: 0 <= i < 9 ==> Ascii("123456789")[i] == 0x31 + i
  {
  }

  lemma NoBytes()
    ensures CrcBytes([], 0) == 0xffff_ffff
  {
  }

  lemma CheckSteps()
    ensures Mixed(0xffffffff, 0x31) == 0x7c231048
    ensures Mixed(0x7c231048, 0x32) == 0xb0acbb32
    ensures Mixed(0xb0acbb32, 0x33) == 0x77b79c2d
    ensures Mixed(0x77b79c2d, 0x34) == 0x641c1f5c
    ensures Mixed(0x641c1f5c, 0x35) == 0x340ac5e3
    ensures Mixed(0x340ac5e3, 0x36) == 0xf68d2c9e
    ensures Mixed(0xf68d2c9e, 0x37) == 0xaffc9660
    ensures Mixed(0xaffc9660, 0x38) == 0x651f2550
    ensures Mixed(0x651f2550, 0x39) == 0x340bc6d9
  {
  }

  // The header.

  /// A block that is accepted as a header on a disk of so many blocks, and the fields it gives.
  ghost predicate HeaderIs(raw: bytes, blocks: nat, h: GptHeader) {
    && |raw| >= 92 && raw[..8] == Ascii("EFI PART")
    && var size := Le32(raw[12..16]);
    && 92 <= size <= |raw| && Le32(raw[16..20]) == Crc32(raw[..16] + [0, 0, 0, 0] + raw[20..size])
    && h.currentLba == Le64(raw[24..32]) < blocks && h.backupLba == Le64(raw[32..40]) < blocks
    && Le64(raw[40..48]) <= Le64(raw[48..56])
    && h.entriesLba == Le64(raw[72..80]) < blocks && h.entryCount == Le32(raw[80..84]) > 0
    && h.entrySize == Le32(raw[84..88]) >= 128 && h.entryArrayCrc32 == Le32(raw[88..92])
  }

  lemma ZeroedIs(raw: bytes, size: nat)
    requires 20 <= size <= |raw|
    ensures Splice(raw[..size], 16, Zeros(4)) == raw[..16] + [0, 0, 0, 0] + raw[20..size]
  {
    assert Zeros(4) == [0, 0, 0, 0] && raw[..size][..16] == raw[..16] && raw[..size][20..] == raw[20..size];
  }

  lemma HeaderMeaning(raw: bytes, blocks: nat, h: GptHeader)
    ensures ParseGptHeader(raw, blocks) == Ok(h) <==> HeaderIs(raw, blocks, h)
  {
    hide Crc32, Bytes.Le32, Bytes.Le64, Splice, Bytes.Ascii, Bytes.Zeros;
    if |raw| >= 92 && 92 <= Le32(raw[12..16]) <= |raw| {
      ZeroedIs(raw, Le32(raw[12..16]));
    }
  }

  /// An updated header differs in its two checksums, which are right.
  ghost predicate UpdatedIs(now: bytes, raw: bytes, entries: bytes) {
    && |now| == |raw| && |raw| >= 92 && 92 <= Le32(raw[12..16]) <= |raw|
    && now[88..92] == ToLe32(Crc32(entries))
    && now[16..20] == ToLe32(Crc32(now[..16] + [0, 0, 0, 0] + now[20..Le32(raw[12..16])]))
    && forall i :: 0 <= i < |raw| && !(16 <= i < 20) && !(88 <= i < 92) ==> now[i] == raw[i]
  }

  lemma UpdateMeaning(raw: bytes, entries: bytes)
    ensures UpdateHeader(raw, entries).Ok? <==> |raw| >= 92 && 92 <= Le32(raw[12..16]) <= |raw|
    ensures UpdateHeader(raw, entries).Ok? ==> UpdatedIs(UpdateHeader(raw, entries).value, raw, entries)
  {
    hide Crc32, Bytes.Le32, Bytes.ToLe32, Splice, Bytes.Zeros;
    if |raw| >= 92 {
      var withTable := Splice(raw, 88, ToLe32(Crc32(entries)));
      SameWord(raw, withTable, 12, 4);
      var size := Le32(raw[12..16]);
      if 92 <= size <= |raw| {
        var zeroed := Splice(withTable, 16, Zeros(4));
        var now := UpdateHeader(raw, entries).value;
        SplicedWord(zeroed, 16, ToLe32(Crc32(zeroed[..size])));
        SplicedWord(raw, 88, ToLe32(Crc32(entries)));
        SameWord(now, withTable, 88, 4);
        ZeroedAgain(now, zeroed, size);
      }
    }
  }

  lemma ZeroedAgain(now: bytes, zeroed: bytes, size: nat)
    requires 20 <= size <= |now| == |zeroed| && forall i :: 16 <= i < 20 ==> zeroed[i] == 0
    requires forall i :: 0 <= i < |now| && !(16 <= i < 20) ==> now[i] == zeroed[i]
    ensures now[..16] + [0, 0, 0, 0] + now[20..size] == zeroed[..size]
  {
    var x, y := now[..16] + [0, 0, 0, 0] + now[20..size], zeroed[..size];
    assert forall i :: 0 <= i < size ==> x[i] == y[i];
  }

  // Loading.

  /// The bytes at an offset that must fit 64 bits.
  predicate At(disk: bytes, offset: nat, data: bytes) {
    offset < U64_LIMIT && offset + |data| <= |disk| && disk[offset..offset + |data|] == data
  }

  /// Where a block starts.
  function Block(lba: nat, blockSize: nat): nat { lba * blockSize }

  /// The header at block `lba` is good, and the table that it points to has its checksum.
  ghost predicate CopyAt(disk: bytes, blockSize: nat, lba: nat, c: Copy)
    requires blockSize > 0
  {
    && |c.block| == blockSize && At(disk, Block(lba, blockSize), c.block)
    && HeaderIs(c.block, |disk| / blockSize, c.header)
    && |c.entries| == c.header.entryCount * c.header.entrySize && 0 < |c.entries| <= 16 * 1024 * 1024
    && At(disk, Block(c.header.entriesLba, blockSize), c.entries) && Crc32(c.entries) == c.header.entryArrayCrc32
  }

  lemma CopyMeaning(disk: bytes, blockSize: nat, lba: u64, c: Copy)
    requires blockSize > 0
    ensures ReadCopy(disk, blockSize, lba) == Ok(c) <==> CopyAt(disk, blockSize, lba, c)
  {
    hide Crc32, HeaderIs, ParseGptHeader;
    HeaderMeaning(c.block, |disk| / blockSize, c.header);
  }

  /// A disk loads exactly when block 1 has a good copy, the backup that its header names is good, and both
  /// tables have the same shape.
  lemma LoadMeaning(disk: bytes, blockSize: nat, g: GptDisk)
    requires blockSize > 0
    ensures Load(disk, blockSize) == Ok(g) <==>
      && |disk| / blockSize >= 2
      && CopyAt(disk, blockSize, 1, g.primary) && CopyAt(disk, blockSize, g.primary.header.backupLba, g.backup)
      && g.primary.header.entryCount == g.backup.header.entryCount && g.primary.header.entrySize == g.backup.header.entrySize
  {
    hide ReadCopy, CopyAt;
    CopyMeaning(disk, blockSize, 1, g.primary);
    CopyMeaning(disk, blockSize, g.primary.header.backupLba, g.backup);
  }

  // Committing.

  /// The four writes, in their order: the primary table and its header, then the backup table and its header.
  lemma WritesMeaning(disk: bytes, blockSize: nat, g: GptDisk, primary: bytes, backup: bytes, writes: seq<Write>)
    requires Committing(disk, blockSize, g, primary, backup, writes)
    ensures |writes| == 4
    ensures writes[0] == Write(Block(g.primary.header.entriesLba, blockSize), primary)
    ensures writes[1].offset == blockSize && UpdatedIs(writes[1].data, g.primary.block, primary)
    ensures writes[2] == Write(Block(g.backup.header.entriesLba, blockSize), backup)
    ensures writes[3].offset == Block(g.primary.header.backupLba, blockSize) && UpdatedIs(writes[3].data, g.backup.block, backup)
  {
    WritesAre(disk, blockSize, g, primary, backup, writes);
    UpdateMeaning(g.primary.block, primary);
    UpdateMeaning(g.backup.block, backup);
    hide Committing, UpdatedIs, UpdateHeader;
  }

  /// The bytes from `offset` on.
  function Cut(disk: bytes, offset: nat, length: nat): bytes
    requires offset + length <= |disk|
  {
    disk[offset..offset + length]
  }

  /// The finished disk has both new tables where the headers say, and both headers with new checksums ...
  lemma CommitMeaning(disk: bytes, blockSize: nat, g: GptDisk, primary: bytes, backup: bytes, writes: seq<Write>)
    requires Committing(disk, blockSize, g, primary, backup, writes) && AllFit(writes, |disk|)
    ensures |writes| == 4
    ensures
      var now, p, b := Applied(disk, writes, 4), g.primary.header, g.backup.header;
      var last := Block(p.backupLba, blockSize);
      && |now| == |disk| && 2 * blockSize <= |disk| && last + blockSize <= |disk|
      && At(now, Block(p.entriesLba, blockSize), primary) && At(now, Block(b.entriesLba, blockSize), backup)
      && UpdatedIs(Cut(now, blockSize, blockSize), Cut(disk, blockSize, blockSize), primary)
      && UpdatedIs(Cut(now, last, blockSize), Cut(disk, last, blockSize), backup)
  {
    hide *;
    EachFits(writes, |disk|);
    CommittingParts(disk, blockSize, g, primary, backup, writes);
    var now := Applied(disk, writes, 4);
    WritesMeaning(disk, blockSize, g, primary, backup, writes);
    UpdatedLength(writes[1].data, g.primary.block, primary);
    UpdatedLength(writes[3].data, g.backup.block, backup);
    WrittenStays(disk, writes, 0, 4);
    WrittenStays(disk, writes, 1, 4);
    WrittenStays(disk, writes, 2, 4);
    WrittenStays(disk, writes, 3, 4);
    HeldIs(now, writes[0]);
    HeldIs(now, writes[1]);
    HeldIs(now, writes[2]);
    HeldIs(now, writes[3]);
  }

  lemma HeldIs(now: bytes, w: Write)
    requires HoldsAt(now, w)
    ensures w.offset + |w.data| <= |now| && Cut(now, w.offset, |w.data|) == w.data
    ensures w.offset < U64_LIMIT ==> At(now, w.offset, w.data)
  {
  }

  lemma CommittingParts(disk: bytes, blockSize: nat, g: GptDisk, primary: bytes, backup: bytes, writes: seq<Write>)
    requires Committing(disk, blockSize, g, primary, backup, writes) && AllFit(writes, |disk|)
    ensures blockSize > 0 && |writes| == 4 && AllApart(writes) && |Applied(disk, writes, 4)| == |disk|
    ensures
      var p, b, last := g.primary.header, g.backup.header, Block(g.primary.header.backupLba, blockSize);
      && 2 * blockSize <= |disk| && last + blockSize <= |disk|
      && g.primary.block == Cut(disk, blockSize, blockSize) && g.backup.block == Cut(disk, last, blockSize)
      && |g.primary.block| == |g.backup.block| == blockSize
      && blockSize < U64_LIMIT && last < U64_LIMIT
      && Block(p.entriesLba, blockSize) < U64_LIMIT && Block(b.entriesLba, blockSize) < U64_LIMIT
  {
    hide *;
    EachFits(writes, |disk|);
    LaidOut(disk, blockSize, g, primary, backup, writes);
    LoadMeaning(disk, blockSize, g);
    BlockOf(disk, blockSize, 1, g.primary);
    BlockOf(disk, blockSize, g.primary.header.backupLba, g.backup);
    BlockOne(blockSize);
  }

  lemma EachFits(writes: seq<Write>, size: nat)
    requires AllFit(writes, size)
    ensures forall w <- writes :: Fits(w, size)
  {
  }

  lemma LaidOut(disk: bytes, blockSize: nat, g: GptDisk, primary: bytes, backup: bytes, writes: seq<Write>)
    requires Committing(disk, blockSize, g, primary, backup, writes)
    ensures blockSize > 0 && Load(disk, blockSize) == Ok(g) && |writes| == 4 && AllApart(writes)
  {
    hide Load, CommitWrites, AllFit, AllApart;
  }

  lemma BlockOf(disk: bytes, blockSize: nat, lba: nat, c: Copy)
    requires blockSize > 0 && CopyAt(disk, blockSize, lba, c)
    ensures |c.block| == blockSize && Block(lba, blockSize) + blockSize <= |disk| && c.block == Cut(disk, Block(lba, blockSize), blockSize)
    ensures Block(lba, blockSize) < U64_LIMIT && Block(c.header.entriesLba, blockSize) < U64_LIMIT
  {
    hide HeaderIs, Crc32, Block;
  }

  lemma BlockOne(blockSize: nat)
    ensures Block(1, blockSize) == blockSize
  {
  }

  lemma UpdatedLength(now: bytes, raw: bytes, entries: bytes)
    requires UpdatedIs(now, raw, entries)
    ensures |now| == |raw|
  {
  }

  lemma AgreeOne(x: bytes, y: bytes, i: nat)
    requires Agree(x, y, i, 1)
    ensures i < |x| == |y| && x[i] == y[i]
  {
    assert x[i] == x[i..i + 1][0] && y[i] == y[i..i + 1][0];
  }

  /// ... and every byte outside of these four places as it was.
  lemma CommitKeeps(disk: bytes, blockSize: nat, g: GptDisk, primary: bytes, backup: bytes, writes: seq<Write>, i: nat)
    requires Committing(disk, blockSize, g, primary, backup, writes) && AllFit(writes, |disk|) && i < |disk|
    requires !(Block(g.primary.header.entriesLba, blockSize) <= i < Block(g.primary.header.entriesLba, blockSize) + |primary|)
    requires !(Block(g.backup.header.entriesLba, blockSize) <= i < Block(g.backup.header.entriesLba, blockSize) + |backup|)
    requires !(blockSize <= i < 2 * blockSize)
    requires !(Block(g.primary.header.backupLba, blockSize) <= i < Block(g.primary.header.backupLba, blockSize) + blockSize)
    ensures |writes| == 4 && |Applied(disk, writes, 4)| == |disk| && Applied(disk, writes, 4)[i] == disk[i]
  {
    hide *;
    EachFits(writes, |disk|);
    CommittingParts(disk, blockSize, g, primary, backup, writes);
    var now := Applied(disk, writes, 4);
    WritesMeaning(disk, blockSize, g, primary, backup, writes);
    UpdatedLength(writes[1].data, g.primary.block, primary);
    UpdatedLength(writes[3].data, g.backup.block, backup);
    UntouchedBy(disk, writes, 4, i, 1);
    AgreeOne(disk, now, i);
  }
}
