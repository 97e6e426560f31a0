/// A disk that `load` of `src/ab_slots.rs` accepts and `commit` may write: the premises of the crash
/// lemmas are met for every table of its size.
module DiskWitness {
  import opened Bytes
  import opened Gpt

  const BLOCK: nat := 512

  /// A header for four entries of 128 bytes, without checksums.
  function RawHeader(current: u64, backup: u64, entries: u64): (raw: bytes)
    ensures |raw| == BLOCK
  {
    var numbered := Splice(Splice(Splice(Splice(Zeros(512), 0, GPT_SIGNATURE), 12, ToLe32(92)), 24, ToLe64(current)), 32, ToLe64(backup));
    Splice(Splice(Splice(numbered, 72, ToLe64(entries)), 80, ToLe32(4)), 84, ToLe32(128))
  }

  lemma RawWords(current: u64, backup: u64, entries: u64)
    ensures
      var raw := RawHeader(current, backup, entries);
      && raw[0..8] == GPT_SIGNATURE && raw[12..16] == ToLe32(92)
      && raw[24..32] == ToLe64(current) && raw[32..40] == ToLe64(backup)
      && raw[40..48] == Zeros(512)[40..48] && raw[48..56] == Zeros(512)[48..56]
      && raw[72..80] == ToLe64(entries) && raw[80..84] == ToLe32(4) && raw[84..88] == ToLe32(128)
      && raw[88..92] == Zeros(512)[88..92]
  {
    var zeros := Zeros(512);
    assert |GPT_SIGNATURE| == 8;
    var s1 := Splice(zeros, 0, GPT_SIGNATURE);
    var s2 := Splice(s1, 12, ToLe32(92));
    var s3 := Splice(s2, 24, ToLe64(current));
    var s4 := Splice(s3, 32, ToLe64(backup));
    var s5 := Splice(s4, 72, ToLe64(entries));
    var s6 := Splice(s5, 80, ToLe32(4));
    var raw := Splice(s6, 84, ToLe32(128));
    hide Bytes.ToLe32, Bytes.ToLe64, Bytes.Ascii, Splice, Zeros;
    SplicedWord(zeros, 0, GPT_SIGNATURE);
    SplicedWord(s1, 12, ToLe32(92));
    SplicedWord(s2, 24, ToLe64(current));
    SplicedWord(s3, 32, ToLe64(backup));
    SplicedWord(s4, 72, ToLe64(entries));
    SplicedWord(s5, 80, ToLe32(4));
    SplicedWord(s6, 84, ToLe32(128));
    SameWord(s1, raw, 0, 8);
    SameWord(s2, raw, 12, 4);
    SameWord(s3, raw, 24, 8);
    SameWord(s4, raw, 32, 8);
    SameWord(zeros, raw, 40, 8);
    SameWord(zeros, raw, 48, 8);
    SameWord(s5, raw, 72, 8);
    SameWord(s6, raw, 80, 4);
    SameWord(zeros, raw, 88, 4);
  }

  lemma RawFields(current: u64, backup: u64, entries: u64)
    requires current < 5 && backup < 5 && entries < 5
    ensures GoodFields(RawHeader(current, backup, entries), 5)
    ensures Fields(RawHeader(current, backup, entries)) == GptHeader(current, backup, entries, 4, 128, 0)
  {
    RawWords(current, backup, entries);
    ZeroWords();
    Le32ToLe32(92);
    Le64ToLe64(current);
    Le64ToLe64(backup);
    Le64ToLe64(entries);
    Le32ToLe32(4);
    Le32ToLe32(128);
    hide RawHeader, Bytes.ToLe32, Bytes.ToLe64, Bytes.Le32, Bytes.Le64, Bytes.Ascii, Splice, Zeros;
    var raw := RawHeader(current, backup, entries);
    assert raw[0..8] == raw[..8];
  }

  lemma ZeroWords()
    ensures Le64(Zeros(512)[40..48]) == 0 && Le64(Zeros(512)[48..56]) == 0 && Le32(Zeros(512)[88..92]) == 0
  {
    var zeros := Zeros(512);
    assert zeros[40..48] == [0, 0, 0, 0, 0, 0, 0, 0] && zeros[48..56] == [0, 0, 0, 0, 0, 0, 0, 0] && zeros[88..92] == [0, 0, 0, 0];
  }

  /// A valid header for this table.
  function Header(current: u64, backup: u64, entries: u64, table: bytes): (block: bytes)
    requires current < 5 && backup < 5 && entries < 5
    ensures |block| == BLOCK
  {
    RawFields(current, backup, entries);
    UpdatedIsValid(RawHeader(current, backup, entries), 5, table);
    UpdateHeader(RawHeader(current, backup, entries), table).value
  }

  /// Five blocks: nothing, the primary header and table, the backup table and header.
  function Disk(table: bytes): (disk: bytes)
    requires |table| == BLOCK
    ensures |disk| == 5 * BLOCK
  {
    Zeros(512) + Header(1, 4, 2, table) + table + table + Header(4, 1, 3, table)
  }

  lemma HeaderParses(current: u64, backup: u64, entries: u64, table: bytes)
    requires current < 5 && backup < 5 && entries < 5
    ensures ParseGptHeader(Header(current, backup, entries, table), 5)
      == Ok(GptHeader(current, backup, entries, 4, 128, Crc32(table)))
  {
    RawFields(current, backup, entries);
    UpdatedIsValid(RawHeader(current, backup, entries), 5, table);
    hide RawHeader, UpdateHeader, ParseGptHeader, Crc32, Fields, GoodFields;
  }

  lemma Blocks(table: bytes)
    requires |table| == BLOCK
    ensures
      var disk := Disk(table);
      && disk[BLOCK..2 * BLOCK] == Header(1, 4, 2, table) && disk[2 * BLOCK..3 * BLOCK] == table
      && disk[3 * BLOCK..4 * BLOCK] == table && disk[4 * BLOCK..5 * BLOCK] == Header(4, 1, 3, table)
  {
    hide Header, Zeros;
  }

  function Loaded(table: bytes): GptDisk
    requires |table| == BLOCK
  {
    GptDisk(Copy(GptHeader(1, 4, 2, 4, 128, Crc32(table)), Header(1, 4, 2, table), table),
            Copy(GptHeader(4, 1, 3, 4, 128, Crc32(table)), Header(4, 1, 3, table), table))
  }

  /// A copy whose two regions hold a parsed header and its table.
  lemma CopyReads(disk: bytes, lba: u64, block: bytes, h: GptHeader, table: bytes)
    requires |disk| == 5 * BLOCK && |block| == |table| == BLOCK && lba < 5 && h.entriesLba < 5
    requires h.entryCount == 4 && h.entrySize == 128 && h.entryArrayCrc32 == Crc32(table)
    requires ParseGptHeader(block, 5) == Ok(h)
    requires disk[lba * BLOCK..lba * BLOCK + BLOCK] == block && disk[h.entriesLba * BLOCK..h.entriesLba * BLOCK + BLOCK] == table
    ensures ReadCopy(disk, BLOCK, lba) == Ok(Copy(h, block, table))
  {
    hide ParseGptHeader, Crc32;
    assert ReadEntries(disk, BLOCK, h) == Ok(table);
    ReadCopyOf(disk, BLOCK, lba, block, h);
  }

  lemma DiskLoads(table: bytes)
    requires |table| == BLOCK
    ensures Load(Disk(table), BLOCK) == Ok(Loaded(table))
  {
    var disk, g := Disk(table), Loaded(table);
    Blocks(table);
    HeaderParses(1, 4, 2, table);
    HeaderParses(4, 1, 3, table);
    hide Disk, Header, ParseGptHeader, Crc32, ReadCopy;
    CopyReads(disk, 1, g.primary.block, g.primary.header, table);
    CopyReads(disk, 4, g.backup.block, g.backup.header, table);
  }

  /// Committing any tables of that size to the disk meets the premises of the crash and reload lemmas.
  lemma DiskCommits(table: bytes, primary: bytes, backup: bytes) returns (writes: seq<Write>)
    requires |table| == |primary| == |backup| == BLOCK
    ensures Committing(Disk(table), BLOCK, Loaded(table), primary, backup, writes) && AllFit(writes, |Disk(table)|)
  {
    var g := Loaded(table);
    DiskLoads(table);
    HeaderParses(1, 4, 2, table);
    HeaderParses(4, 1, 3, table);
    UpdatedParses(g.primary.block, 5, primary);
    UpdatedParses(g.backup.block, 5, backup);
    FourRegions(g, primary, backup);
    hide Disk, Header, ParseGptHeader, Crc32, Load, UpdateHeader, CommitWrites, AllApart, AllFit;
    writes := CommitWrites(Edited(g, primary, backup), BLOCK).value;
  }

  lemma FourRegions(g: GptDisk, primary: bytes, backup: bytes)
    requires g.primary.header.currentLba == 1 && g.primary.header.entriesLba == 2
    requires g.backup.header.currentLba == 4 && g.backup.header.entriesLba == 3
    requires |primary| == |backup| == BLOCK && UpdateHeader(g.primary.block, primary).Ok? && UpdateHeader(g.backup.block, backup).Ok?
    requires |UpdateHeader(g.primary.block, primary).value| == |UpdateHeader(g.backup.block, backup).value| == BLOCK
    ensures CommitWrites(Edited(g, primary, backup), BLOCK).Ok?
    ensures
      var writes := CommitWrites(Edited(g, primary, backup), BLOCK).value;
      |writes| == 4 && AllApart(writes) && AllFit(writes, 5 * BLOCK)
  {
    hide UpdateHeader;
  }
}
