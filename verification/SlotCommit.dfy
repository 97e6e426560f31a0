/// Choosing a slot and committing it, `src/ab_slots.rs`: a crash never exposes a half-switched table.
module SlotCommit {
  import opened Bytes
  import opened Gpt
  import opened AbSlots

  /// The tables of a loaded disk, entry by entry.
  function LoadedTables(g: GptDisk): (t: Tables)
    requires g.primary.header.entrySize >= GPT_MIN_ENTRY_SIZE
    ensures AreTables(t)
  {
    var size := g.primary.header.entrySize;
    EntriesAreTable(g.primary.entries, size);
    EntriesAreTable(g.backup.entries, size);
    Tables(Entries(g.primary.entries, size), Entries(g.backup.entries, size))
  }

  /// The loaded disk with the slot chosen: every pair of the table is set.
  ghost predicate Chosen(g: GptDisk, primary: bytes, backup: bytes, target: Slot) {
    && g.primary.header.entrySize >= GPT_MIN_ENTRY_SIZE
    && var t, size := LoadedTables(g), g.primary.header.entrySize;
    && t.backup == t.primary && SlotPairs(t.primary).Ok?
    && SetActive(t, SlotPairs(t.primary).value, target) == Ok(Tables(Entries(primary, size), Entries(backup, size)))
  }

  /// This table has every pair as it was, or every pair switched.
  ghost predicate Switched(before: seq<bytes>, after: seq<bytes>, target: Slot)
    requires IsTable(before)
  {
    && SlotPairs(before).Ok? && HasPairs(before, SlotPairs(before).value)
    && (after == before || Effect(before, after, SlotPairs(before).value, target))
  }

  /// At every point of the commit, also inside a write, some copy on the disk is whole and has either all
  /// pairs as they were or all pairs switched.
  lemma NeverHalfSwitched(disk: bytes, blockSize: nat, g: GptDisk, primary: bytes, backup: bytes, writes: seq<Write>,
                          after: bytes, target: Slot)
    requires Committing(disk, blockSize, g, primary, backup, writes) && AllFit(writes, |disk|)
    requires Crashed(disk, writes, after) && Chosen(g, primary, backup, target)
    ensures
      exists lba :: (lba == 1 || lba == g.primary.header.backupLba) && ReadCopy(after, blockSize, lba).Ok? &&
        Switched(LoadedTables(g).primary, Entries(ReadCopy(after, blockSize, lba).value.entries, g.primary.header.entrySize), target)
  {
    assert blockSize > 0;
    hide Load, ReadCopy, UpdateHeader, Layout, CommitWrites, Crashed, SetActive, SlotPairs, Effect, Entries, HasPairs;
    CrashConsistent(disk, blockSize, g, primary, backup, writes, after);
    var t, size := LoadedTables(g), g.primary.header.entrySize;
    ChooseSlot(t, target);
    if ReadCopy(after, blockSize, g.primary.header.backupLba) == Ok(g.backup) {
      assert Switched(t.primary, Entries(g.backup.entries, size), target);
    } else {
      assert Switched(t.primary, Entries(primary, size), target);
    }
  }

  /// After the whole commit the disk loads with every pair switched in both tables.
  lemma SwitchedAfterCommit(disk: bytes, blockSize: nat, g: GptDisk, primary: bytes, backup: bytes, writes: seq<Write>, target: Slot)
    requires Committing(disk, blockSize, g, primary, backup, writes) && AllFit(writes, |disk|)
    requires Chosen(g, primary, backup, target)
    ensures |writes| == 4
    ensures
      var loaded, t, size := Load(Applied(disk, writes, 4), blockSize), LoadedTables(g), g.primary.header.entrySize;
      && loaded.Ok? && SlotPairs(t.primary).Ok? && HasPairs(t.primary, SlotPairs(t.primary).value)
      && Effect(t.primary, Entries(loaded.value.primary.entries, size), SlotPairs(t.primary).value, target)
      && Entries(loaded.value.backup.entries, size) == Entries(loaded.value.primary.entries, size)
  {
    hide Load, ReadCopy, UpdateHeader, Layout, CommitWrites, SetActive, SlotPairs, Effect, Entries, HasPairs;
    CommitThenLoad(disk, blockSize, g, primary, backup, writes);
    ChooseSlot(LoadedTables(g), target);
  }
}
