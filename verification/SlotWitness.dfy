/// Partition tables for `src/ab_slots.rs` whose boot pair has no slot metadata.
module SlotWitness {
  import opened Bytes
  import opened Gpt
  import opened AbSlots

  predicate AsciiName(name: Name) { forall i :: 0 <= i < |name| ==> 0 < name[i] < 128 }

  /// The UTF-16 bytes of a name of ASCII characters.
  function Utf16(name: Name): (raw: bytes)
    requires AsciiName(name)
    ensures |raw| == 2 * |name|
  {
    if name == [] then [] else [name[0], 0] + Utf16(name[1..])
  }

  lemma {:induction false} NameRead(name: Name, rest: bytes)
    requires AsciiName(name)
    ensures NameUnits(Utf16(name) + [0, 0] + rest) == name && ValidUtf16(name)
    decreases |name|
  {
    var raw: bytes := Utf16(name) + [0, 0] + rest;
    if name == [] {
      assert Utf16(name) == [];
      assert raw[0] == 0 && raw[1] == 0;
    } else {
      NameRead(name[1..], rest);
      assert raw[0] == name[0] && raw[1] == 0;
      assert raw[2..] == Utf16(name[1..]) + [0, 0] + rest;
      assert [name[0]] + name[1..] == name;
    }
  }

  /// A used entry of this name without attributes.
  function Entry(name: Name): (e: bytes)
    requires |name| < 36 && AsciiName(name)
    ensures |e| == 128
  {
    [1] + Zeros(55) + Utf16(name) + [0, 0] + Zeros(70 - 2 * |name|)
  }

  lemma EntryReads(name: Name)
    requires name != [] && |name| < 36 && AsciiName(name)
    ensures IsEntry(Entry(name)) && !IsUnused(Entry(name)) && !IsActive(Entry(name))
    ensures PartitionName(Entry(name)) == Ok(Some(name))
  {
    var e, tail := Entry(name), Zeros(70 - 2 * |name|);
    NameRead(name, tail);
    assert e[0] == 1 && e[AB_FLAG_OFFSET] == 0;
    assert e[PARTITION_NAME_OFFSET..PARTITION_NAME_OFFSET + PARTITION_NAME_BYTES] == Utf16(name) + [0, 0] + tail;
  }

  const BOOT_A: Name := [0x62, 0x6f, 0x6f, 0x74, 0x5f, 0x61]
  const BOOT_B: Name := [0x62, 0x6f, 0x6f, 0x74, 0x5f, 0x62]

  const BOOT_TABLE: seq<bytes> := [Entry(BOOT_A), Entry(BOOT_B)]

  lemma BootTable()
    ensures IsTable(BOOT_TABLE) && SlotPairs(BOOT_TABLE).Ok?
    ensures Has(BOOT_TABLE, BOOT_A) && IndexOf(BOOT_TABLE, BOOT_A) == 0
    ensures Has(BOOT_TABLE, BOOT_B) && IndexOf(BOOT_TABLE, BOOT_B) == 1
  {
    EntryReads(BOOT_A);
    EntryReads(BOOT_B);
    hide Entry, PartitionName, IsUnused, Bases;
    assert BOOT_A[5] != BOOT_B[5];
    var last := [Entry(BOOT_B)];
    assert BOOT_TABLE[1..] == last && last[1..] == [];
    assert FindEntry(last, BOOT_B) == Ok(Some(0));
    assert PartitionNames([]) == Ok([]) && PartitionNames(last) == Ok([BOOT_B] + []);
  }

  /// The boot pair is there, without slot metadata, and choosing a slot fails.
  lemma NoSlotChosen(target: Slot)
    ensures IsTable(BOOT_TABLE) && SlotPairs(BOOT_TABLE).Ok? && BOOT in SlotPairs(BOOT_TABLE).value
    ensures SetActive(Tables(BOOT_TABLE, BOOT_TABLE), SlotPairs(BOOT_TABLE).value, target) == InvalidData
  {
    BootTable();
    var t, pairs := Tables(BOOT_TABLE, BOOT_TABLE), SlotPairs(BOOT_TABLE).value;
    EntryReads(BOOT_A);
    EntryReads(BOOT_B);
    assert BOOT + SUFFIX_A == BOOT_A && BOOT + SUFFIX_B == BOOT_B;
    assert HasPair(BOOT_TABLE, BOOT) && !HasMetadata(EntryA(BOOT_TABLE, BOOT), EntryB(BOOT_TABLE, BOOT));
    hide *;
    SlotPairsExact(BOOT_TABLE, BOOT);
    SlotPairsHeld(BOOT_TABLE);
    SetActiveSucceeds(t, pairs, target);
  }
}
