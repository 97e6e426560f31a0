/// What choosing a slot does to the bytes of a partition table: `set_active_slot` of `src/ab_slots.rs`.
module SlotMeaning {
  import opened Bytes
  import opened Gpt
  import opened AbSlots
  import SlotCommit
  import GptMeaning

  // Entries, byte by byte.

  /// The slot attribute of an entry says that it is active: bit 2 of byte 54.
  predicate HasBit(e: bytes)
    requires |e| >= 128
  {
    e[54] / 4 % 2 == 1
  }

  /// The type GUID of an entry in use is not all zero.
  predicate Used(e: bytes)
    requires |e| >= 128
  {
    exists i :: 0 <= i < 16 && e[i] != 0
  }

  /// A letter of the name: 16 bits in little-endian order.
  function Letter(e: bytes, k: nat): nat
    requires |e| >= 128 && k < 36
  {
    e[56 + 2 * k] as int + 0x100 * e[57 + 2 * k] as int
  }

  /// The letters up to the first zero, or all 36.
  predicate Spells(e: bytes, name: Name)
    requires |e| >= 128
  {
    && |name| <= 36 && (forall k :: 0 <= k < |name| ==> Letter(e, k) == name[k] != 0)
    && (|name| < 36 ==> Letter(e, |name|) == 0)
  }

  predicate High(unit: nat) { 0xd800 <= unit <= 0xdbff }

  predicate Low(unit: nat) { 0xdc00 <= unit <= 0xdfff }

  predicate PairedAt(name: Name, k: nat)
    requires k < |name|
  {
    && (High(name[k]) ==> k + 1 < |name| && Low(name[k + 1]))
    && (Low(name[k]) ==> k > 0 && High(name[k - 1]))
  }

  /// Surrogates come in pairs.
  ghost predicate Paired(name: Name) { forall k :: 0 <= k < |name| ==> PairedAt(name, k) }

  ghost predicate Readable(e: bytes)
    requires |e| >= 128
  {
    exists name: Name :: Spells(e, name) && Paired(name)
  }

  ghost predicate Named(e: bytes, name: Name)
    requires |e| >= 128
  {
    name != [] && Spells(e, name) && Paired(name)
  }

  lemma BitMeaning(e: bytes)
    requires IsEntry(e)
    ensures IsActive(e) <==> HasBit(e)
    ensures IsUnused(e) <==> !Used(e)
  {
  }

  /// Which slot a pair reports: that of the first entry whose bit is set.
  lemma ActiveMeaning(a: bytes, b: bytes)
    requires IsEntry(a) && IsEntry(b)
    ensures ActiveSlot(a, b) == if HasBit(a) then Some(A) else if HasBit(b) then Some(B) else None
  {
    BitMeaning(a);
    BitMeaning(b);
  }

  // Names.

  function Unit(raw: bytes, k: nat): nat
    requires 2 * k + 2 <= |raw|
  {
    raw[2 * k] as int + 0x100 * raw[2 * k + 1] as int
  }

  lemma {:induction false} UnitsMeaning(raw: bytes)
    ensures
      var units := NameUnits(raw);
      && 2 * |units| <= |raw| && (forall k :: 0 <= k < |units| ==> Unit(raw, k) == units[k] != 0)
      && (2 * |units| + 2 <= |raw| ==> Unit(raw, |units|) == 0)
  {
    if |raw| >= 2 && Unit(raw, 0) != 0 {
      UnitsMeaning(raw[2..]);
      var units, rest := NameUnits(raw), NameUnits(raw[2..]);
      assert units == [Unit(raw, 0)] + rest;
      forall k | 0 < k && 2 * k + 2 <= |raw| ensures Unit(raw, k) == Unit(raw[2..], k - 1) {
        LaterUnit(raw, k);
      }
      hide Unit, NameUnits;
      forall k | 0 <= k < |units| ensures Unit(raw, k) == units[k] != 0 {
        if k > 0 {
          assert units[k] == rest[k - 1];
        }
      }
    }
  }

  lemma LaterUnit(raw: bytes, k: nat)
    requires k > 0 && 2 * k + 2 <= |raw|
    ensures Unit(raw, k) == Unit(raw[2..], k - 1)
  {
    assert raw[2..][2 * (k - 1)] == raw[2 * k] && raw[2..][2 * (k - 1) + 1] == raw[2 * k + 1];
  }

  /// The name that an entry spells is unique.
  lemma SpelledOnce(e: bytes, name: Name, other: Name)
    requires |e| >= 128 && Spells(e, name) && Spells(e, other)
    ensures name == other
  {
    hide Letter;
    var zero := if |name| < 36 then Letter(e, |name|) else 0;
    var zero' := if |other| < 36 then Letter(e, |other|) else 0;
  }

  lemma EntrySpells(e: bytes)
    requires IsEntry(e)
    ensures Spells(e, NameUnits(e[56..128]))
  {
    var raw := e[56..128];
    UnitsMeaning(raw);
    var units := NameUnits(raw);
    forall k | 0 <= k < 36 ensures Letter(e, k) == Unit(raw, k) {
      assert raw[2 * k] == e[56 + 2 * k] && raw[2 * k + 1] == e[57 + 2 * k];
    }
    hide NameUnits, Letter, Unit;
  }

  lemma PairedTail(name: Name, n: nat, k: nat)
    requires 0 < n <= k < |name| && !High(name[n - 1])
    ensures PairedAt(name, k) <==> PairedAt(name[n..], k - n)
  {
    assert name[n..][k - n] == name[k];
  }

  lemma PairedParts(name: Name, n: nat)
    requires 0 < n <= |name| && !High(name[n - 1]) && forall k :: 0 <= k < n ==> PairedAt(name, k)
    ensures Paired(name) <==> Paired(name[n..])
  {
    hide PairedAt, High;
    if Paired(name[n..]) {
      forall k | n <= k < |name| ensures PairedAt(name, k) {
        PairedTail(name, n, k);
      }
    }
    if Paired(name) {
      forall k | 0 <= k < |name[n..]| ensures PairedAt(name[n..], k) {
        PairedTail(name, n, k + n);
      }
    }
  }

  lemma {:induction false} Utf16Meaning(name: Name)
    ensures ValidUtf16(name) <==> Paired(name)
    decreases |name|
  {
    if name == [] {
    } else if !PairedAt(name, 0) {
      assert !ValidUtf16(name);
    } else if High(name[0]) {
      assert PairedAt(name, 1);
      PairedParts(name, 2);
      Utf16Meaning(name[2..]);
    } else {
      PairedParts(name, 1);
      Utf16Meaning(name[1..]);
    }
  }

  lemma NameMeaning(e: bytes)
    requires IsEntry(e)
    ensures PartitionName(e).Ok? <==> Readable(e)
    ensures forall name: Name :: PartitionName(e) == Ok(Some(name)) <==> Named(e, name)
  {
    var units := NameUnits(e[56..128]);
    EntrySpells(e);
    Utf16Meaning(units);
    hide Spells, NameUnits, ValidUtf16, Paired;
    forall name: Name ensures Spells(e, name) <==> name == units {
      if Spells(e, name) {
        SpelledOnce(e, name, units);
      }
    }
    assert ValidUtf16([]) by { Utf16Meaning([]); NothingPaired(); }
  }

  lemma NothingPaired()
    ensures Paired([])
  {
  }

  // Finding entries.

  /// The entry is the first of that name among those in use, and every one before it can be read.
  ghost predicate First(es: seq<bytes>, name: Name, i: nat)
    requires IsTable(es)
  {
    && i < |es| && Used(es[i]) && Named(es[i], name)
    && forall j :: 0 <= j < i && Used(es[j]) ==> Readable(es[j]) && !Named(es[j], name)
  }

  ghost predicate Absent(es: seq<bytes>, name: Name)
    requires IsTable(es)
  {
    forall j :: 0 <= j < |es| && Used(es[j]) ==> Readable(es[j]) && !Named(es[j], name)
  }

  lemma {:induction false} FindMeaning(es: seq<bytes>, name: Name)
    requires IsTable(es)
    ensures forall i: nat :: FindEntry(es, name) == Ok(Some(i)) <==> First(es, name, i)
    ensures FindEntry(es, name) == Ok(None) <==> Absent(es, name)
  {
    hide Used, Readable, Named, PartitionName, IsUnused;
    if es != [] {
      var e, rest := es[0], es[1..];
      assert forall j :: 0 <= j < |rest| ==> rest[j] == es[j + 1];
      FindMeaning(rest, name);
      BitMeaning(e);
      NameMeaning(e);
      forall i: nat ensures FindEntry(es, name) == Ok(Some(i)) <==> First(es, name, i) {
        FirstTail(es, name, i);
      }
      AbsentTail(es, name);
    }
  }

  lemma FirstTail(es: seq<bytes>, name: Name, i: nat)
    requires IsTable(es) && es != []
    ensures IsTable(es[1..])
    ensures First(es, name, i) <==>
      if i == 0 then Used(es[0]) && Named(es[0], name)
      else First(es[1..], name, i - 1) && (Used(es[0]) ==> Readable(es[0]) && !Named(es[0], name))
  {
    hide Used, Readable, Named;
    assert forall j :: 0 <= j < |es| - 1 ==> es[1..][j] == es[j + 1];
    assert forall j :: 0 < j < |es| ==> es[1..][j - 1] == es[j];
  }

  lemma AbsentTail(es: seq<bytes>, name: Name)
    requires IsTable(es) && es != []
    ensures IsTable(es[1..])
    ensures Absent(es, name) <==> Absent(es[1..], name) && (Used(es[0]) ==> Readable(es[0]) && !Named(es[0], name))
  {
    hide Used, Readable, Named;
    assert forall j :: 0 <= j < |es| - 1 ==> es[1..][j] == es[j + 1];
    assert forall j :: 0 < j < |es| ==> es[1..][j - 1] == es[j];
  }

  // Pairs.

  /// The letters of a text.
  function Letters(text: string): Name { seq(|text|, i requires 0 <= i < |text| => text[i] as int) }

  lemma NamesMeaning()
    ensures SUFFIX_A == Letters("_a") && SUFFIX_B == Letters("_b")
    ensures XBL == Letters("xbl") && BOOT == Letters("boot")
  {
  }

  /// An entry after it was made active, or inactive, with this type GUID: no byte changes but those of the
  /// GUID and byte 54, where an inactive entry loses bit 2 alone.
  predicate SwitchedIs(now: bytes, was: bytes, active: bool, guid: bytes)
    requires |was| >= 128
  {
    && |now| == |was| && now[..16] == guid
    && now[54] == (if active then 0x0f else if HasBit(was) then was[54] - 4 else was[54])
    && forall i :: 16 <= i < |was| && i != 54 ==> now[i] == was[i]
  }

  /// Both entries after slot A, or B, was chosen: the chosen one has the GUID that was active, which is that of
  /// A when both were.
  predicate PairIs(a': bytes, b': bytes, a: bytes, b: bytes, chooseA: bool)
    requires |a| >= 128 && |b| >= 128
  {
    var (on, off) := if HasBit(a) then (a[..16], b[..16]) else (b[..16], a[..16]);
    if chooseA then SwitchedIs(a', a, true, on) && SwitchedIs(b', b, false, off)
    else SwitchedIs(a', a, false, off) && SwitchedIs(b', b, true, on)
  }

  lemma UpdateMeaning(e: bytes, active: bool, activeGuid: bytes, inactiveGuid: bytes)
    requires IsEntry(e) && |activeGuid| == |inactiveGuid| == 16
    ensures SwitchedIs(UpdateEntry(e, active, activeGuid, inactiveGuid), e, active, if active then activeGuid else inactiveGuid)
  {
    var now, guid := UpdateEntry(e, active, activeGuid, inactiveGuid), if active then activeGuid else inactiveGuid;
    assert forall i :: 0 <= i < 16 ==> now[i] == guid[i];
    assert now[..16] == guid;
    hide Splice;
  }

  lemma PairMeaning(a: bytes, b: bytes, target: Slot)
    requires IsEntry(a) && IsEntry(b)
    ensures
      var (a', b') := PairResult(a, b, target);
      if HasBit(a) || HasBit(b) then PairIs(a', b', a, b, target == A) else a' == a && b' == b
  {
    BitMeaning(a);
    BitMeaning(b);
    hide UpdateEntry, SwitchedIs, IsActive, HasBit;
    UpdateMeaning(a, target == A, ActiveGuid(a, b), InactiveGuid(a, b));
    UpdateMeaning(b, target == B, ActiveGuid(a, b), InactiveGuid(a, b));
  }

  // Tables.

  /// Entries `i` and `j` are the pair of this base name.
  ghost predicate PairAt(es: seq<bytes>, base: Name, i: nat, j: nat)
    requires IsTable(es)
  {
    && i < |es| && j < |es|
    && First(es, base + Letters("_a"), i) && First(es, base + Letters("_b"), j)
  }

  /// Some slot of the pair is active, and the pair is not that of the first boot loader.
  predicate Switches(es: seq<bytes>, base: Name, i: nat, j: nat)
    requires IsTable(es) && i < |es| && j < |es|
  {
    base != Letters("xbl") && (HasBit(es[i]) || HasBit(es[j]))
  }

  /// Each of these pairs is switched, and every other entry is as it was.
  ghost predicate TableIs(now: seq<bytes>, was: seq<bytes>, chooseA: bool)
    requires IsTable(was)
  {
    && |now| == |was|
    && (forall base: Name, i: nat, j: nat :: PairAt(was, base, i, j) && Switches(was, base, i, j) ==>
          PairIs(now[i], now[j], was[i], was[j], chooseA))
    && (forall k :: 0 <= k < |was| && !Concerned(was, k) ==> now[k] == was[k])
  }

  /// Some pair is switched.
  ghost predicate SomeSwitch(es: seq<bytes>)
    requires IsTable(es)
  {
    exists base: Name, i: nat, j: nat :: PairAt(es, base, i, j) && Switches(es, base, i, j)
  }

  /// The entry belongs to a pair that is switched.
  ghost predicate Concerned(es: seq<bytes>, k: nat)
    requires IsTable(es)
  {
    exists base: Name, i: nat, j: nat :: PairAt(es, base, i, j) && Switches(es, base, i, j) && (k == i || k == j)
  }

  lemma PairsMeaning(es: seq<bytes>, base: Name)
    requires IsTable(es)
    ensures HasPair(es, base) ==> PairAt(es, base, IndexA(es, base), IndexB(es, base))
    ensures forall i: nat, j: nat :: PairAt(es, base, i, j) ==> HasPair(es, base) && i == IndexA(es, base) && j == IndexB(es, base)
  {
    NamesMeaning();
    hide First, Letters, FindEntry, Absent;
    FindMeaning(es, base + SUFFIX_A);
    FindMeaning(es, base + SUFFIX_B);
  }

  /// What becomes of a pair that is in the list.
  lemma DoneMeaning(es: seq<bytes>, fs: seq<bytes>, pairs: seq<Name>, target: Slot, n: nat)
    requires IsTable(es) && HasPairs(es, pairs) && Effect(es, fs, pairs, target) && n < |pairs|
    ensures HasPair(es, pairs[n]) && |fs| == |es|
    ensures
      var i, j := IndexA(es, pairs[n]), IndexB(es, pairs[n]);
      if pairs[n] != XBL && (HasBit(es[i]) || HasBit(es[j])) then PairIs(fs[i], fs[j], es[i], es[j], target == A)
      else fs[i] == es[i] && fs[j] == es[j]
  {
    hide PairIs, HasBit, IndexA, IndexB, HasPair, PairResult, Belongs;
    assert HasPair(es, pairs[n]) && |fs| == |es|;
    assert PairDone(es, fs, pairs[n], target);
    PairMeaning(es[IndexA(es, pairs[n])], es[IndexB(es, pairs[n])], target);
  }

  lemma WhoBelongs(es: seq<bytes>, fs: seq<bytes>, pairs: seq<Name>, target: Slot, k: nat) returns (n: nat)
    requires IsTable(es) && HasPairs(es, pairs) && Effect(es, fs, pairs, target) && k < |es|
    requires |fs| == |es| ==> fs[k] != es[k]
    ensures n < |pairs| && pairs[n] != XBL && HasPair(es, pairs[n]) && (k == IndexA(es, pairs[n]) || k == IndexB(es, pairs[n]))
  {
    hide IndexA, IndexB, HasPair, PairDone;
    assert |fs| == |es|;
    assert Belongs(es, pairs, k);
    n :| 0 <= n < |pairs| && pairs[n] != XBL && (k == IndexA(es, pairs[n]) || k == IndexB(es, pairs[n]));
  }

  lemma SwitchedPair(es: seq<bytes>, fs: seq<bytes>, target: Slot, base: Name, i: nat, j: nat)
    requires IsTable(es) && SlotPairs(es).Ok? && HasPairs(es, SlotPairs(es).value)
    requires Effect(es, fs, SlotPairs(es).value, target) && PairAt(es, base, i, j) && Switches(es, base, i, j)
    ensures |fs| == |es| && PairIs(fs[i], fs[j], es[i], es[j], target == A)
  {
    NamesMeaning();
    hide Letters, SlotPairs, First, PairIs, HasBit, Effect, IndexA, IndexB, HasPair, HasPairs;
    SlotPairsExact(es, base);
    PairsMeaning(es, base);
    var n :| 0 <= n < |SlotPairs(es).value| && SlotPairs(es).value[n] == base;
    DoneMeaning(es, fs, SlotPairs(es).value, target, n);
  }

  lemma ChangedEntry(es: seq<bytes>, fs: seq<bytes>, target: Slot, k: nat)
    requires IsTable(es) && SlotPairs(es).Ok? && HasPairs(es, SlotPairs(es).value)
    requires Effect(es, fs, SlotPairs(es).value, target) && k < |es| && (|fs| == |es| ==> fs[k] != es[k])
    ensures Concerned(es, k)
  {
    NamesMeaning();
    hide Letters, SlotPairs, First, PairIs, HasBit, Effect, IndexA, IndexB, HasPair, HasPairs;
    var n := WhoBelongs(es, fs, SlotPairs(es).value, target, k);
    var base := SlotPairs(es).value[n];
    PairsMeaning(es, base);
    DoneMeaning(es, fs, SlotPairs(es).value, target, n);
    assert PairAt(es, base, IndexA(es, base), IndexB(es, base)) && Switches(es, base, IndexA(es, base), IndexB(es, base));
  }

  lemma EffectMeaning(es: seq<bytes>, fs: seq<bytes>, target: Slot)
    requires IsTable(es) && SlotPairs(es).Ok? && HasPairs(es, SlotPairs(es).value)
    requires Effect(es, fs, SlotPairs(es).value, target)
    ensures TableIs(fs, es, target == A)
  {
    hide First, Letters, SlotPairs, PairIs, HasBit, Concerned, PairDone, Belongs, HasPairs;
    forall base: Name, i: nat, j: nat | PairAt(es, base, i, j) && Switches(es, base, i, j)
      ensures PairIs(fs[i], fs[j], es[i], es[j], target == A)
    {
      SwitchedPair(es, fs, target, base, i, j);
    }
    forall k | 0 <= k < |es| && !Concerned(es, k) ensures fs[k] == es[k] {
      if fs[k] != es[k] {
        ChangedEntry(es, fs, target, k);
      }
    }
  }

  /// The names can be listed exactly when every entry in use can be read.
  lemma {:induction false} ListedMeaning(es: seq<bytes>)
    requires IsTable(es)
    ensures PartitionNames(es).Ok? <==> forall k :: 0 <= k < |es| && Used(es[k]) ==> Readable(es[k])
  {
    hide Used, Readable, PartitionName, IsUnused;
    if es != [] {
      assert forall k :: 0 <= k < |es| - 1 ==> es[1..][k] == es[k + 1];
      assert forall k :: 0 < k < |es| ==> es[1..][k - 1] == es[k];
      ListedMeaning(es[1..]);
      BitMeaning(es[0]);
      NameMeaning(es[0]);
    }
  }

  /// Choosing a slot on two equal tables: it fails when an entry in use cannot be read, or when no slot of
  /// boot is active; otherwise both tables are switched, and the disk is written when some pair is concerned.
  lemma ChoiceMeaning(t: Tables, target: Slot)
    requires IsTable(t.primary) && t.backup == t.primary
    ensures
      var es, pairs := t.primary, SlotPairs(t.primary);
      && (pairs.Ok? <==> forall k :: 0 <= k < |es| && Used(es[k]) ==> Readable(es[k]))
      && (pairs.Ok? ==>
            var r := SetActive(t, pairs.value, target);
            && (r.Ok? <==> forall i: nat, j: nat :: PairAt(es, Letters("boot"), i, j) ==> HasBit(es[i]) || HasBit(es[j]))
            && (r.Ok? ==> TableIs(r.value.primary, es, target == A) && r.value.backup == r.value.primary)
            && (r.Ok? ==>
                  (Changes(t, pairs.value, target) <==> SomeSwitch(es))))
  {
    hide *;
    var es, pairs := t.primary, SlotPairs(t.primary);
    ListedMeaning(es);
    PairsListed(es);
    if pairs.Ok? {
      SlotPairsHeld(es);
      BootMeaning(t, target);
      if SetActive(t, pairs.value, target).Ok? {
        ChooseSlot(t, target);
        EffectMeaning(es, SetActive(t, pairs.value, target).value.primary, target);
        ChangesMeaning(t, target);
      }
    }
  }

  lemma PairsListed(es: seq<bytes>)
    requires IsTable(es)
    ensures SlotPairs(es).Ok? <==> PartitionNames(es).Ok?
  {
  }

  lemma BootMeaning(t: Tables, target: Slot)
    requires IsTable(t.primary) && t.backup == t.primary && SlotPairs(t.primary).Ok?
    ensures SetActive(t, SlotPairs(t.primary).value, target).Ok? <==>
      forall i: nat, j: nat :: PairAt(t.primary, Letters("boot"), i, j) ==> HasBit(t.primary[i]) || HasBit(t.primary[j])
  {
    var es, boot := t.primary, Letters("boot");
    NamesMeaning();
    hide Letters, SlotPairs, PairAt, SetActive, Has, FindEntry, IsActive, HasBit;
    SlotPairsExact(es, boot);
    SlotPairsHeld(es);
    SetActiveSucceeds(t, SlotPairs(es).value, target);
    PairsMeaning(es, boot);
    if HasPair(es, boot) {
      BitMeaning(EntryA(es, boot));
      BitMeaning(EntryB(es, boot));
    }
  }

  lemma ChangesMeaning(t: Tables, target: Slot)
    requires IsTable(t.primary) && SlotPairs(t.primary).Ok? && HasPairs(t.primary, SlotPairs(t.primary).value)
    requires IsTable(t.backup) && SetActive(t, SlotPairs(t.primary).value, target).Ok?
    ensures Changes(t, SlotPairs(t.primary).value, target) <==> SomeSwitch(t.primary)
  {
    hide HasPairs, SlotPairs, SomeSwitch, SetActive, HasMetadata, Changes;
    ChangesExactly(t, SlotPairs(t.primary).value, target);
    if SomeListed(t.primary) {
      ListedSwitches(t.primary);
    }
    if SomeSwitch(t.primary) {
      SwitchedIsListed(t.primary);
    }
  }

  ghost predicate SomeListed(es: seq<bytes>)
    requires IsTable(es) && SlotPairs(es).Ok? && HasPairs(es, SlotPairs(es).value)
  {
    var pairs := SlotPairs(es).value;
    exists k :: 0 <= k < |pairs| && pairs[k] != XBL && HasMetadata(EntryA(es, pairs[k]), EntryB(es, pairs[k]))
  }

  lemma ListedSwitches(es: seq<bytes>)
    requires IsTable(es) && SlotPairs(es).Ok? && HasPairs(es, SlotPairs(es).value) && SomeListed(es)
    ensures SomeSwitch(es)
  {
    NamesMeaning();
    hide Letters, SlotPairs, PairAt, Has, FindEntry, IsActive, HasBit;
    var pairs := SlotPairs(es).value;
    var k :| 0 <= k < |pairs| && pairs[k] != XBL && HasMetadata(EntryA(es, pairs[k]), EntryB(es, pairs[k]));
    var base := pairs[k];
    PairsMeaning(es, base);
    BitMeaning(EntryA(es, base));
    BitMeaning(EntryB(es, base));
    assert PairAt(es, base, IndexA(es, base), IndexB(es, base)) && Switches(es, base, IndexA(es, base), IndexB(es, base));
  }

  lemma SwitchedIsListed(es: seq<bytes>)
    requires IsTable(es) && SlotPairs(es).Ok? && HasPairs(es, SlotPairs(es).value) && SomeSwitch(es)
    ensures SomeListed(es)
  {
    NamesMeaning();
    hide Letters, SlotPairs, First, Has, FindEntry, IsActive, HasBit;
    var base: Name, i: nat, j: nat :| PairAt(es, base, i, j) && Switches(es, base, i, j);
    PairsMeaning(es, base);
    SlotPairsExact(es, base);
    BitMeaning(es[i]);
    BitMeaning(es[j]);
    var pairs := SlotPairs(es).value;
    var k :| 0 <= k < |pairs| && pairs[k] == base;
    assert HasMetadata(EntryA(es, pairs[k]), EntryB(es, pairs[k]));
  }

  /// After the commit the disk loads with both tables switched.
  lemma SwitchedDisk(disk: bytes, blockSize: nat, g: GptDisk, primary: bytes, backup: bytes, writes: seq<Write>, target: Slot)
    requires Committing(disk, blockSize, g, primary, backup, writes) && AllFit(writes, |disk|)
    requires SlotCommit.Chosen(g, primary, backup, target)
    ensures |writes| == 4
    ensures
      var loaded, size := Load(Applied(disk, writes, 4), blockSize), g.primary.header.entrySize;
      && loaded.Ok? && IsTable(Entries(g.primary.entries, size))
      && TableIs(Entries(loaded.value.primary.entries, size), Entries(g.primary.entries, size), target == A)
      && Entries(loaded.value.backup.entries, size) == Entries(loaded.value.primary.entries, size)
  {
    hide Committing, Load, Applied, Effect, TableIs, SetActive, SlotPairs, Entries, HasPairs;
    var t, size := SlotCommit.LoadedTables(g), g.primary.header.entrySize;
    GptMeaning.LaidOut(disk, blockSize, g, primary, backup, writes);
    SlotCommit.SwitchedAfterCommit(disk, blockSize, g, primary, backup, writes, target);
    var loaded := Load(Applied(disk, writes, 4), blockSize);
    EffectMeaning(t.primary, Entries(loaded.value.primary.entries, size), target);
  }

  /// The entries of a table are its pieces of that size.
  lemma {:induction false} PiecesMeaning(table: bytes, size: nat, k: nat)
    requires size > 0
    ensures k < |Entries(table, size)| <==> (k + 1) * size <= |table|
    ensures k < |Entries(table, size)| ==> Entries(table, size)[k] == table[k * size..(k + 1) * size]
    decreases k
  {
    assert (k + 1) * size == k * size + size;
    if k > 0 && |table| >= size {
      PiecesMeaning(table[size..], size, k - 1);
    }
    if k < |Entries(table, size)| {
      EntryAt(table, size, k);
    }
  }
}
