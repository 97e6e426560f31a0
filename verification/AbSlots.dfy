/// A/B slots in a partition table, `src/ab_slots.rs`: choosing the active slot of every pair.
module AbSlots {
  import opened Bytes
  import opened Gpt

  const TYPE_GUID_SIZE: nat := 16
  const AB_FLAG_OFFSET: nat := 54
  const PARTITION_NAME_OFFSET: nat := 56
  const PARTITION_NAME_BYTES: nat := 72
  const AB_SLOT_ACTIVE_VAL: byte := 0x0f

  datatype Slot = A | B

  // One entry.

  /// A partition entry; the tables of a loaded disk have entries of at least 128 bytes.
  predicate IsEntry(e: bytes) { |e| >= GPT_MIN_ENTRY_SIZE }

  function Guid(e: bytes): bytes
    requires IsEntry(e)
  {
    e[..TYPE_GUID_SIZE]
  }

  /// Bit 2 of the attribute byte.
  predicate FlagActive(flag: byte) { flag / 4 % 2 == 1 }

  /// `&= !AB_PARTITION_ATTR_SLOT_ACTIVE`.
  function ClearActive(flag: byte): (r: byte)
    ensures !FlagActive(r)
  {
    if FlagActive(flag) then flag - 4 else flag
  }

  predicate IsActive(e: bytes)
    requires IsEntry(e)
  {
    FlagActive(e[AB_FLAG_OFFSET])
  }

  predicate IsUnused(e: bytes)
    requires IsEntry(e)
  {
    forall i :: 0 <= i < TYPE_GUID_SIZE ==> e[i] == 0
  }

  /// A partition name as UTF-16 code units.
  type Name = seq<nat>

  function NameUnits(raw: bytes): Name {
    if |raw| < 2 then []
    else
      var unit: nat := raw[0] as int + 0x100 * raw[1] as int;
      if unit == 0 then [] else [unit] + NameUnits(raw[2..])
  }

  /// `String::from_utf16` accepts the units: surrogates come in pairs.
  predicate ValidUtf16(units: Name) {
    if units == [] then true
    else if 0xd800 <= units[0] < 0xdc00 then |units| > 1 && 0xdc00 <= units[1] < 0xe000 && ValidUtf16(units[2..])
    else !(0xdc00 <= units[0] < 0xe000) && ValidUtf16(units[1..])
  }

  /// `partition_name`.
  function PartitionName(e: bytes): Result<Option<Name>>
    requires IsEntry(e)
  {
    var units := NameUnits(e[PARTITION_NAME_OFFSET..PARTITION_NAME_OFFSET + PARTITION_NAME_BYTES]);
    if units == [] then Ok(None) else if ValidUtf16(units) then Ok(Some(units)) else InvalidData
  }

  /// `update_slot_entry`.
  function UpdateEntry(e: bytes, active: bool, activeGuid: bytes, inactiveGuid: bytes): (r: bytes)
    requires IsEntry(e) && |activeGuid| == |inactiveGuid| == TYPE_GUID_SIZE
    ensures |r| == |e|
  {
    if active then Splice(Splice(e, 0, activeGuid), AB_FLAG_OFFSET, [AB_SLOT_ACTIVE_VAL])
    else Splice(Splice(e, 0, inactiveGuid), AB_FLAG_OFFSET, [ClearActive(e[AB_FLAG_OFFSET])])
  }

  /// Nothing but the type GUID and the attribute byte differs.
  ghost predicate SameOutside(e: bytes, f: bytes) {
    && |e| == |f|
    && forall i :: TYPE_GUID_SIZE <= i < |e| && i != AB_FLAG_OFFSET ==> e[i] == f[i]
  }

  lemma UpdatedEntry(e: bytes, active: bool, activeGuid: bytes, inactiveGuid: bytes)
    requires IsEntry(e) && |activeGuid| == |inactiveGuid| == TYPE_GUID_SIZE
    ensures
      var r := UpdateEntry(e, active, activeGuid, inactiveGuid);
      && SameOutside(e, r) && Guid(r) == (if active then activeGuid else inactiveGuid)
      && r[AB_FLAG_OFFSET] == (if active then AB_SLOT_ACTIVE_VAL else ClearActive(e[AB_FLAG_OFFSET]))
      && IsActive(r) == active
      && PartitionName(r) == PartitionName(e)
  {
    var r := UpdateEntry(e, active, activeGuid, inactiveGuid);
    var guid := if active then activeGuid else inactiveGuid;
    assert forall i :: 0 <= i < TYPE_GUID_SIZE ==> r[i] == guid[i];
    SameWord(e, r, PARTITION_NAME_OFFSET, PARTITION_NAME_BYTES);
  }

  /// An entry is its GUID, its attribute byte and the rest.
  lemma EntryParts(e: bytes, f: bytes)
    requires IsEntry(e) && SameOutside(e, f) && Guid(e) == Guid(f) && e[AB_FLAG_OFFSET] == f[AB_FLAG_OFFSET]
    ensures e == f
  {
    forall i | 0 <= i < |e| ensures e[i] == f[i] {
      if i < TYPE_GUID_SIZE {
        assert Guid(e)[i] == e[i] && Guid(f)[i] == f[i];
      }
    }
  }

  // One pair.

  /// The two entries after `update_pair_table`, when the pair has active metadata.
  function UpdatePair(a: bytes, b: bytes, target: Slot, activeGuid: bytes, inactiveGuid: bytes): (bytes, bytes)
    requires IsEntry(a) && IsEntry(b) && |activeGuid| == |inactiveGuid| == TYPE_GUID_SIZE
  {
    (UpdateEntry(a, target == A, activeGuid, inactiveGuid), UpdateEntry(b, target == B, activeGuid, inactiveGuid))
  }

  predicate HasMetadata(a: bytes, b: bytes)
    requires IsEntry(a) && IsEntry(b)
  {
    IsActive(a) || IsActive(b)
  }

  function ActiveGuid(a: bytes, b: bytes): bytes
    requires IsEntry(a) && IsEntry(b)
  {
    if IsActive(a) then Guid(a) else Guid(b)
  }

  function InactiveGuid(a: bytes, b: bytes): bytes
    requires IsEntry(a) && IsEntry(b)
  {
    if IsActive(a) then Guid(b) else Guid(a)
  }

  /// The pair after `set_active_pair`.
  function PairResult(a: bytes, b: bytes, target: Slot): (r: (bytes, bytes))
    requires IsEntry(a) && IsEntry(b)
    ensures |r.0| == |a| && |r.1| == |b|
  {
    if HasMetadata(a, b) then UpdatePair(a, b, target, ActiveGuid(a, b), InactiveGuid(a, b)) else (a, b)
  }

  /// `active_slot_for_base`, on the two entries.
  function ActiveSlot(a: bytes, b: bytes): Option<Slot>
    requires IsEntry(a) && IsEntry(b)
  {
    if IsActive(a) then Some(A) else if IsActive(b) then Some(B) else None
  }

  /// Setting a pair makes it report the target, permutes the two type GUIDs, and keeps every other byte.
  lemma PairLaws(a: bytes, b: bytes, target: Slot)
    requires IsEntry(a) && IsEntry(b)
    ensures
      var (a', b') := PairResult(a, b, target);
      && (HasMetadata(a, b) ==> ActiveSlot(a', b') == Some(target) && HasMetadata(a', b'))
      && (!HasMetadata(a, b) ==> a' == a && b' == b)
      && multiset{Guid(a'), Guid(b')} == multiset{Guid(a), Guid(b)}
      && SameOutside(a, a') && SameOutside(b, b')
      && PartitionName(a') == PartitionName(a) && PartitionName(b') == PartitionName(b)
      && (HasMetadata(a, b) ==> ActiveGuid(a', b') == ActiveGuid(a, b) && InactiveGuid(a', b') == InactiveGuid(a, b))
  {
    hide PartitionName, SameOutside, UpdateEntry;
    if HasMetadata(a, b) {
      UpdatedEntry(a, target == A, ActiveGuid(a, b), InactiveGuid(a, b));
      UpdatedEntry(b, target == B, ActiveGuid(a, b), InactiveGuid(a, b));
    } else {
      SameSelf(a);
      SameSelf(b);
    }
  }

  lemma SameSelf(e: bytes)
    ensures SameOutside(e, e)
  {
  }

  lemma SameTrans(e: bytes, f: bytes, g: bytes)
    requires SameOutside(e, f) && SameOutside(e, g)
    ensures SameOutside(f, g)
  {
  }

  /// Setting the same slot again changes nothing.
  lemma PairTwice(a: bytes, b: bytes, target: Slot)
    requires IsEntry(a) && IsEntry(b)
    ensures
      var (a', b') := PairResult(a, b, target);
      PairResult(a', b', target) == (a', b')
  {
    hide PartitionName, SameOutside, UpdateEntry;
    var (a', b') := PairResult(a, b, target);
    PairLaws(a, b, target);
    if HasMetadata(a, b) {
      var x, y := ActiveGuid(a, b), InactiveGuid(a, b);
      UpdatedEntry(a, target == A, x, y);
      UpdatedEntry(b, target == B, x, y);
      UpdatedEntry(a', target == A, x, y);
      UpdatedEntry(b', target == B, x, y);
      EntryParts(a', UpdateEntry(a', target == A, x, y));
      EntryParts(b', UpdateEntry(b', target == B, x, y));
    }
  }

  /// A, then B, then A gives the GUIDs of the first A back.
  lemma PairThereAndBack(a: bytes, b: bytes, first: Slot, second: Slot)
    requires IsEntry(a) && IsEntry(b)
    ensures
      var (a1, b1) := PairResult(a, b, first);
      var (a2, b2) := PairResult(a1, b1, second);
      var (a3, b3) := PairResult(a2, b2, first);
      Guid(a3) == Guid(a1) && Guid(b3) == Guid(b1)
  {
    hide PartitionName, SameOutside, UpdateEntry;
    var (a1, b1) := PairResult(a, b, first);
    var (a2, b2) := PairResult(a1, b1, second);
    PairLaws(a, b, first);
    PairLaws(a1, b1, second);
    PairLaws(a2, b2, first);
    if HasMetadata(a, b) {
      var x, y := ActiveGuid(a, b), InactiveGuid(a, b);
      UpdatedEntry(a, first == A, x, y);
      UpdatedEntry(b, first == B, x, y);
      UpdatedEntry(a2, first == A, x, y);
      UpdatedEntry(b2, first == B, x, y);
    }
  }

  // A table of entries.

  predicate IsTable(es: seq<bytes>) { forall i :: 0 <= i < |es| ==> IsEntry(es[i]) }

  /// `find_entry_index`.
  function FindEntry(es: seq<bytes>, name: Name): (r: Result<Option<nat>>)
    requires IsTable(es)
    ensures r.Ok? && r.value.Some? ==> r.value.value < |es| && !IsUnused(es[r.value.value])
                                       && PartitionName(es[r.value.value]) == Ok(Some(name))
  {
    if es == [] then Ok(None)
    else
      assert IsTable(es[1..]) by { assert forall i :: 0 <= i < |es| - 1 ==> es[1..][i] == es[i + 1]; }
      if !IsUnused(es[0]) && PartitionName(es[0]).InvalidData? then InvalidData
      else if !IsUnused(es[0]) && PartitionName(es[0]) == Ok(Some(name)) then Ok(Some(0))
      else
        var rest :- FindEntry(es[1..], name);
        if rest.None? then Ok(None) else Ok(Some(rest.value + 1))
  }

  const SUFFIX_A: Name := [0x5f, 0x61]
  const SUFFIX_B: Name := [0x5f, 0x62]
  const XBL: Name := [0x78, 0x62, 0x6c]
  const BOOT: Name := [0x62, 0x6f, 0x6f, 0x74]

  lemma PairNames(base: Name, other: Name)
    ensures base + SUFFIX_A != other + SUFFIX_B
    ensures base + SUFFIX_A == other + SUFFIX_A ==> base == other
    ensures base + SUFFIX_B == other + SUFFIX_B ==> base == other
  {
    var n := |base|;
    assert (base + SUFFIX_A)[|base| + 1] == 0x61 && (other + SUFFIX_B)[|other| + 1] == 0x62;
    if base + SUFFIX_A == other + SUFFIX_A {
      assert |base| == |other| && (base + SUFFIX_A)[..n] == base && (other + SUFFIX_A)[..n] == other;
    }
    if base + SUFFIX_B == other + SUFFIX_B {
      assert |base| == |other| && (base + SUFFIX_B)[..n] == base && (other + SUFFIX_B)[..n] == other;
    }
  }

  /// Same sizes, same names, same use.
  ghost predicate SameNames(es: seq<bytes>, fs: seq<bytes>)
    requires IsTable(es)
  {
    && |es| == |fs| && IsTable(fs)
    && forall i :: 0 <= i < |es| ==> IsUnused(es[i]) == IsUnused(fs[i]) && PartitionName(es[i]) == PartitionName(fs[i])
  }

  lemma {:induction false} FindSame(es: seq<bytes>, fs: seq<bytes>, name: Name)
    requires IsTable(es) && SameNames(es, fs)
    ensures FindEntry(es, name) == FindEntry(fs, name)
    decreases |es|
  {
    hide IsUnused, PartitionName;
    if es != [] {
      assert forall i :: 0 <= i < |es| - 1 ==> es[1..][i] == es[i + 1] && fs[1..][i] == fs[i + 1];
      FindSame(es[1..], fs[1..], name);
    }
  }

  // One pair in its tables.

  /// `update_pair_table`.
  function UpdatePairTable(es: seq<bytes>, base: Name, target: Slot, activeGuid: bytes, inactiveGuid: bytes): (r: Result<seq<bytes>>)
    requires IsTable(es) && |activeGuid| == |inactiveGuid| == TYPE_GUID_SIZE
    ensures r.Ok? ==> |r.value| == |es| && IsTable(r.value)
  {
    var i :- FindEntry(es, base + SUFFIX_A);
    var j :- FindEntry(es, base + SUFFIX_B);
    if i.None? || j.None? then InvalidData
    else
      var fs := es[i.value := UpdateEntry(es[i.value], target == A, activeGuid, inactiveGuid)];
      Ok(fs[j.value := UpdateEntry(fs[j.value], target == B, activeGuid, inactiveGuid)])
  }

  datatype Tables = Tables(primary: seq<bytes>, backup: seq<bytes>)

  ghost predicate AreTables(t: Tables) { IsTable(t.primary) && IsTable(t.backup) }

  /// `set_active_pair`: the tables afterwards, and whether the pair was updated.
  function SetActivePair(t: Tables, base: Name, target: Slot): (r: Result<(Tables, bool)>)
    requires IsTable(t.primary) && IsTable(t.backup)
    ensures r.Ok? ==> IsTable(r.value.0.primary) && IsTable(r.value.0.backup)
  {
    var i :- FindEntry(t.primary, base + SUFFIX_A);
    var j :- FindEntry(t.primary, base + SUFFIX_B);
    if i.None? || j.None? then InvalidData
    else
      var a, b := t.primary[i.value], t.primary[j.value];
      if !HasMetadata(a, b) then Ok((t, false))
      else
        var primary := UpdatePairTable(t.primary, base, target, ActiveGuid(a, b), InactiveGuid(a, b));
        if primary.InvalidData? then InvalidData
        else
          var backup :- UpdatePairTable(t.backup, base, target, ActiveGuid(a, b), InactiveGuid(a, b));
          Ok((Tables(primary.value, backup), true))
  }

  /// The loop of `set_active_slot` over the pairs of one disk.
  function SetActive(t: Tables, pairs: seq<Name>, target: Slot): (r: Result<Tables>)
    requires IsTable(t.primary) && IsTable(t.backup)
    ensures r.Ok? ==> IsTable(r.value.primary) && IsTable(r.value.backup)
    decreases |pairs|
  {
    if pairs == [] then Ok(t)
    else if pairs[0] == XBL then SetActive(t, pairs[1..], target)
    else
      var (next, updated) :- SetActivePair(t, pairs[0], target);
      if !updated && pairs[0] == BOOT then InvalidData
      else SetActive(next, pairs[1..], target)
  }

  /// Some pair of the loop is updated, so the disk is committed.
  predicate Changes(t: Tables, pairs: seq<Name>, target: Slot)
    requires IsTable(t.primary) && IsTable(t.backup)
    decreases |pairs|
  {
    pairs != [] &&
      if pairs[0] == XBL then Changes(t, pairs[1..], target)
      else
        var next := SetActivePair(t, pairs[0], target);
        next.Ok? && (next.value.1 || Changes(next.value.0, pairs[1..], target))
  }

  /// Equal tables stay equal.
  lemma {:induction false} SetActiveEqual(t: Tables, pairs: seq<Name>, target: Slot)
    requires IsTable(t.primary) && t.primary == t.backup && SetActive(t, pairs, target).Ok?
    ensures
      var r := SetActive(t, pairs, target).value;
      r.primary == r.backup
    decreases |pairs|
  {
    hide UpdatePairTable, FindEntry, HasMetadata, ActiveGuid, InactiveGuid;
    if pairs != [] {
      if pairs[0] == XBL {
        SetActiveEqual(t, pairs[1..], target);
      } else {
        SetActiveEqual(SetActivePair(t, pairs[0], target).value.0, pairs[1..], target);
      }
    }
  }

  // What the loop does to the primary table.

  predicate Has(es: seq<bytes>, name: Name)
    requires IsTable(es)
  {
    FindEntry(es, name).Ok? && FindEntry(es, name).value.Some?
  }

  function IndexOf(es: seq<bytes>, name: Name): (i: nat)
    requires IsTable(es) && Has(es, name)
    ensures i < |es|
  {
    FindEntry(es, name).value.value
  }

  predicate HasPair(es: seq<bytes>, base: Name)
    requires IsTable(es)
  {
    Has(es, base + SUFFIX_A) && Has(es, base + SUFFIX_B)
  }

  function IndexA(es: seq<bytes>, base: Name): (i: nat)
    requires IsTable(es) && HasPair(es, base)
    ensures i < |es|
  {
    IndexOf(es, base + SUFFIX_A)
  }

  function IndexB(es: seq<bytes>, base: Name): (i: nat)
    requires IsTable(es) && HasPair(es, base)
    ensures i < |es|
  {
    IndexOf(es, base + SUFFIX_B)
  }

  lemma IndexNames(es: seq<bytes>, base: Name)
    requires IsTable(es) && HasPair(es, base)
    ensures PartitionName(es[IndexA(es, base)]) == Ok(Some(base + SUFFIX_A)) && !IsUnused(es[IndexA(es, base)])
    ensures PartitionName(es[IndexB(es, base)]) == Ok(Some(base + SUFFIX_B)) && !IsUnused(es[IndexB(es, base)])
  {
    hide PartitionName, IsUnused;
  }

  /// Different pairs stand at different places.
  lemma IndicesDiffer(es: seq<bytes>, base: Name, other: Name)
    requires IsTable(es) && HasPair(es, base) && HasPair(es, other)
    ensures IndexA(es, base) != IndexB(es, other)
    ensures base != other ==> IndexA(es, base) != IndexA(es, other) && IndexB(es, base) != IndexB(es, other)
  {
    hide PartitionName, IsUnused, FindEntry, IndexA, IndexB, HasPair;
    IndexNames(es, base);
    IndexNames(es, other);
    PairNames(base, other);
  }

  lemma UnusedByGuid(e: bytes, f: bytes)
    requires IsEntry(e) && IsEntry(f) && Guid(e) == Guid(f)
    ensures IsUnused(e) == IsUnused(f)
  {
    assert forall i :: 0 <= i < TYPE_GUID_SIZE ==> e[i] == Guid(e)[i] && f[i] == Guid(f)[i];
  }

  lemma PairStaysUsed(a: bytes, b: bytes, target: Slot)
    requires IsEntry(a) && IsEntry(b) && !IsUnused(a) && !IsUnused(b)
    ensures
      var (a', b') := PairResult(a, b, target);
      !IsUnused(a') && !IsUnused(b')
  {
    hide PartitionName, SameOutside, UpdateEntry, IsUnused;
    var (a', b') := PairResult(a, b, target);
    if HasMetadata(a, b) {
      UpdatedEntry(a, target == A, ActiveGuid(a, b), InactiveGuid(a, b));
      UpdatedEntry(b, target == B, ActiveGuid(a, b), InactiveGuid(a, b));
      UnusedByGuid(a', if Guid(a') == Guid(a) then a else b);
      UnusedByGuid(b', if Guid(b') == Guid(b) then b else a);
    }
  }

  /// The table with the two entries of a pair replaced.
  function ReplacePair(es: seq<bytes>, base: Name, target: Slot): (fs: seq<bytes>)
    requires IsTable(es) && HasPair(es, base)
    ensures |fs| == |es|
  {
    var i, j := IndexA(es, base), IndexB(es, base);
    var r := PairResult(es[i], es[j], target);
    es[i := r.0][j := r.1]
  }

  lemma SetPairIsReplace(t: Tables, base: Name, target: Slot)
    requires IsTable(t.primary) && IsTable(t.backup) && HasPair(t.primary, base) && SetActivePair(t, base, target).Ok?
    ensures SetActivePair(t, base, target).value.0.primary == ReplacePair(t.primary, base, target)
    ensures SetActivePair(t, base, target).value.1 ==
      HasMetadata(t.primary[IndexA(t.primary, base)], t.primary[IndexB(t.primary, base)])
  {
    IndicesDiffer(t.primary, base, base);
    hide PartitionName, IsUnused, FindEntry, UpdateEntry;
  }

  lemma ReplaceLaws(es: seq<bytes>, base: Name, target: Slot)
    requires IsTable(es) && HasPair(es, base)
    ensures
      var fs, i, j := ReplacePair(es, base, target), IndexA(es, base), IndexB(es, base);
      && i != j && SameNames(es, fs)
      && (fs[i], fs[j]) == PairResult(es[i], es[j], target)
      && forall k :: 0 <= k < |es| && k != i && k != j ==> fs[k] == es[k]
  {
    var i, j := IndexA(es, base), IndexB(es, base);
    IndicesDiffer(es, base, base);
    IndexNames(es, base);
    PairLaws(es[i], es[j], target);
    PairStaysUsed(es[i], es[j], target);
    hide PartitionName, IsUnused, FindEntry, UpdateEntry, PairResult, HasPair, IndexA, IndexB, SameOutside;
  }

  lemma SamePairs(es: seq<bytes>, fs: seq<bytes>, base: Name)
    requires IsTable(es) && SameNames(es, fs)
    ensures HasPair(fs, base) == HasPair(es, base)
    ensures HasPair(es, base) ==> IndexA(fs, base) == IndexA(es, base) && IndexB(fs, base) == IndexB(es, base)
  {
    hide PartitionName, IsUnused, FindEntry;
    FindSame(es, fs, base + SUFFIX_A);
    FindSame(es, fs, base + SUFFIX_B);
  }

  predicate DistinctNames(pairs: seq<Name>) { forall i, j :: 0 <= i < j < |pairs| ==> pairs[i] != pairs[j] }

  predicate HasPairs(es: seq<bytes>, pairs: seq<Name>)
    requires IsTable(es)
  {
    forall k :: 0 <= k < |pairs| ==> HasPair(es, pairs[k])
  }

  /// A place that belongs to a pair other than xbl.
  predicate Belongs(es: seq<bytes>, pairs: seq<Name>, i: nat)
    requires IsTable(es) && HasPairs(es, pairs)
  {
    exists k :: 0 <= k < |pairs| && pairs[k] != XBL && (i == IndexA(es, pairs[k]) || i == IndexB(es, pairs[k]))
  }

  /// A pair as the loop leaves it.
  predicate PairDone(es: seq<bytes>, fs: seq<bytes>, base: Name, target: Slot)
    requires IsTable(es) && |fs| == |es| && HasPair(es, base)
  {
    var i, j := IndexA(es, base), IndexB(es, base);
    (fs[i], fs[j]) == if base == XBL then (es[i], es[j]) else PairResult(es[i], es[j], target)
  }

  /// The whole effect of the loop on a table.
  ghost predicate Effect(es: seq<bytes>, fs: seq<bytes>, pairs: seq<Name>, target: Slot)
    requires IsTable(es) && HasPairs(es, pairs)
  {
    && SameNames(es, fs)
    && (forall i :: 0 <= i < |es| && !Belongs(es, pairs, i) ==> fs[i] == es[i])
    && (forall k :: 0 <= k < |pairs| ==> PairDone(es, fs, pairs[k], target))
  }

  lemma SameNamesTrans(es: seq<bytes>, fs: seq<bytes>, gs: seq<bytes>)
    requires IsTable(es) && SameNames(es, fs) && SameNames(fs, gs)
    ensures SameNames(es, gs)
  {
    hide PartitionName, IsUnused;
  }

  /// Every pair of the table gets its result, and nothing else changes, in whatever order the pairs come.
  lemma {:induction false} SetActiveEffect(t: Tables, pairs: seq<Name>, target: Slot)
    requires IsTable(t.primary) && IsTable(t.backup) && DistinctNames(pairs) && HasPairs(t.primary, pairs)
    requires SetActive(t, pairs, target).Ok?
    ensures Effect(t.primary, SetActive(t, pairs, target).value.primary, pairs, target)
    decreases |pairs|
  {
    hide PartitionName, IsUnused, FindEntry, PairResult, HasPair, IndexA, IndexB, ReplacePair, SetActivePair, SameNames;
    var es := t.primary;
    if pairs == [] {
      assert SameNames(es, es) by { SameNamesSelf(es); }
    } else {
      var base, rest := pairs[0], pairs[1..];
      assert HasPair(es, base);
      assert forall k :: 0 <= k < |rest| ==> rest[k] == pairs[k + 1];
      if base == XBL {
        SetActiveEffect(t, rest, target);
        EffectSkips(es, SetActive(t, rest, target).value.primary, pairs, target);
      } else {
        SetPairIsReplace(t, base, target);
        var next := SetActivePair(t, base, target).value.0;
        ReplaceLaws(es, base, target);
        forall k | 0 <= k < |rest| ensures HasPair(next.primary, rest[k]) {
          SamePairs(es, next.primary, rest[k]);
        }
        SetActiveEffect(next, rest, target);
        EffectStep(es, next.primary, SetActive(next, rest, target).value.primary, pairs, target);
      }
    }
  }

  /// The disk is committed exactly when some pair other than xbl had slot metadata; otherwise its
  /// tables are what they were.
  lemma {:induction false} ChangesExactly(t: Tables, pairs: seq<Name>, target: Slot)
    requires IsTable(t.primary) && IsTable(t.backup) && HasPairs(t.primary, pairs)
    requires SetActive(t, pairs, target).Ok?
    ensures Changes(t, pairs, target) <==>
      exists k :: 0 <= k < |pairs| && pairs[k] != XBL && HasMetadata(EntryA(t.primary, pairs[k]), EntryB(t.primary, pairs[k]))
    ensures !Changes(t, pairs, target) ==> SetActive(t, pairs, target) == Ok(t)
    decreases |pairs|
  {
    hide PartitionName, IsUnused, FindEntry, HasPair, IndexA, IndexB, SetActivePair, HasMetadata;
    if pairs != [] {
      var base, rest := pairs[0], pairs[1..];
      assert HasPair(t.primary, base);
      assert forall k :: 0 <= k < |rest| ==> rest[k] == pairs[k + 1];
      assert forall k :: 1 <= k < |pairs| ==> pairs[k] == rest[k - 1];
      if base == XBL {
        ChangesExactly(t, rest, target);
      } else {
        SetPairIsReplace(t, base, target);
        if !SetActivePair(t, base, target).value.1 {
          NotUpdated(t, base, target);
          ChangesExactly(t, rest, target);
        }
      }
    }
  }

  lemma NotUpdated(t: Tables, base: Name, target: Slot)
    requires IsTable(t.primary) && IsTable(t.backup) && SetActivePair(t, base, target).Ok?
    ensures !SetActivePair(t, base, target).value.1 ==> SetActivePair(t, base, target).value.0 == t
  {
    hide FindEntry, UpdatePairTable;
  }

  lemma SameNamesSelf(es: seq<bytes>)
    requires IsTable(es)
    ensures SameNames(es, es)
  {
  }

  lemma BelongsTail(es: seq<bytes>, pairs: seq<Name>, i: nat)
    requires IsTable(es) && pairs != [] && HasPairs(es, pairs) && HasPairs(es, pairs[1..])
    ensures Belongs(es, pairs[1..], i) ==> Belongs(es, pairs, i)
  {
    hide HasPair, IndexA, IndexB;
    assert forall k :: 0 <= k < |pairs| - 1 ==> pairs[1..][k] == pairs[k + 1];
  }

  lemma EffectSkips(es: seq<bytes>, fs: seq<bytes>, pairs: seq<Name>, target: Slot)
    requires IsTable(es) && pairs != [] && pairs[0] == XBL && DistinctNames(pairs) && HasPairs(es, pairs)
    requires HasPairs(es, pairs[1..]) && Effect(es, fs, pairs[1..], target)
    ensures Effect(es, fs, pairs, target)
  {
    hide PartitionName, IsUnused, FindEntry, PairResult, HasPair, IndexA, IndexB, SameNames;
    var rest := pairs[1..];
    assert forall k :: 0 <= k < |rest| ==> rest[k] == pairs[k + 1];
    assert PairsLen(es, fs) by { SameLength(es, fs); }
    forall i | 0 <= i < |es| && !Belongs(es, pairs, i) ensures fs[i] == es[i] {
      BelongsTail(es, pairs, i);
    }
    forall k | 0 <= k < |pairs| ensures PairDone(es, fs, pairs[k], target) {
      if k == 0 {
        XblUntouched(es, pairs, true);
        XblUntouched(es, pairs, false);
        assert fs[IndexA(es, XBL)] == es[IndexA(es, XBL)] && fs[IndexB(es, XBL)] == es[IndexB(es, XBL)];
      } else {
        assert rest[k - 1] == pairs[k];
      }
    }
  }

  predicate PairsLen(es: seq<bytes>, fs: seq<bytes>) { |es| == |fs| }

  lemma SameLength(es: seq<bytes>, fs: seq<bytes>)
    requires IsTable(es) && SameNames(es, fs)
    ensures PairsLen(es, fs)
  {
  }

  lemma XblUntouched(es: seq<bytes>, pairs: seq<Name>, first: bool)
    requires IsTable(es) && pairs != [] && pairs[0] == XBL && DistinctNames(pairs) && HasPairs(es, pairs)
    requires HasPairs(es, pairs[1..])
    ensures HasPair(es, XBL) && !Belongs(es, pairs[1..], if first then IndexA(es, XBL) else IndexB(es, XBL))
  {
    hide PartitionName, IsUnused, FindEntry, HasPair, IndexA, IndexB;
    var rest := pairs[1..];
    assert HasPair(es, pairs[0]);
    forall k | 0 <= k < |rest| && rest[k] != XBL
      ensures IndexA(es, XBL) != IndexA(es, rest[k]) && IndexA(es, XBL) != IndexB(es, rest[k])
      ensures IndexB(es, XBL) != IndexA(es, rest[k]) && IndexB(es, XBL) != IndexB(es, rest[k])
    {
      IndicesDiffer(es, XBL, rest[k]);
      IndicesDiffer(es, rest[k], XBL);
    }
  }

  lemma EffectStep(es: seq<bytes>, next: seq<bytes>, fs: seq<bytes>, pairs: seq<Name>, target: Slot)
    requires IsTable(es) && pairs != [] && pairs[0] != XBL && DistinctNames(pairs) && HasPairs(es, pairs)
    requires SameNames(es, next)
    requires
      var i, j := IndexA(es, pairs[0]), IndexB(es, pairs[0]);
      && (next[i], next[j]) == PairResult(es[i], es[j], target)
      && forall k :: 0 <= k < |es| && k != i && k != j ==> next[k] == es[k]
    requires HasPairs(next, pairs[1..]) && Effect(next, fs, pairs[1..], target)
    ensures Effect(es, fs, pairs, target)
  {
    hide PartitionName, IsUnused, FindEntry, PairResult, HasPair, IndexA, IndexB;
    SameNamesTrans(es, next, fs);
    var base, rest := pairs[0], pairs[1..];
    assert forall k :: 0 <= k < |rest| ==> rest[k] == pairs[k + 1];
    forall k | 0 <= k < |rest|
      ensures HasPair(es, rest[k]) && IndexA(next, rest[k]) == IndexA(es, rest[k]) && IndexB(next, rest[k]) == IndexB(es, rest[k])
    {
      SamePairs(es, next, rest[k]);
    }
    hide SameNames;
    var i, j := IndexA(es, base), IndexB(es, base);
    forall k | 0 <= k < |rest|
      ensures IndexA(es, rest[k]) != i && IndexA(es, rest[k]) != j && IndexB(es, rest[k]) != i && IndexB(es, rest[k]) != j
    {
      IndicesDiffer(es, base, rest[k]);
      IndicesDiffer(es, rest[k], base);
    }
    assert !Belongs(next, rest, i) && !Belongs(next, rest, j);
    forall p | 0 <= p < |es| && !Belongs(es, pairs, p) ensures fs[p] == es[p] {
      assert pairs[0] == base && p != i && p != j;
      BelongsTail(es, pairs, p);
      assert !Belongs(next, rest, p);
    }
    forall k | 0 <= k < |pairs| ensures PairDone(es, fs, pairs[k], target) {
      if k > 0 {
        assert rest[k - 1] == pairs[k] && PairDone(next, fs, rest[k - 1], target);
      }
    }
  }

  // What the effect means.

  /// The pair's entries, by index.
  function EntryA(es: seq<bytes>, base: Name): (e: bytes)
    requires IsTable(es) && HasPair(es, base)
    ensures IsEntry(e)
  {
    es[IndexA(es, base)]
  }

  function EntryB(es: seq<bytes>, base: Name): (e: bytes)
    requires IsTable(es) && HasPair(es, base)
    ensures IsEntry(e)
  {
    es[IndexB(es, base)]
  }

  /// Every pair other than xbl that had slot metadata reports the target, its two type GUIDs are the
  /// same two, and no byte outside the GUID and the attribute changes.
  lemma EffectOnPair(es: seq<bytes>, fs: seq<bytes>, pairs: seq<Name>, target: Slot, base: Name)
    requires IsTable(es) && HasPairs(es, pairs) && Effect(es, fs, pairs, target) && base in pairs
    ensures HasPair(es, base) && IsTable(fs) && HasPair(fs, base)
    ensures
      var a, b, a', b' := EntryA(es, base), EntryB(es, base), EntryA(fs, base), EntryB(fs, base);
      && multiset{Guid(a'), Guid(b')} == multiset{Guid(a), Guid(b)}
      && SameOutside(a, a') && SameOutside(b, b')
      && (base != XBL && HasMetadata(a, b) ==> ActiveSlot(a', b') == Some(target))
      && (base == XBL || !HasMetadata(a, b) ==> a' == a && b' == b)
  {
    var k :| 0 <= k < |pairs| && pairs[k] == base;
    assert HasPair(es, pairs[k]) && PairDone(es, fs, pairs[k], target);
    SamePairs(es, fs, base);
    hide PartitionName, IsUnused, FindEntry, SameOutside, HasPair, IndexA, IndexB, Effect, SameNames;
    PairLaws(EntryA(es, base), EntryB(es, base), target);
    SameSelf(EntryA(es, base));
    SameSelf(EntryB(es, base));
  }

  lemma EffectSame(es: seq<bytes>, fs: seq<bytes>, pairs: seq<Name>, target: Slot)
    requires IsTable(es) && HasPairs(es, pairs) && Effect(es, fs, pairs, target)
    ensures |fs| == |es| && IsTable(fs) && HasPairs(fs, pairs)
    ensures forall k :: 0 <= k < |pairs| ==>
      IndexA(fs, pairs[k]) == IndexA(es, pairs[k]) && IndexB(fs, pairs[k]) == IndexB(es, pairs[k])
    ensures forall i :: 0 <= i < |es| ==> Belongs(fs, pairs, i) == Belongs(es, pairs, i)
  {
    hide PartitionName, IsUnused, FindEntry, HasPair, IndexA, IndexB;
    forall k | 0 <= k < |pairs|
      ensures HasPair(fs, pairs[k])
      ensures IndexA(fs, pairs[k]) == IndexA(es, pairs[k]) && IndexB(fs, pairs[k]) == IndexB(es, pairs[k])
    {
      SamePairs(es, fs, pairs[k]);
    }
  }

  /// Setting the same slot again changes nothing.
  lemma EffectTwice(es: seq<bytes>, fs: seq<bytes>, gs: seq<bytes>, pairs: seq<Name>, target: Slot)
    requires IsTable(es) && HasPairs(es, pairs) && Effect(es, fs, pairs, target)
    requires IsTable(fs) && HasPairs(fs, pairs) && Effect(fs, gs, pairs, target)
    ensures gs == fs
  {
    EffectSame(es, fs, pairs, target);
    EffectSame(fs, gs, pairs, target);
    hide PartitionName, IsUnused, FindEntry, HasPair, IndexA, IndexB, PairResult, SameNames;
    forall i | 0 <= i < |fs| ensures gs[i] == fs[i] {
      if Belongs(fs, pairs, i) {
        var k :| 0 <= k < |pairs| && pairs[k] != XBL && (i == IndexA(fs, pairs[k]) || i == IndexB(fs, pairs[k]));
        assert PairDone(es, fs, pairs[k], target) && PairDone(fs, gs, pairs[k], target);
        PairTwice(es[IndexA(es, pairs[k])], es[IndexB(es, pairs[k])], target);
      }
    }
  }

  /// One slot, then the other, then the first again: every type GUID is back.
  lemma EffectThereAndBack(es: seq<bytes>, f1: seq<bytes>, f2: seq<bytes>, f3: seq<bytes>, pairs: seq<Name>, first: Slot, second: Slot)
    requires IsTable(es) && HasPairs(es, pairs) && Effect(es, f1, pairs, first)
    requires IsTable(f1) && HasPairs(f1, pairs) && Effect(f1, f2, pairs, second)
    requires IsTable(f2) && HasPairs(f2, pairs) && Effect(f2, f3, pairs, first)
    ensures IsTable(f3) && |f3| == |f1| && forall i :: 0 <= i < |f1| ==> Guid(f3[i]) == Guid(f1[i])
  {
    EffectSame(es, f1, pairs, first);
    EffectSame(f1, f2, pairs, second);
    EffectSame(f2, f3, pairs, first);
    hide PartitionName, IsUnused, FindEntry, HasPair, IndexA, IndexB, PairResult, SameNames, Guid;
    forall i | 0 <= i < |f1| ensures Guid(f3[i]) == Guid(f1[i]) {
      if Belongs(f1, pairs, i) {
        var k :| 0 <= k < |pairs| && pairs[k] != XBL && (i == IndexA(f1, pairs[k]) || i == IndexB(f1, pairs[k]));
        assert PairDone(es, f1, pairs[k], first) && PairDone(f1, f2, pairs[k], second) && PairDone(f2, f3, pairs[k], first);
        PairThereAndBack(es[IndexA(es, pairs[k])], es[IndexB(es, pairs[k])], first, second);
      }
    }
  }

  /// The loop fails, on equal tables that hold every pair, exactly when boot has no slot metadata.
  lemma {:induction false} SetActiveSucceeds(t: Tables, pairs: seq<Name>, target: Slot)
    requires IsTable(t.primary) && t.backup == t.primary && DistinctNames(pairs) && HasPairs(t.primary, pairs)
    ensures SetActive(t, pairs, target).Ok? <==>
      (BOOT in pairs ==> HasPair(t.primary, BOOT) && HasMetadata(EntryA(t.primary, BOOT), EntryB(t.primary, BOOT)))
    decreases |pairs|
  {
    hide PartitionName, IsUnused, FindEntry, PairResult, HasPair, IndexA, IndexB, ReplacePair, SetActivePair, SameNames, HasMetadata;
    if pairs != [] {
      var es, base, rest := t.primary, pairs[0], pairs[1..];
      assert HasPair(es, base);
      assert forall k :: 0 <= k < |rest| ==> rest[k] == pairs[k + 1];
      assert BOOT in pairs <==> BOOT == base || BOOT in rest;
      if base == XBL {
        SetActiveSucceeds(t, rest, target);
      } else {
        PairSucceeds(t, base, target);
        SetPairIsReplace(t, base, target);
        var next := SetActivePair(t, base, target).value.0;
        ReplaceLaws(es, base, target);
        forall k | 0 <= k < |rest| ensures HasPair(next.primary, rest[k]) {
          SamePairs(es, next.primary, rest[k]);
        }
        SetActiveSucceeds(next, rest, target);
        if BOOT in rest {
          var k :| 0 <= k < |rest| && rest[k] == BOOT;
          assert pairs[k + 1] == BOOT && pairs[0] != BOOT;
          SamePairs(es, next.primary, BOOT);
          IndicesDiffer(es, base, BOOT);
          IndicesDiffer(es, BOOT, base);
        }
      }
    }
  }

  lemma PairSucceeds(t: Tables, base: Name, target: Slot)
    requires IsTable(t.primary) && t.backup == t.primary && HasPair(t.primary, base)
    ensures SetActivePair(t, base, target).Ok?
    ensures SetActivePair(t, base, target).value.0.backup == SetActivePair(t, base, target).value.0.primary
  {
    hide PartitionName, IsUnused, FindEntry, UpdateEntry;
  }

  // The pairs of a table.

  /// `partition_names`.
  function PartitionNames(es: seq<bytes>): Result<seq<Name>>
    requires IsTable(es)
  {
    if es == [] then Ok([])
    else
      assert IsTable(es[1..]) by { assert forall i :: 0 <= i < |es| - 1 ==> es[1..][i] == es[i + 1]; }
      if IsUnused(es[0]) then PartitionNames(es[1..])
      else
        var name :- PartitionName(es[0]);
        var rest :- PartitionNames(es[1..]);
        Ok(if name.None? then rest else [name.value] + rest)
  }

  predicate EndsInA(name: Name) { |name| >= 2 && name[|name| - 2..] == SUFFIX_A }

  function Bases(names: seq<Name>, all: seq<Name>): seq<Name> {
    if names == [] then []
    else
      var rest := Bases(names[1..], all);
      if !EndsInA(names[0]) then rest
      else
        var base := names[0][..|names[0]| - 2];
        if base + SUFFIX_B in all && base !in rest then [base] + rest else rest
  }

  /// `slot_pairs`, in the order of the table instead of that of the names.
  function SlotPairs(es: seq<bytes>): Result<seq<Name>>
    requires IsTable(es)
  {
    var names :- PartitionNames(es);
    Ok(Bases(names, names))
  }

  lemma {:induction false} BasesExact(names: seq<Name>, all: seq<Name>, base: Name)
    ensures DistinctNames(Bases(names, all))
    ensures base in Bases(names, all) <==> base + SUFFIX_A in names && base + SUFFIX_B in all
    decreases |names|
  {
    if names != [] {
      var rest := Bases(names[1..], all);
      BasesExact(names[1..], all, base);
      assert (base + SUFFIX_A)[..|base|] == base && (base + SUFFIX_A)[|base|..] == SUFFIX_A;
      if EndsInA(names[0]) {
        var first := names[0][..|names[0]| - 2];
        assert names[0] == first + SUFFIX_A;
        PairNames(first, base);
        BasesExact(names[1..], all, first);
      }
    }
  }

  lemma {:induction false} NamedIsFound(es: seq<bytes>, name: Name)
    requires IsTable(es) && PartitionNames(es).Ok?
    ensures FindEntry(es, name).Ok?
    ensures name in PartitionNames(es).value <==> Has(es, name)
    decreases |es|
  {
    hide IsUnused, PartitionName;
    if es != [] {
      assert forall i :: 0 <= i < |es| - 1 ==> es[1..][i] == es[i + 1];
      NamedIsFound(es[1..], name);
    }
  }

  /// The pairs are the bases for which both names are found, each once.
  lemma SlotPairsExact(es: seq<bytes>, base: Name)
    requires IsTable(es) && SlotPairs(es).Ok?
    ensures DistinctNames(SlotPairs(es).value)
    ensures base in SlotPairs(es).value <==> HasPair(es, base)
  {
    hide IsUnused, PartitionName, FindEntry;
    var names := PartitionNames(es).value;
    BasesExact(names, names, base);
    NamedIsFound(es, base + SUFFIX_A);
    NamedIsFound(es, base + SUFFIX_B);
  }

  lemma SlotPairsHeld(es: seq<bytes>)
    requires IsTable(es) && SlotPairs(es).Ok?
    ensures DistinctNames(SlotPairs(es).value) && HasPairs(es, SlotPairs(es).value)
  {
    hide IsUnused, PartitionName, FindEntry, HasPair;
    var pairs := SlotPairs(es).value;
    SlotPairsExact(es, []);
    forall k | 0 <= k < |pairs| ensures HasPair(es, pairs[k]) {
      SlotPairsExact(es, pairs[k]);
    }
  }

  /// Choosing a slot on a disk whose two tables agree: every pair of the table is set, xbl and pairs
  /// without metadata are not touched, the tables still agree, and choosing it again changes nothing.
  lemma ChooseSlot(t: Tables, target: Slot)
    requires IsTable(t.primary) && t.backup == t.primary && SlotPairs(t.primary).Ok?
    requires SetActive(t, SlotPairs(t.primary).value, target).Ok?
    ensures
      var pairs := SlotPairs(t.primary).value;
      var r := SetActive(t, pairs, target).value;
      && HasPairs(t.primary, pairs) && Effect(t.primary, r.primary, pairs, target)
      && r.backup == r.primary
      && SetActive(r, pairs, target) == Ok(r)
  {
    hide IsUnused, PartitionName, FindEntry, HasPair, Effect, SetActive, IndexA, IndexB, HasMetadata;
    var pairs := SlotPairs(t.primary).value;
    var r := SetActive(t, pairs, target).value;
    SlotPairsHeld(t.primary);
    SetActiveEffect(t, pairs, target);
    SetActiveEqual(t, pairs, target);
    EffectSame(t.primary, r.primary, pairs, target);
    SetActiveSucceeds(t, pairs, target);
    BootKeepsMetadata(t.primary, r.primary, pairs, target);
    SetActiveSucceeds(r, pairs, target);
    SetActiveEffect(r, pairs, target);
    SetActiveEqual(r, pairs, target);
    EffectTwice(t.primary, r.primary, SetActive(r, pairs, target).value.primary, pairs, target);
  }

  lemma BootKeepsMetadata(es: seq<bytes>, fs: seq<bytes>, pairs: seq<Name>, target: Slot)
    requires IsTable(es) && HasPairs(es, pairs) && Effect(es, fs, pairs, target) && IsTable(fs) && HasPairs(fs, pairs)
    requires BOOT in pairs ==> HasPair(es, BOOT) && HasMetadata(EntryA(es, BOOT), EntryB(es, BOOT))
    ensures BOOT in pairs ==> HasPair(fs, BOOT) && HasMetadata(EntryA(fs, BOOT), EntryB(fs, BOOT))
  {
    hide IsUnused, PartitionName, FindEntry, HasPair, Effect, IndexA, IndexB, SameOutside;
    if BOOT in pairs {
      EffectOnPair(es, fs, pairs, target, BOOT);
    }
  }

  // The code, on the bytes of a table.

  /// `chunks_exact`.
  function Entries(table: bytes, size: nat): (es: seq<bytes>)
    requires size > 0
    ensures forall i :: 0 <= i < |es| ==> |es[i]| == size
  {
    if |table| < size then [] else [table[..size]] + Entries(table[size..], size)
  }

  lemma {:induction false} EntryAt(table: bytes, size: nat, i: nat)
    requires size > 0 && i < |Entries(table, size)|
    ensures 0 <= i * size && i * size + size <= |table| && Entries(table, size)[i] == table[i * size..i * size + size]
    decreases i
  {
    if i == 0 {
      assert Entries(table, size)[0] == table[..size];
    } else {
      EntryAt(table[size..], size, i - 1);
      assert i * size == (i - 1) * size + size;
      SubSlice(table, size, |table|, (i - 1) * size, (i - 1) * size + size);
      assert table[size..|table|] == table[size..];
    }
  }

  lemma {:induction false} SpliceEntry(table: bytes, size: nat, i: nat, at: nat, data: bytes)
    requires size > 0 && i < |Entries(table, size)| && at + |data| <= size && 0 <= i * size && i * size + size <= |table|
    ensures Entries(Splice(table, i * size + at, data), size) == Entries(table, size)[i := Splice(Entries(table, size)[i], at, data)]
    decreases i
  {
    var out := Splice(table, i * size + at, data);
    EntriesStep(table, size);
    EntriesStep(out, size);
    hide Entries;
    if i == 0 {
      SpliceFirst(table, size, at, data);
    } else {
      PreviousEntry(i, size);
      SpliceLater(table, size, (i - 1) * size + at, data);
      hide Splice;
      SpliceEntry(table[size..], size, i - 1, at, data);
    }
  }

  lemma PreviousEntry(i: nat, size: nat)
    requires i > 0
    ensures 0 <= (i - 1) * size && i * size == (i - 1) * size + size
  {
  }

  lemma EntriesStep(table: bytes, size: nat)
    requires size > 0
    ensures Entries(table, size) == if |table| < size then [] else [table[..size]] + Entries(table[size..], size)
  {
  }

  lemma SpliceFirst(table: bytes, size: nat, at: nat, data: bytes)
    requires at + |data| <= size <= |table|
    ensures |Splice(table, at, data)| == |table|
    ensures Splice(table, at, data)[..size] == Splice(table[..size], at, data)
    ensures Splice(table, at, data)[size..] == table[size..]
  {
  }

  lemma SpliceLater(table: bytes, size: nat, at: nat, data: bytes)
    requires size + at + |data| <= |table|
    ensures |Splice(table, size + at, data)| == |table|
    ensures Splice(table, size + at, data)[..size] == table[..size]
    ensures Splice(table, size + at, data)[size..] == Splice(table[size..], at, data)
  {
  }

  lemma EntriesAreTable(table: bytes, size: nat)
    requires size >= GPT_MIN_ENTRY_SIZE
    ensures IsTable(Entries(table, size))
  {
  }

  /// `find_entry_index`.
  method FindEntryIndex(table: array<byte>, size: nat, name: Name) returns (r: Result<Option<nat>>)
    requires size >= GPT_MIN_ENTRY_SIZE
    ensures IsTable(Entries(table[..], size)) && r == FindEntry(Entries(table[..], size), name)
  {
    hide PartitionName, IsUnused, FindEntry;
    ghost var es := Entries(table[..], size);
    EntriesAreTable(table[..], size);
    var index, offset := 0, 0;
    assert es[0..] == es;
    while offset + size <= table.Length
      invariant 0 <= offset <= table.Length && index <= |es| && Entries(table[offset..], size) == es[index..]
      invariant IsTable(es[index..])
      invariant FindEntry(es, name) == Shifted(FindEntry(es[index..], name), index)
      decreases table.Length - offset
    {
      var entry := table[offset..offset + size];
      ghost var left := table[offset..];
      assert left[..size] == entry && left[size..] == table[offset + size..];
      assert es[index..][0] == entry && es[index..][1..] == es[index + 1..];
      FindStep(es[index..], name);
      if !IsUnused(entry) {
        var found := PartitionName(entry);
        if found.InvalidData? {
          return InvalidData;
        }
        if found == Ok(Some(name)) {
          return Ok(Some(index));
        }
      }
      index, offset := index + 1, offset + size;
    }
    assert es[index..] == [];
    FindNothing(name);
    return Ok(None);
  }

  function Shifted(r: Result<Option<nat>>, n: nat): Result<Option<nat>> {
    if r.InvalidData? then InvalidData else if r.value.None? then Ok(None) else Ok(Some(r.value.value + n))
  }

  lemma FindStep(es: seq<bytes>, name: Name)
    requires IsTable(es) && es != []
    ensures IsTable(es[1..])
    ensures FindEntry(es, name) ==
      if !IsUnused(es[0]) && PartitionName(es[0]).InvalidData? then InvalidData
      else if !IsUnused(es[0]) && PartitionName(es[0]) == Ok(Some(name)) then Ok(Some(0))
      else Shifted(FindEntry(es[1..], name), 1)
  {
    hide PartitionName, IsUnused;
    assert forall i :: 0 <= i < |es| - 1 ==> es[1..][i] == es[i + 1];
  }

  lemma FindNothing(name: Name)
    ensures FindEntry([], name) == Ok(None)
  {
  }

  /// `update_slot_entry`, in place.
  method UpdateSlotEntry(table: array<byte>, size: nat, index: nat, active: bool, activeGuid: bytes, inactiveGuid: bytes)
    requires size >= GPT_MIN_ENTRY_SIZE && |activeGuid| == |inactiveGuid| == TYPE_GUID_SIZE
    requires index < |Entries(table[..], size)|
    modifies table
    ensures Entries(table[..], size) ==
      old(Entries(table[..], size))[index := UpdateEntry(old(Entries(table[..], size))[index], active, activeGuid, inactiveGuid)]
  {
    hide Splice, Entries, UpdateEntry, ClearActive, PartitionName, IsUnused, FlagActive;
    ghost var before := table[..];
    ghost var es := Entries(before, size);
    EntryAt(before, size, index);
    var offset := index * size;
    var guid := if active then activeGuid else inactiveGuid;
    ByteAt(before, offset, size, AB_FLAG_OFFSET);
    var flag := table[offset + AB_FLAG_OFFSET];
    var value := if active then AB_SLOT_ACTIVE_VAL else ClearActive(flag);
    CopyInto(table, offset, guid);
    SpliceEntry(before, size, index, 0, guid);
    ghost var middle := table[..];
    CopyInto(table, offset + AB_FLAG_OFFSET, [value]);
    SpliceEntry(middle, size, index, AB_FLAG_OFFSET, [value]);
    UpdateIsSplices(es[index], active, activeGuid, inactiveGuid);
  }

  lemma ByteAt(table: bytes, offset: nat, size: nat, i: nat)
    requires offset + size <= |table| && i < size
    ensures table[offset..offset + size][i] == table[offset + i]
  {
  }

  lemma UpdateIsSplices(e: bytes, active: bool, activeGuid: bytes, inactiveGuid: bytes)
    requires IsEntry(e) && |activeGuid| == |inactiveGuid| == TYPE_GUID_SIZE
    ensures UpdateEntry(e, active, activeGuid, inactiveGuid) ==
      Splice(Splice(e, 0, if active then activeGuid else inactiveGuid), AB_FLAG_OFFSET,
             [if active then AB_SLOT_ACTIVE_VAL else ClearActive(e[AB_FLAG_OFFSET])])
  {
  }

  /// `copy_from_slice` at an offset.
  method CopyInto(table: array<byte>, offset: nat, data: bytes)
    requires offset + |data| <= table.Length
    modifies table
    ensures table[..] == Splice(old(table[..]), offset, data)
  {
    forall i | 0 <= i < |data| {
      table[offset + i] := data[i];
    }
    forall i | 0 <= i < table.Length ensures table[i] == Splice(old(table[..]), offset, data)[i] {
      if offset <= i < offset + |data| {
        assert table[offset + (i - offset)] == data[i - offset];
      }
    }
  }

  /// `update_pair_table`, in place.
  method UpdatePairInPlace(table: array<byte>, size: nat, base: Name, target: Slot, activeGuid: bytes, inactiveGuid: bytes)
    returns (r: Result<()>)
    requires size >= GPT_MIN_ENTRY_SIZE && |activeGuid| == |inactiveGuid| == TYPE_GUID_SIZE
    requires IsTable(Entries(table[..], size))
    modifies table
    ensures
      var after := UpdatePairTable(old(Entries(table[..], size)), base, target, activeGuid, inactiveGuid);
      && (r.Ok? <==> after.Ok?)
      && Entries(table[..], size) == if after.Ok? then after.value else old(Entries(table[..], size))
  {
    hide FindEntry, UpdateEntry, PartitionName, IsUnused;
    var i := FindEntryIndex(table, size, base + SUFFIX_A);
    if i.InvalidData? || i.value.None? {
      return InvalidData;
    }
    var j := FindEntryIndex(table, size, base + SUFFIX_B);
    if j.InvalidData? || j.value.None? {
      return InvalidData;
    }
    UpdateSlotEntry(table, size, i.value.value, target == A, activeGuid, inactiveGuid);
    UpdateSlotEntry(table, size, j.value.value, target == B, activeGuid, inactiveGuid);
    return Ok(());
  }

  method ReadEntry(table: array<byte>, size: nat, i: nat) returns (e: bytes)
    requires size > 0 && i < |Entries(table[..], size)|
    ensures e == Entries(table[..], size)[i]
  {
    EntryAt(table[..], size, i);
    e := table[i * size..i * size + size];
  }

  /// The two tables of a loaded disk, as `set_active_pair` changes them.
  class SlotDisk {
    const primary: array<byte>
    const backup: array<byte>
    const primarySize: nat
    const backupSize: nat

    constructor (primary: array<byte>, primarySize: nat, backup: array<byte>, backupSize: nat)
      ensures this.primary == primary && this.backup == backup
      ensures this.primarySize == primarySize && this.backupSize == backupSize
    {
      this.primary, this.primarySize, this.backup, this.backupSize := primary, primarySize, backup, backupSize;
    }

    ghost predicate Valid() {
      primary != backup && primarySize >= GPT_MIN_ENTRY_SIZE && backupSize >= GPT_MIN_ENTRY_SIZE
    }

    ghost function Contents(): (t: Tables)
      requires Valid()
      reads primary, backup
      ensures AreTables(t)
    {
      EntriesAreTable(primary[..], primarySize);
      EntriesAreTable(backup[..], backupSize);
      Tables(Entries(primary[..], primarySize), Entries(backup[..], backupSize))
    }

    /// `set_active_pair`: updated, skipped, or failed.
    method SetPair(base: Name, target: Slot) returns (r: Result<bool>)
      requires Valid()
      modifies primary, backup
      ensures
        var after := SetActivePair(old(Contents()), base, target);
        && (r.Ok? <==> after.Ok?)
        && (after.Ok? ==> r.value == after.value.1 && Contents() == after.value.0)
    {
      hide FindEntry, UpdateEntry, PartitionName, IsUnused, Entries, UpdatePairTable;
      EntriesAreTable(primary[..], primarySize);
      EntriesAreTable(backup[..], backupSize);
      var i := FindEntryIndex(primary, primarySize, base + SUFFIX_A);
      if i.InvalidData? || i.value.None? {
        return InvalidData;
      }
      var j := FindEntryIndex(primary, primarySize, base + SUFFIX_B);
      if j.InvalidData? || j.value.None? {
        return InvalidData;
      }
      var a := ReadEntry(primary, primarySize, i.value.value);
      var b := ReadEntry(primary, primarySize, j.value.value);
      hide HasMetadata, ActiveGuid, InactiveGuid, IsTable;
      if !HasMetadata(a, b) {
        return Ok(false);
      }
      var first := UpdatePairInPlace(primary, primarySize, base, target, ActiveGuid(a, b), InactiveGuid(a, b));
      if first.InvalidData? {
        return InvalidData;
      }
      var second := UpdatePairInPlace(backup, backupSize, base, target, ActiveGuid(a, b), InactiveGuid(a, b));
      if second.InvalidData? {
        return InvalidData;
      }
      return Ok(true);
    }

    /// The loop over the pairs of one disk.
    method SetAll(pairs: seq<Name>, target: Slot) returns (r: Result<bool>)
      requires Valid()
      modifies primary, backup
      ensures
        var after := SetActive(old(Contents()), pairs, target);
        && (r.Ok? <==> after.Ok?)
        && (after.Ok? ==> Contents() == after.value && r.value == Changes(old(Contents()), pairs, target))
    {
      hide SetActivePair, Entries;
      var changed, k := false, 0;
      ghost var whole, changes := SetActive(Contents(), pairs, target), Changes(Contents(), pairs, target);
      assert pairs[0..] == pairs;
      while k < |pairs|
        invariant 0 <= k <= |pairs| && SetActive(Contents(), pairs[k..], target) == whole
        invariant changes <==> changed || Changes(Contents(), pairs[k..], target)
      {
        assert pairs[k..][0] == pairs[k] && pairs[k..][1..] == pairs[k + 1..];
        if pairs[k] != XBL {
          var updated := SetPair(pairs[k], target);
          if updated.InvalidData? {
            return InvalidData;
          }
          if updated.value {
            changed := true;
          } else if pairs[k] == BOOT {
            return InvalidData;
          }
        }
        k := k + 1;
      }
      assert pairs[k..] == [];
      return Ok(changed);
    }
  }
}
