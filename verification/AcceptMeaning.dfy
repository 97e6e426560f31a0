/// When `graft_spin_table` of `src/kexec.rs` accepts a destination, in its own names and bytes.
module AcceptMeaning {
  import opened Bytes
  import opened Handoff
  import opened Tree
  import opened Dtb
  import Contract
  import opened Nodes
  import opened Psci
  import opened SpinTable
  import opened SpinGraft
  import opened SpinBlob
  import opened Reserved
  import opened ReservedMeaning
  import opened Paths
  import opened WordMeaning
  import opened DomainMeaning
  import opened SpinMeaning
  import opened ContractMeaning
  import opened ProviderMeaning
  import Ranges

  // The power domains of a CPU.

  /// The domains are tuples of known providers, and there are as many names, if any.
  ghost predicate DomainsGood(cpu: Node, providers: seq<Provider>) {
    var domains, list := Get(cpu, Ascii("power-domains")), Get(cpu, Ascii("power-domain-names"));
    domains.Some? ==> exists tuples: seq<bytes>, keep: seq<bool> ::
      && Flat(tuples) == domains.value && AreTuples(tuples, keep, providers)
      && (list.Some? ==> exists names: seq<bytes> :: |names| == |tuples| && Lists(list.value, names))
  }

  lemma FirstTuple(t: bytes, keep: bool, rest: bytes, providers: seq<Provider>)
    requires IsTuple(t, keep, providers)
    ensures |t| >= 4 && |t| % 4 == 0 && (t + rest)[..4] == t[..4] && FindProvider(providers, De32(t[..4])).Some?
    ensures
      var p := FindProvider(providers, De32(t[..4])).value;
      |t| == (p.cells + 1) * 4 && (t + rest)[|t|..] == rest && (t + rest)[..|t|] == t
  {
    hide Bytes.De32;
  }

  lemma TuplesOf(t: bytes, rest: bytes, providers: seq<Provider>)
    requires |t| >= 4 && FindProvider(providers, De32(t[..4])).Some? && (t + rest)[..4] == t[..4]
    requires |t| == (FindProvider(providers, De32(t[..4])).value.cells + 1) * 4 && (t + rest)[|t|..] == rest
    requires Tuples(rest, providers).Ok?
    ensures Tuples(t + rest, providers).Ok? && |Tuples(t + rest, providers).value| == 1 + |Tuples(rest, providers).value|
  {
    hide Bytes.De32;
  }

  lemma {:induction false} TuplesReturn(tuples: seq<bytes>, keep: seq<bool>, providers: seq<Provider>)
    requires AreTuples(tuples, keep, providers)
    ensures Tuples(Flat(tuples), providers).Ok? && |Tuples(Flat(tuples), providers).value| == |tuples|
    ensures |Flat(tuples)| % 4 == 0
  {
    hide IsTuple, Tuples, Bytes.De32;
    if tuples == [] {
      DomainMeaning.NoTuples(providers);
    } else {
      TuplesReturn(tuples[1..], keep[1..], providers);
      FirstTuple(tuples[0], keep[0], Flat(tuples[1..]), providers);
      TuplesOf(tuples[0], Flat(tuples[1..]), providers);
    }
  }

  lemma NamesReturn(value: bytes, names: seq<bytes>)
    requires Lists(value, names)
    ensures value[|value| - 1] == 0 && Items(value[..|value| - 1]) == names
  {
    JoinedIsFlat(names);
    if names != [] {
      ItemsJoined(names);
    }
  }

  lemma DomainsReturn(cpu: Node, providers: seq<Provider>)
    ensures RemoveDomains(cpu, providers).Ok? <==> DomainsGood(cpu, providers)
  {
    hide Tuples, SetDomains, GetProp, Flat, AreTuples, Bytes.Ascii, Lists, KeptInOrder, DomainsLeft;
    var domains, list := Get(cpu, PROP_POWER_DOMAINS), Get(cpu, PROP_POWER_DOMAIN_NAMES);
    if domains.Some? {
      if RemoveDomains(cpu, providers).Ok? {
        var tuples := Tuples(domains.value, providers).value;
        var was, keep, now := DomainMeaning.TuplesMeaning(domains.value, providers);
        if list.Some? {
          var names, names' := NamesMeaning(list.value, tuples, keep);
        }
      }
      if DomainsGood(cpu, providers) {
        DomainsAccepted(cpu, providers);
      }
    }
  }

  lemma DomainsAccepted(cpu: Node, providers: seq<Provider>)
    requires DomainsGood(cpu, providers) && Get(cpu, Ascii("power-domains")).Some?
    ensures RemoveDomains(cpu, providers).Ok?
  {
    hide Tuples, SetDomains, GetProp, Flat, AreTuples, Bytes.Ascii, Lists, Items, JoinNames, KeptNames;
    var domains, list := Get(cpu, Ascii("power-domains")), Get(cpu, Ascii("power-domain-names"));
    var tuples: seq<bytes>, keep: seq<bool> :| Flat(tuples) == domains.value && AreTuples(tuples, keep, providers)
      && (list.Some? ==> exists names: seq<bytes> :: |names| == |tuples| && Lists(list.value, names));
    TuplesReturn(tuples, keep, providers);
    if list.Some? {
      var names: seq<bytes> :| |names| == |tuples| && Lists(list.value, names);
      NamesReturn(list.value, names);
      NotEmpty(list.value, names);
    }
  }

  lemma NotEmpty(value: bytes, names: seq<bytes>)
    requires Lists(value, names)
    ensures value != []
  {
  }

  // Editing the CPUs.

  /// Every CPU has an affinity and good domains.
  ghost predicate CoresGood(nodes: seq<Node>, cells: u32, providers: seq<Provider>) {
    forall core <- nodes :: IsCore(core) ==> (exists id: nat :: AffinityIs(core, cells, id)) && DomainsGood(core, providers)
  }

  lemma EditReturns(cpu: Node, id: nat, base: nat, providers: seq<Provider>)
    ensures EditCpu(cpu, id, base, providers).Ok? <==> DomainsGood(cpu, providers)
  {
    hide Bytes.Ascii, GetProp, RemoveDomains, SetProp, RemoveProp, Bytes.Be64, Flat, AreTuples, Lists;
    var slot := SlotCpu(cpu, id, base);
    FiveNames();
    SlotCpuGet(cpu, id, base, Ascii("power-domains"));
    SlotCpuGet(cpu, id, base, Ascii("power-domain-names"));
    DomainsReturn(slot, providers);
  }

  lemma {:induction false} EditsReturn(nodes: seq<Node>, cells: u32, base: nat, providers: seq<Provider>)
    ensures EditCpus(nodes, cells, base, providers).Ok? <==> CoresGood(nodes, cells, providers)
    decreases |nodes|
  {
    hide IsCore, IsCpu, AffinityIs, DomainsGood, EditCpu, Mpidr;
    if nodes != [] {
      var node := nodes[0];
      EditsReturn(nodes[1..], cells, base, providers);
      CoreMeaning(node);
      AffinityReturns(node, cells);
      if Mpidr(node, cells).Ok? {
        EditReturns(node, Mpidr(node, cells).value, base, providers);
      }
      assert forall n :: n in nodes <==> n == node || n in nodes[1..];
    }
  }

  lemma TargetReturns(target: Node, base: nat, providers: seq<Provider>)
    ensures EditTarget(target, base, providers).Ok? <==>
      exists cells: u32 :: CoreCells(target, cells) && 1 <= cells <= 2
        && CoresGood(Child(target, Ascii("cpus")).value.children, cells, providers)
  {
    hide Bytes.Ascii, GetProp, EditCpus, CoresGood, Bytes.De32;
    var i := ChildIndex(target.children, CPUS);
    if i.Some? {
      var cpus := target.children[i.value];
      CellsReturn(target, cpus);
      if CpuCells(cpus).Ok? {
        EditsReturn(cpus.children, CpuCells(cpus).value, base, providers);
      }
    }
  }

  lemma CellsReturn(target: Node, cpus: Node)
    requires Child(target, CPUS) == Some(cpus)
    ensures forall cells: u32 :: CpuCells(cpus) == Ok(cells) <==> CoreCells(target, cells) && 1 <= cells <= 2
  {
    hide Bytes.Ascii, GetProp, Child, Bytes.De32;
  }

  // The map.

  /// An entry that touches the page is the page.
  predicate MapAccepts(ranges: seq<Range>, base: nat) {
    forall r <- ranges :: r.start < base + 0x1000 && base < r.end ==> r == Range(base, base + 0x1000)
  }

  lemma {:induction false} MapReturns(ranges: seq<Range>, base: nat)
    ensures MapReserves(ranges, base).Ok? <==> MapAccepts(ranges, base)
    ensures MapReserves(ranges, base) == Ok(true) <==> MapAccepts(ranges, base) && Range(base, base + 0x1000) in ranges
  {
    if ranges != [] {
      MapReturns(ranges[1..], base);
      assert forall r :: r in ranges <==> r == ranges[0] || r in ranges[1..];
    }
  }

  // The name of the reservation.

  function DigitValue(c: byte): int {
    if 0x30 <= c <= 0x39 then c as int - 0x30 else if 0x61 <= c <= 0x66 then c as int - 0x61 + 10 else -1
  }

  /// The value of lower-case hexadecimal digits.
  function HexValue(text: bytes): int {
    if text == [] then 0 else 16 * HexValue(text[..|text| - 1]) + DigitValue(text[|text| - 1])
  }

  /// The number in lower-case hexadecimal digits, without leading zeros.
  predicate IsHex(text: bytes, n: nat) {
    && text != [] && (forall c <- text :: DigitValue(c) >= 0) && HexValue(text) == n
    && (text[0] != 0x30 || |text| == 1)
  }

  lemma DigitMeaning(d: nat)
    requires d < 16
    ensures DigitValue(HexDigit(d)) == d && (HexDigit(d) == 0x30 <==> d == 0)
    ensures forall c: byte :: DigitValue(c) == d ==> c == HexDigit(d)
  {
  }

  lemma OneDigit(text: bytes)
    requires |text| == 1
    ensures HexValue(text) == DigitValue(text[0])
  {
    hide DigitValue;
    assert text[..0] == [] && HexValue([]) == 0;
  }

  lemma {:induction false} HexIsHex(n: nat)
    ensures IsHex(Hex(n), n) && (n > 0 ==> Hex(n)[0] != 0x30)
  {
    hide HexDigit, DigitValue;
    DigitMeaning(n % 16);
    if n < 16 {
      OneDigit(Hex(n));
    } else {
      HexIsHex(n / 16);
      assert Hex(n)[..|Hex(n)| - 1] == Hex(n / 16);
    }
  }

  lemma {:induction false} HexOnce(text: bytes, n: nat)
    requires IsHex(text, n)
    ensures text == Hex(n) && (text[0] != 0x30 ==> n > 0)
    decreases |text|
  {
    var last := text[|text| - 1];
    assert last in text && DigitValue(last) < 16;
    DigitMeaning(DigitValue(last));
    if |text| == 1 {
      OneDigit(text);
    } else {
      var front := text[..|text| - 1];
      assert forall c <- front :: c in text;
      assert front[0] == text[0] && HexValue(front) >= 0 by { HexNatural(front); }
      HexOnce(front, HexValue(front));
      assert n / 16 == HexValue(front) && n % 16 == DigitValue(last);
      assert text == front + [last];
    }
  }

  lemma {:induction false} HexNatural(text: bytes)
    requires forall c <- text :: DigitValue(c) >= 0
    ensures HexValue(text) >= 0
  {
    hide DigitValue;
    if text != [] {
      assert forall c <- text[..|text| - 1] :: c in text;
      HexNatural(text[..|text| - 1]);
      assert text[|text| - 1] in text;
    }
  }

  /// The name of the reservation of a page.
  predicate NamesPage(name: bytes, base: nat) { Ascii("spin-table@") <= name && IsHex(name[11..], base) }

  lemma PageNameMeaning(name: bytes, base: nat)
    ensures name == ParkingName(base) <==> NamesPage(name, base)
  {
    assert |Ascii("spin-table@")| == 11;
    hide Bytes.Ascii, IsHex, Hex;
    HexIsHex(base);
    if name == ParkingName(base) {
      assert name[11..] == Hex(base);
    }
    if NamesPage(name, base) {
      HexOnce(name[11..], base);
      assert name == name[..11] + name[11..];
    }
  }

  // The reservation.

  predicate TupleAt(reg: bytes, a: u32, z: u32, offset: nat) {
    && 1 <= a <= 2 && 1 <= z <= 2 && offset % (4 * a + 4 * z) == 0 && offset + 4 * a + 4 * z <= |reg|
  }

  predicate TupleIs(reg: bytes, a: u32, z: u32, offset: nat, start: nat, size: nat) {
    TupleAt(reg, a, z, offset) && Cells(reg, offset, a) == start && Cells(reg, offset + 4 * a, z) == size
  }

  predicate IsEmpty(reg: bytes, a: u32, z: u32, offset: nat) {
    TupleAt(reg, a, z, offset) ==> Cells(reg, offset + 4 * a, z) == 0
  }

  ghost predicate AllEmpty(reg: bytes, a: u32, z: u32) { forall offset: nat :: IsEmpty(reg, a, z, offset) }

  ghost predicate OnlyPage(reg: bytes, a: u32, z: u32, base: nat) {
    exists offset: nat :: TupleIs(reg, a, z, offset, base, 0x1000)
      && forall other: nat :: other != offset ==> IsEmpty(reg, a, z, other)
  }

  /// The property describes the page, in one tuple, and nothing else.
  ghost predicate RegIsPage(reg: bytes, a: u32, z: u32, base: nat) {
    GoodReg(reg, a, z) && OnlyPage(reg, a, z, base)
  }

  lemma TupleAhead(reg: bytes, a: u32, z: u32, offset: nat)
    requires 1 <= a <= 2 && 1 <= z <= 2 && |reg| >= 4 * a + 4 * z
    ensures
      var n := 4 * a + 4 * z;
      && (IsEmpty(reg[n..], a, z, offset) <==> IsEmpty(reg, a, z, n + offset))
      && (TupleAt(reg[n..], a, z, offset) <==> TupleAt(reg, a, z, n + offset))
      && (offset != 0 && TupleAt(reg, a, z, offset) ==> offset >= n)
      && forall start: nat, size: nat ::
           TupleIs(reg[n..], a, z, offset, start, size) <==> TupleIs(reg, a, z, n + offset, start, size)
  {
    var n := 4 * a + 4 * z;
    StepsAhead(offset, n);
    if offset + n <= |reg[n..]| {
      CellsAhead(reg, n, offset, a);
      CellsAhead(reg, n, offset + 4 * a, z);
    }
    if offset != 0 && offset % n == 0 {
      SmallMultiple(offset, n);
    }
    hide Cells;
  }

  lemma EmptyStep(reg: bytes, a: u32, z: u32)
    requires 1 <= a <= 2 && 1 <= z <= 2 && |reg| >= 4 * a + 4 * z
    ensures AllEmpty(reg, a, z) <==> Cells(reg, 4 * a, z) == 0 && AllEmpty(reg[4 * a + 4 * z..], a, z)
  {
    hide Cells;
    var n := 4 * a + 4 * z;
    forall offset: nat ensures IsEmpty(reg[n..], a, z, offset) <==> IsEmpty(reg, a, z, n + offset) {
      TupleAhead(reg, a, z, offset);
    }
    if AllEmpty(reg, a, z) {
      assert IsEmpty(reg, a, z, 0);
    }
    if Cells(reg, 4 * a, z) == 0 && AllEmpty(reg[n..], a, z) {
      forall offset: nat ensures IsEmpty(reg, a, z, offset) {
        TupleAhead(reg, a, z, offset);
        if offset >= n {
          assert IsEmpty(reg[n..], a, z, offset - n);
        }
      }
    }
  }

  lemma OnlyStep(reg: bytes, a: u32, z: u32, base: nat)
    requires 1 <= a <= 2 && 1 <= z <= 2 && |reg| >= 4 * a + 4 * z
    ensures OnlyPage(reg, a, z, base) <==>
      var rest := reg[4 * a + 4 * z..];
      if Cells(reg, 4 * a, z) == 0 then OnlyPage(rest, a, z, base)
      else Cells(reg, 0, a) == base && Cells(reg, 4 * a, z) == 0x1000 && AllEmpty(rest, a, z)
  {
    hide Cells;
    var n := 4 * a + 4 * z;
    if OnlyPage(reg, a, z, base) {
      OnlyBehind(reg, a, z, base);
    }
    if Cells(reg, 4 * a, z) == 0 {
      if OnlyPage(reg[n..], a, z, base) {
        OnlyAhead(reg, a, z, base);
      }
    } else if Cells(reg, 0, a) == base && Cells(reg, 4 * a, z) == 0x1000 && AllEmpty(reg[n..], a, z) {
      forall other: nat | other != 0 ensures IsEmpty(reg, a, z, other) {
        TupleAhead(reg, a, z, other);
        if other >= n {
          TupleAhead(reg, a, z, other - n);
          assert IsEmpty(reg[n..], a, z, other - n);
        }
      }
      assert TupleIs(reg, a, z, 0, base, 0x1000);
    }
  }

  lemma OnlyBehind(reg: bytes, a: u32, z: u32, base: nat)
    requires 1 <= a <= 2 && 1 <= z <= 2 && |reg| >= 4 * a + 4 * z && OnlyPage(reg, a, z, base)
    ensures
      var rest := reg[4 * a + 4 * z..];
      if Cells(reg, 4 * a, z) == 0 then OnlyPage(rest, a, z, base)
      else Cells(reg, 0, a) == base && Cells(reg, 4 * a, z) == 0x1000 && AllEmpty(rest, a, z)
  {
    hide Cells;
    var n := 4 * a + 4 * z;
    var offset: nat :| TupleIs(reg, a, z, offset, base, 0x1000) && forall other: nat :: other != offset ==> IsEmpty(reg, a, z, other);
    TupleAhead(reg, a, z, offset);
    forall other: nat ensures IsEmpty(reg[n..], a, z, other) <==> IsEmpty(reg, a, z, n + other) {
      TupleAhead(reg, a, z, other);
    }
    if offset != 0 {
      assert IsEmpty(reg, a, z, 0);
      TupleAhead(reg, a, z, offset - n);
      forall other: nat | other != offset - n ensures IsEmpty(reg[n..], a, z, other) {
        assert IsEmpty(reg, a, z, n + other);
      }
      assert TupleIs(reg[n..], a, z, offset - n, base, 0x1000);
    } else {
      forall other: nat ensures IsEmpty(reg[n..], a, z, other) {
        assert IsEmpty(reg, a, z, n + other);
      }
    }
  }

  lemma OnlyAhead(reg: bytes, a: u32, z: u32, base: nat)
    requires 1 <= a <= 2 && 1 <= z <= 2 && |reg| >= 4 * a + 4 * z
    requires Cells(reg, 4 * a, z) == 0 && OnlyPage(reg[4 * a + 4 * z..], a, z, base)
    ensures OnlyPage(reg, a, z, base)
  {
    hide Cells;
    var n := 4 * a + 4 * z;
    var offset: nat :| TupleIs(reg[n..], a, z, offset, base, 0x1000)
      && forall other: nat :: other != offset ==> IsEmpty(reg[n..], a, z, other);
    TupleAhead(reg, a, z, offset);
    forall other: nat | other != n + offset ensures IsEmpty(reg, a, z, other) {
      TupleAhead(reg, a, z, other);
      if other >= n {
        TupleAhead(reg, a, z, other - n);
        assert IsEmpty(reg[n..], a, z, other - n);
      }
    }
    assert TupleIs(reg, a, z, n + offset, base, 0x1000);
  }

  /// One step of decoding.
  lemma DecodeStep(reg: bytes, a: u32, z: u32)
    requires 1 <= a <= 2 && 1 <= z <= 2 && reg != [] && Whole(reg, a * 4 + z * 4)
    ensures |reg| >= 4 * a + 4 * z && Whole(reg[4 * a + 4 * z..], a * 4 + z * 4)
    ensures
      var rest := DecodeTuples(reg[4 * a + 4 * z..], a * 4, a * 4 + z * 4);
      var start, size := Cells(reg, 0, a), Cells(reg, 4 * a, z);
      DecodeTuples(reg, a * 4, a * 4 + z * 4) ==
        if size == 0 then rest
        else if start + size >= 0x1_0000_0000_0000_0000 || rest.InvalidData? then InvalidData
        else Ok([Range(start, start + size)] + rest.value)
  {
    hide Cells, DecodeCells;
    WholeNext(reg, a * 4 + z * 4);
    ReservedMeaning.FirstTuple(reg, a, z, 0);
  }

  lemma OneRange(start: nat, size: nat, rest: seq<Range>, base: nat)
    ensures [Range(start, start + size)] + rest == [Range(base, base + 0x1000)] <==> start == base && size == 0x1000 && rest == []
    ensures [Range(start, start + size)] + rest != []
  {
    var all, page := [Range(start, start + size)] + rest, [Range(base, base + 0x1000)];
    if all == page {
      assert |all| == 1 && all[0] == page[0];
    }
  }

  lemma {:induction false} DecodedPage(reg: bytes, a: u32, z: u32, base: nat)
    requires 1 <= a <= 2 && 1 <= z <= 2 && Whole(reg, a * 4 + z * 4)
    ensures DecodeTuples(reg, a * 4, a * 4 + z * 4) == Ok([]) <==> AllEmpty(reg, a, z)
    ensures base + 0x1000 < 0x1_0000_0000_0000_0000 ==>
      (DecodeTuples(reg, a * 4, a * 4 + z * 4) == Ok([Range(base, base + 0x1000)]) <==> OnlyPage(reg, a, z, base))
    decreases |reg|
  {
    hide Cells, AllEmpty, OnlyPage, Whole;
    if reg == [] {
      NoTuplesAt(a, z, base);
    } else {
      DecodeStep(reg, a, z);
      EmptyStep(reg, a, z);
      OnlyStep(reg, a, z, base);
      hide DecodeTuples;
      var rest := DecodeTuples(reg[4 * a + 4 * z..], a * 4, a * 4 + z * 4);
      DecodedPage(reg[4 * a + 4 * z..], a, z, base);
      if rest.Ok? {
        OneRange(Cells(reg, 0, a), Cells(reg, 4 * a, z), rest.value, base);
      }
    }
  }

  lemma NoTuplesAt(a: u32, z: u32, base: nat)
    ensures AllEmpty([], a, z) && !OnlyPage([], a, z, base)
  {
  }

  lemma PageReg(reg: bytes, a: u32, z: u32, base: nat)
    requires base + 0x1000 < 0x1_0000_0000_0000_0000
    ensures DecodeReg(reg, a, z) == Ok([Range(base, base + 0x1000)]) <==> RegIsPage(reg, a, z, base)
  {
    hide OnlyPage, DecodeTuples, NoneOverflows;
    RegMeaning(reg, a, z);
    if GoodReg(reg, a, z) {
      DecodedPage(reg, a, z, base);
    }
  }

  /// A reservation that concerns the page: it touches it, claims the contract, or has its name.
  ghost predicate ConcernsPage(node: Node, a: u32, z: u32, base: nat) {
    var reg := Get(node, Ascii("reg"));
    || Claims(node) || NamesPage(node.name, base)
    || (reg.Some? && exists x: nat :: base <= x < base + 0x1000 && RegHolds(reg.value, a, z, x))
  }

  /// ... must be enabled, of version 1, not mapped, and describe the page.
  ghost predicate OwnsThePage(node: Node, a: u32, z: u32, base: nat) {
    var compatible, reg := Get(node, Ascii("compatible")), Get(node, Ascii("reg"));
    && IsEnabled(node) && compatible.Some? && HasWord(compatible.value, Ascii("pocketboot,spin-table-v1"))
    && Get(node, Ascii("no-map")) == Some([]) && Get(node, Ascii("reusable")).None?
    && reg.Some? && RegIsPage(reg.value, a, z, base)
  }

  ghost predicate RegsGood(nodes: seq<Node>, a: u32, z: u32) {
    forall node <- nodes :: Get(node, Ascii("reg")).Some? ==> GoodReg(Get(node, Ascii("reg")).value, a, z)
  }

  /// The reservations leave the page alone, or exactly one of them is the page.
  ghost predicate PageFree(nodes: seq<Node>, a: u32, z: u32, base: nat) {
    RegsGood(nodes, a, z) && forall node <- nodes :: !ConcernsPage(node, a, z, base)
  }

  ghost predicate PageTaken(nodes: seq<Node>, a: u32, z: u32, base: nat) {
    && RegsGood(nodes, a, z)
    && exists k :: 0 <= k < |nodes| && ConcernsPage(nodes[k], a, z, base) && OwnsThePage(nodes[k], a, z, base)
         && forall j :: 0 <= j < |nodes| && j != k ==> !ConcernsPage(nodes[j], a, z, base)
  }

  lemma NodeConcern(node: Node, a: u32, z: u32, base: nat)
    requires base + 0x1000 < 0x1_0000_0000_0000_0000
    ensures
      var reg, ranges := Get(node, Ascii("reg")), RegRanges(node, a, z);
      && (ranges.Ok? <==> (reg.Some? ==> GoodReg(reg.value, a, z)))
      && (ranges.Ok? ==>
            && (Concerned(node, ranges.value, base) <==> ConcernsPage(node, a, z, base))
            && (IsParking(node, ranges.value, base) <==> OwnsThePage(node, a, z, base)))
  {
    hide Bytes.Ascii, GetProp, Items, HasStart, HasWord, DecodeReg, GoodReg, RegHolds, ParkingName, IsContract, Claims, Enabled, IsEnabled,
      Overlaps, NamesPage, OnlyPage;
    ContractText();
    ClaimsMeaning(node);
    EnabledMeaning(node);
    PageNameMeaning(node.name, base);
    var compatible, reg := Get(node, Ascii("compatible")), Get(node, Ascii("reg"));
    if compatible.Some? {
      ItemMeaning(compatible.value, Ascii("pocketboot,spin-table-v1"));
    }
    if reg.Some? {
      RegMeaning(reg.value, a, z);
      PageReg(reg.value, a, z, base);
    }
    if RegRanges(node, a, z).Ok? {
      RangesMeaning(node, a, z, base);
    }
  }

  lemma ContractText()
    ensures NulFree(Ascii("pocketboot,spin-table-v1"))
  {
  }

  ghost predicate RegGood(node: Node, a: u32, z: u32) {
    Get(node, Ascii("reg")).Some? ==> GoodReg(Get(node, Ascii("reg")).value, a, z)
  }

  lemma PageSteps(nodes: seq<Node>, a: u32, z: u32, base: nat)
    requires nodes != []
    ensures PageFree(nodes, a, z, base) <==>
      RegGood(nodes[0], a, z) && !ConcernsPage(nodes[0], a, z, base) && PageFree(nodes[1..], a, z, base)
    ensures PageTaken(nodes, a, z, base) <==>
      && RegGood(nodes[0], a, z)
      && if ConcernsPage(nodes[0], a, z, base) then OwnsThePage(nodes[0], a, z, base) && PageFree(nodes[1..], a, z, base)
         else PageTaken(nodes[1..], a, z, base)
  {
    hide ConcernsPage, OwnsThePage, GoodReg, GetProp, Bytes.Ascii;
    var rest := nodes[1..];
    assert forall n :: n in nodes <==> n == nodes[0] || n in rest;
    assert forall j :: 0 < j < |nodes| ==> rest[j - 1] == nodes[j];
    if PageTaken(nodes, a, z, base) {
      var k :| 0 <= k < |nodes| && ConcernsPage(nodes[k], a, z, base) && OwnsThePage(nodes[k], a, z, base)
         && forall j :: 0 <= j < |nodes| && j != k ==> !ConcernsPage(nodes[j], a, z, base);
      if k > 0 {
        assert rest[k - 1] == nodes[k];
      }
    }
    if !ConcernsPage(nodes[0], a, z, base) && PageTaken(rest, a, z, base) {
      var k :| 0 <= k < |rest| && ConcernsPage(rest[k], a, z, base) && OwnsThePage(rest[k], a, z, base)
         && forall j :: 0 <= j < |rest| && j != k ==> !ConcernsPage(rest[j], a, z, base);
      assert nodes[k + 1] == rest[k];
    }
  }

  lemma {:induction false} ChecksMeaning(nodes: seq<Node>, a: u32, z: u32, base: nat)
    requires base + 0x1000 < 0x1_0000_0000_0000_0000
    ensures CheckReservations(nodes, a, z, base, false) == Ok(false) <==> PageFree(nodes, a, z, base)
    ensures CheckReservations(nodes, a, z, base, false) == Ok(true) <==> PageTaken(nodes, a, z, base)
    ensures CheckReservations(nodes, a, z, base, true) == (if PageFree(nodes, a, z, base) then Ok(true) else InvalidData)
    decreases |nodes|
  {
    hide ConcernsPage, OwnsThePage, GoodReg, GetProp, Bytes.Ascii, RegRanges, Concerned, IsParking, PageFree, PageTaken;
    if nodes == [] {
      NobodyParks(a, z, base);
    } else {
      NodeConcern(nodes[0], a, z, base);
      PageSteps(nodes, a, z, base);
      ChecksMeaning(nodes[1..], a, z, base);
    }
  }

  lemma NobodyParks(a: u32, z: u32, base: nat)
    ensures PageFree([], a, z, base) && !PageTaken([], a, z, base)
  {
  }

  /// The root says how many cells an address and a size have.
  predicate RootCells(root: Node, a: u32, z: u32) {
    && 1 <= a <= 2 && CountOf(root, Ascii("#address-cells"), 2) == Some(a)
    && 1 <= z <= 2 && CountOf(root, Ascii("#size-cells"), 1) == Some(z)
  }

  /// The tree can take the reservation: it has it, or there is room for it.
  ghost predicate TakesPage(root: Node, a: u32, z: u32, base: nat) {
    var reserved := Child(root, Ascii("reserved-memory"));
    && RootCells(root, a, z)
    && if reserved.None? then a == 2 || base < 0x1_0000_0000
       else
         && ReservedIs(root, reserved.value, a, z)
         && (PageTaken(reserved.value.children, a, z, base)
             || (PageFree(reserved.value.children, a, z, base) && (a == 2 || base < 0x1_0000_0000)))
  }

  /// The node that is added: its name is the address in hexadecimal.
  predicate NewPage(node: Node, a: u32, z: u32, base: u64) {
    && NamesPage(node.name, base) && node.children == []
    && (a == 1 ==> base < 0x1_0000_0000)
    && node.props ==
         [Property(Ascii("compatible"), Ascii("pocketboot,spin-table-v1") + [0]), Property(Ascii("no-map"), []),
          Property(Ascii("reg"), (if a == 1 then Be32(base) else Be64(base)) + (if z == 1 then Be32(0x1000) else Be64(0x1000)))]
  }

  /// The tree afterwards.
  ghost predicate PageAdded(now: Node, was: Node, a: u32, z: u32, base: u64) {
    var i := ChildIndex(was.children, Ascii("reserved-memory"));
    && now.name == was.name && now.props == was.props
    && if i.None? then
         && |now.children| == |was.children| + 1 && now.children[..|was.children|] == was.children
         && var reserved := now.children[|was.children|];
         && reserved.name == Ascii("reserved-memory") && |reserved.children| == 1 && NewPage(reserved.children[0], a, z, base)
         && reserved.props ==
              [Property(Ascii("#address-cells"), Be32(a)), Property(Ascii("#size-cells"), Be32(z)), Property(Ascii("ranges"), [])]
       else
         var reserved := was.children[i.value];
         if PageTaken(reserved.children, a, z, base) then now == was
         else
           && |now.children| == |was.children| && now.children == was.children[i.value := now.children[i.value]]
           && now.children[i.value].name == reserved.name && now.children[i.value].props == reserved.props
           && |now.children[i.value].children| == |reserved.children| + 1
           && now.children[i.value].children[..|reserved.children|] == reserved.children
           && NewPage(now.children[i.value].children[|reserved.children|], a, z, base)
  }

  lemma NewPageMeaning(base: u64, a: u32, z: u32)
    requires 1 <= a <= 2 && 1 <= z <= 2
    ensures NewParking(base, a, z).Ok? <==> a == 2 || base < 0x1_0000_0000
    ensures NewParking(base, a, z).Ok? ==> NewPage(NewParking(base, a, z).value, a, z, base)
  {
    hide Bytes.Ascii, Bytes.Be32, Bytes.Be64, ParkingName, NamesPage;
    PageNameMeaning(ParkingName(base), base);
  }

  lemma PlaceFor(root: Node, base: u64, a: u32, z: u32)
    requires ValidBase(base) && RootCells(root, a, z)
    ensures GraftParking(root, base).Ok? <==> TakesPage(root, a, z, base)
    ensures GraftParking(root, base).Ok? ==> PageAdded(GraftParking(root, base).value, root, a, z, base)
  {
    var i := ChildIndex(root.children, RESERVED_MEMORY);
    if i.None? {
      FreshReserved(root, base, a, z);
    } else {
      hide Bytes.Ascii, PageFree, PageTaken, NewPage, NewParking, CheckReservations, ReservedCells, ReservedIs, RootCells, NewReserved;
      var reserved := root.children[i.value];
      CellsOfReserved(root, reserved, a, z);
      OtherCells(root, reserved, a, z);
      ChecksMeaning(reserved.children, a, z, base);
      NewPageMeaning(base, a, z);
      BothPlaces(reserved.children, a, z, base);
    }
  }

  lemma BothPlaces(nodes: seq<Node>, a: u32, z: u32, base: nat)
    ensures !(PageFree(nodes, a, z, base) && PageTaken(nodes, a, z, base))
  {
    hide ConcernsPage, OwnsThePage, RegsGood;
    if k :| 0 <= k < |nodes| && ConcernsPage(nodes[k], a, z, base) {
      assert nodes[k] in nodes;
    }
  }

  lemma OtherCells(root: Node, reserved: Node, a: u32, z: u32)
    requires RootCells(root, a, z)
    ensures ReservedCells(root, reserved).Ok? ==> ReservedCells(root, reserved) == Ok((a, z))
  {
    hide Bytes.Ascii, GetProp, Bytes.De32, Enabled;
  }

  lemma FreshReserved(root: Node, base: u64, a: u32, z: u32)
    requires ValidBase(base) && RootCells(root, a, z) && ChildIndex(root.children, RESERVED_MEMORY).None?
    ensures GraftParking(root, base).Ok? <==> a == 2 || base < 0x1_0000_0000
    ensures GraftParking(root, base).Ok? ==> PageAdded(GraftParking(root, base).value, root, a, z, base)
  {
    hide Bytes.Ascii, NewPage, NewParking, CheckReservations, ReservedCells, NewReserved, GetProp, Bytes.De32, Bytes.Be32;
    NewReservedIs(root, a, z);
    var reserved := NewReserved(root).value;
    var root' := root.(children := root.children + [reserved]);
    ChildAppendedIndex(root.children, reserved);
    FreshCells(root, reserved, a, z);
    assert CheckReservations([], a, z, base, false) == Ok(false) by { ChecksMeaning([], a, z, base); NobodyParks(a, z, base); }
    NewPageMeaning(base, a, z);
  }

  lemma NewReservedIs(root: Node, a: u32, z: u32)
    requires RootCells(root, a, z)
    ensures NewReserved(root) == Ok(Node(Ascii("reserved-memory"),
              [Property(Ascii("#address-cells"), Be32(a)), Property(Ascii("#size-cells"), Be32(z)), Property(Ascii("ranges"), [])], []))
  {
    hide Bytes.Ascii, GetProp, Bytes.De32, Bytes.Be32;
  }

  lemma FreshCells(root: Node, reserved: Node, a: u32, z: u32)
    requires RootCells(root, a, z) && NewReserved(root) == Ok(reserved)
    ensures ReservedCells(root.(children := root.children + [reserved]), reserved) == Ok((a, z))
  {
    hide Bytes.Ascii, NewReserved, GetProp, Bytes.De32, Enabled, Inert;
    NewReservedIs(root, a, z);
    NewReservedLaws(root);
  }

  lemma ChildAppendedIndex(nodes: seq<Node>, last: Node)
    requires forall n <- nodes :: n.name != last.name
    ensures ChildIndex(nodes + [last], last.name) == Some(|nodes|)
  {
    var all := nodes + [last];
    assert all[|nodes|] == last;
    assert forall j :: 0 <= j < |nodes| ==> all[j] in nodes;
  }

  ghost predicate HasPlace(root: Node, base: nat) { exists a: u32, z: u32 :: TakesPage(root, a, z, base) }

  /// `graft_parking_reservation` succeeds exactly on the trees that take the page, and adds what is missing.
  lemma ParkingMeaning(root: Node, base: u64)
    requires ValidBase(base)
    ensures GraftParking(root, base).Ok? <==> HasPlace(root, base)
    ensures GraftParking(root, base).Ok? ==>
      exists a: u32, z: u32 :: RootCells(root, a, z) && PageAdded(GraftParking(root, base).value, root, a, z, base)
  {
    hide TakesPage, PageAdded, RootCells, GraftParking;
    if GraftParking(root, base).Ok? {
      var a, z := CellsOfRoot(root, base);
      PlaceFor(root, base, a, z);
      assert HasPlace(root, base);
    }
    forall a: u32, z: u32 | TakesPage(root, a, z, base) ensures GraftParking(root, base).Ok? {
      TakesCells(root, a, z, base);
      PlaceFor(root, base, a, z);
    }
  }

  lemma TakesCells(root: Node, a: u32, z: u32, base: nat)
    requires TakesPage(root, a, z, base)
    ensures RootCells(root, a, z)
  {
  }

  lemma CellsOfRoot(root: Node, base: u64) returns (a: u32, z: u32)
    requires GraftParking(root, base).Ok?
    ensures RootCells(root, a, z)
  {
    hide Bytes.Ascii, CheckReservations, NewParking, GetProp, Bytes.De32, Enabled;
    var root' := WithReserved(root).value;
    var i := ChildIndex(root'.children, RESERVED_MEMORY);
    var cells := ReservedCells(root', root'.children[i.value]).value;
    a, z := cells.0, cells.1;
  }
}
