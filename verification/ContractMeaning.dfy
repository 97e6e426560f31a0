/// When a devicetree carries the spin-table contract of `src/kexec.rs`, in its own names and bytes.
module ContractMeaning {
  import opened Bytes
  import opened Tree
  import opened Dtb
  import opened Reserved
  import opened ReservedMeaning
  import opened Nodes
  import opened WordMeaning
  import opened SpinTable
  import opened SpinGraft
  import opened SpinMeaning

  // Four CPUs.

  /// The CPU at this position has this affinity.
  predicate CoreAt(nodes: seq<Node>, cells: u32, k: nat, id: nat) {
    k < |nodes| && IsCore(nodes[k]) && AffinityIs(nodes[k], cells, id)
  }

  ghost predicate SomeCore(nodes: seq<Node>, cells: u32, id: nat) { exists k: nat :: CoreAt(nodes, cells, k, id) }

  lemma AffinityReturns(cpu: Node, cells: u32)
    ensures Mpidr(cpu, cells).Ok? <==> exists id: nat :: AffinityIs(cpu, cells, id)
  {
    hide AffinityIs, Mpidr;
    forall id: nat ensures Mpidr(cpu, cells) == Ok(id) <==> AffinityIs(cpu, cells, id) {
      AffinityMeaning(cpu, cells, id);
    }
    if Mpidr(cpu, cells).Ok? {
      assert AffinityIs(cpu, cells, Mpidr(cpu, cells).value);
    }
  }

  lemma LaterCore(nodes: seq<Node>, cells: u32, k: nat, id: nat)
    requires nodes != []
    ensures CoreAt(nodes, cells, k + 1, id) <==> CoreAt(nodes[1..], cells, k, id)
  {
    hide IsCore, AffinityIs;
  }

  lemma {:induction false} IdsMeaning(nodes: seq<Node>, cells: u32)
    ensures Ids(nodes, cells).Ok? <==> forall node <- nodes :: IsCore(node) ==> exists id: nat :: AffinityIs(node, cells, id)
    ensures Ids(nodes, cells).Ok? ==> forall id: nat :: id in Ids(nodes, cells).value <==> SomeCore(nodes, cells, id)
    decreases |nodes|
  {
    hide IsCore, AffinityIs, IsCpu, Mpidr, SomeCore;
    if nodes == [] {
      forall id: nat ensures !SomeCore(nodes, cells, id) {
        NoCore(cells, id);
      }
    } else {
      var rest := nodes[1..];
      IdsMeaning(rest, cells);
      CoreMeaning(nodes[0]);
      AffinityReturns(nodes[0], cells);
      assert forall node :: node in nodes <==> node == nodes[0] || node in rest;
      forall id: nat
        ensures SomeCore(nodes, cells, id) <==> (IsCore(nodes[0]) && AffinityIs(nodes[0], cells, id)) || SomeCore(rest, cells, id)
      {
        SomeCoreStep(nodes, cells, id);
      }
      if IsCore(nodes[0]) && Mpidr(nodes[0], cells).Ok? {
        var first := Mpidr(nodes[0], cells).value;
        AffinityMeaning(nodes[0], cells, first);
        forall id: nat ensures AffinityIs(nodes[0], cells, id) <==> id == first {
          AffinityMeaning(nodes[0], cells, id);
        }
      }
    }
  }

  lemma NoCore(cells: u32, id: nat)
    ensures !SomeCore([], cells, id)
  {
  }

  lemma SomeCoreStep(nodes: seq<Node>, cells: u32, id: nat)
    requires nodes != []
    ensures SomeCore(nodes, cells, id) <==> (IsCore(nodes[0]) && AffinityIs(nodes[0], cells, id)) || SomeCore(nodes[1..], cells, id)
  {
    hide IsCore, AffinityIs;
    if SomeCore(nodes, cells, id) {
      var k: nat :| CoreAt(nodes, cells, k, id);
      if k > 0 {
        LaterCore(nodes, cells, k - 1, id);
      }
    }
    if SomeCore(nodes[1..], cells, id) {
      var k: nat :| CoreAt(nodes[1..], cells, k, id);
      LaterCore(nodes, cells, k, id);
    }
    assert IsCore(nodes[0]) && AffinityIs(nodes[0], cells, id) ==> CoreAt(nodes, cells, 0, id);
  }

  ghost predicate Apart(nodes: seq<Node>, cells: u32) {
    forall j: nat, k: nat, id: nat :: CoreAt(nodes, cells, j, id) && CoreAt(nodes, cells, k, id) ==> j == k
  }

  lemma ApartStep(nodes: seq<Node>, cells: u32)
    requires nodes != []
    ensures Apart(nodes, cells) <==>
      Apart(nodes[1..], cells) && forall id: nat :: CoreAt(nodes, cells, 0, id) ==> !SomeCore(nodes[1..], cells, id)
  {
    hide CoreAt;
    var rest := nodes[1..];
    forall k: nat, id: nat ensures k > 0 ==> (CoreAt(nodes, cells, k, id) <==> CoreAt(rest, cells, k - 1, id)) {
      if k > 0 {
        LaterCore(nodes, cells, k - 1, id);
      }
    }
    if Apart(nodes, cells) {
      forall j: nat, k: nat, id: nat | CoreAt(rest, cells, j, id) && CoreAt(rest, cells, k, id) ensures j == k {
        LaterCore(nodes, cells, j, id);
        LaterCore(nodes, cells, k, id);
      }
      forall id: nat | CoreAt(nodes, cells, 0, id) ensures !SomeCore(rest, cells, id) {
        if SomeCore(rest, cells, id) {
          var k: nat :| CoreAt(rest, cells, k, id);
          LaterCore(nodes, cells, k, id);
        }
      }
    }
  }

  lemma {:induction false} DistinctMeaning(nodes: seq<Node>, cells: u32)
    requires Ids(nodes, cells).Ok?
    ensures DistinctIds(Ids(nodes, cells).value) <==> Apart(nodes, cells)
    decreases |nodes|
  {
    hide IsCore, AffinityIs, IsCpu, Mpidr, SomeCore, Apart, DistinctIds;
    if nodes == [] {
      NobodyClose(cells);
    } else {
      var rest := nodes[1..];
      CoreMeaning(nodes[0]);
      ApartStep(nodes, cells);
      if IsCpu(nodes[0]) {
        var first := Mpidr(nodes[0], cells).value;
        DistinctMeaning(rest, cells);
        IdsMeaning(rest, cells);
        DistinctCons(first, Ids(rest, cells).value);
        forall id: nat ensures CoreAt(nodes, cells, 0, id) <==> id == first {
          AffinityMeaning(nodes[0], cells, id);
        }
      } else {
        DistinctMeaning(rest, cells);
      }
    }
  }

  lemma NobodyClose(cells: u32)
    ensures Apart([], cells) && DistinctIds([])
  {
  }

  lemma DistinctCons(id: nat, rest: seq<nat>)
    ensures DistinctIds([id] + rest) <==> DistinctIds(rest) && id !in rest
  {
    var all := [id] + rest;
    if DistinctIds(all) {
      forall i, j | 0 <= i < j < |rest| ensures rest[i] != rest[j] {
        assert all[i + 1] != all[j + 1];
      }
    }
    if id in rest {
      var j :| 0 <= j < |rest| && rest[j] == id;
      assert all[0] == all[j + 1];
    }
  }

  /// The tree has CPUs 0 to 3 and no other, each once.
  ghost predicate FourCores(root: Node) {
    exists cells: u32 :: CoreCells(root, cells) && 1 <= cells <= 2 && CoresAre(Child(root, Ascii("cpus")).value.children, cells)
  }

  ghost predicate CoresAre(nodes: seq<Node>, cells: u32) {
    && (forall node <- nodes :: IsCore(node) ==> exists id: nat :: AffinityIs(node, cells, id))
    && Apart(nodes, cells)
    && forall id: nat :: SomeCore(nodes, cells, id) <==> id < 4
  }

  lemma FourMeaning(root: Node)
    ensures HasFourCpus(root) <==> FourCores(root)
  {
    hide Bytes.Ascii, GetProp, Child, Bytes.De32, Ids, CoresAre, DistinctIds, IdSet;
    var cpus := Child(root, CPUS);
    if cpus.Some? {
      if CpuCells(cpus.value).Ok? {
        var cells := CpuCells(cpus.value).value;
        CellsMeaning(root, cpus.value);
        CoresMeaning(cpus.value.children, cells);
      }
    }
  }

  lemma CoresMeaning(nodes: seq<Node>, cells: u32)
    ensures CoresAre(nodes, cells) <==>
      Ids(nodes, cells).Ok? && DistinctIds(Ids(nodes, cells).value) && IdSet(Ids(nodes, cells).value) == {0, 1, 2, 3}
  {
    hide IsCore, AffinityIs, Ids, SomeCore, Apart, DistinctIds;
    IdsMeaning(nodes, cells);
    if Ids(nodes, cells).Ok? {
      DistinctMeaning(nodes, cells);
      var ids := Ids(nodes, cells).value;
      SetOfFour(ids);
    }
  }

  lemma SetOfFour(ids: seq<nat>)
    ensures IdSet(ids) == {0, 1, 2, 3} <==> forall id: nat :: id in ids <==> id < 4
  {
    assert forall id: nat :: id in IdSet(ids) <==> id in ids;
    if forall id: nat :: id in ids <==> id < 4 {
      assert forall id: nat :: id in IdSet(ids) <==> id in {0, 1, 2, 3};
    }
  }

  // The page.

  /// /reserved-memory as the contract wants it, with these cells.
  predicate ReservedIs(root: Node, reserved: Node, a: u32, z: u32) {
    && Child(root, Ascii("reserved-memory")) == Some(reserved)
    && IsEnabled(reserved) && Get(reserved, Ascii("ranges")) == Some([])
    && 1 <= a <= 2 && CountOf(reserved, Ascii("#address-cells"), 0) == CountOf(root, Ascii("#address-cells"), 2) == Some(a)
    && 1 <= z <= 2 && CountOf(reserved, Ascii("#size-cells"), 0) == CountOf(root, Ascii("#size-cells"), 1) == Some(z)
  }

  /// A reservation of one tuple, which is this page.
  ghost predicate OwnsPage(node: Node, a: u32, z: u32, base: nat) {
    var compatible, reg := Get(node, Ascii("compatible")), Get(node, Ascii("reg"));
    && IsEnabled(node) && compatible.Some? && HasWord(compatible.value, Ascii("pocketboot,spin-table-v1"))
    && Get(node, Ascii("no-map")) == Some([]) && Get(node, Ascii("reusable")).None?
    && 1 <= a <= 2 && 1 <= z <= 2 && reg.Some? && |reg.value| == 4 * a + 4 * z
    && Cells(reg.value, 0, a) == base && Cells(reg.value, 4 * a, z) == 0x1000
    && base > 0 && base % 0x1000 == 0 && base + 0x1000 < 0x1_0000_0000_0000_0000
  }

  /// The one node that claims the contract owns the page.
  ghost predicate PageOwned(root: Node, base: nat) {
    exists reserved: Node, a: u32, z: u32 :: ReservedIs(root, reserved, a, z) && OneOwner(reserved.children, a, z, base)
  }

  ghost predicate OneOwner(nodes: seq<Node>, a: u32, z: u32, base: nat) {
    exists k :: 0 <= k < |nodes| && Claims(nodes[k]) && OwnsPage(nodes[k], a, z, base)
      && forall j :: 0 <= j < |nodes| && j != k ==> !Claims(nodes[j])
  }

  lemma CellsOfReserved(root: Node, reserved: Node, a: u32, z: u32)
    requires Child(root, RESERVED_MEMORY) == Some(reserved)
    ensures ReservedCells(root, reserved) == Ok((a, z)) <==> ReservedIs(root, reserved, a, z)
  {
    EnabledMeaning(reserved);
    hide Bytes.Ascii, GetProp, Child, Bytes.De32, Enabled, IsEnabled;
  }

  lemma {:induction false} NoClaims(nodes: seq<Node>)
    ensures Contracts(nodes) == [] <==> forall n <- nodes :: !Claims(n)
  {
    hide Claims, IsContract;
    if nodes != [] {
      ClaimsMeaning(nodes[0]);
      NoClaims(nodes[1..]);
      assert forall n :: n in nodes <==> n == nodes[0] || n in nodes[1..];
    }
  }

  ghost predicate OneClaims(nodes: seq<Node>, k: nat) {
    k < |nodes| && Claims(nodes[k]) && forall j :: 0 <= j < |nodes| && j != k ==> !Claims(nodes[j])
  }

  lemma {:induction false} OneClaim(nodes: seq<Node>, k: nat)
    requires OneClaims(nodes, k)
    ensures Contracts(nodes) == [nodes[k]]
    decreases |nodes|
  {
    hide Claims, IsContract;
    ClaimsMeaning(nodes[0]);
    var rest := nodes[1..];
    NoClaims(rest);
    ContractsStep(nodes);
    if k == 0 {
      forall n <- rest ensures !Claims(n) {
        var j :| 0 <= j < |rest| && rest[j] == n;
        assert nodes[j + 1] == n;
      }
    } else {
      assert forall j :: 0 <= j < |rest| ==> rest[j] == nodes[j + 1];
      OneClaim(rest, k - 1);
    }
  }

  lemma ContractsStep(nodes: seq<Node>)
    requires nodes != []
    ensures Contracts(nodes) == if IsContract(nodes[0]) then [nodes[0]] + Contracts(nodes[1..]) else Contracts(nodes[1..])
  {
    hide IsContract;
    EmptyConcat(Contracts(nodes[1..]));
  }

  lemma {:induction false} ClaimFound(nodes: seq<Node>) returns (k: nat)
    requires |Contracts(nodes)| == 1
    ensures k < |nodes| && OneClaims(nodes, k)
    decreases |nodes|
  {
    hide Claims, IsContract;
    assert nodes != [];
    ClaimsMeaning(nodes[0]);
    ContractsStep(nodes);
    var rest := nodes[1..];
    assert forall j :: 0 <= j < |rest| ==> rest[j] == nodes[j + 1];
    if IsContract(nodes[0]) {
      NoClaims(rest);
      assert forall j :: 0 < j < |nodes| ==> nodes[j] == rest[j - 1] && nodes[j] in rest;
      k := 0;
    } else {
      var j := ClaimFound(rest);
      k := j + 1;
      forall i | 0 <= i < |nodes| && i != k ensures !Claims(nodes[i]) {
        if i > 0 {
          assert nodes[i] == rest[i - 1];
        }
      }
    }
  }

  /// A value of one tuple.
  lemma OneTupleMeaning(reg: bytes, a: u32, z: u32, base: nat)
    requires 1 <= a <= 2 && 1 <= z <= 2 && |reg| == 4 * a + 4 * z
    ensures DecodeReg(reg, a, z) == Ok([Range(base, base + 0x1000)]) <==>
      Cells(reg, 0, a) == base && Cells(reg, 4 * a, z) == 0x1000 && base + 0x1000 < 0x1_0000_0000_0000_0000
    ensures DecodeReg(reg, a, z).Ok? && |DecodeReg(reg, a, z).value| == 1 ==>
      DecodeReg(reg, a, z) == Ok([Range(Cells(reg, 0, a), Cells(reg, 0, a) + Cells(reg, 4 * a, z))])
  {
    FirstTuple(reg, a, z, 0);
    WholeOne(a * 4 + z * 4);
    hide Cells, DecodeCells;
    assert reg[a * 4 + z * 4..] == [];
    assert DecodeTuples([], a * 4, a * 4 + z * 4) == Ok([]);
    var none: seq<Range> := [];
    assert [Range(Cells(reg, 0, a), Cells(reg, 0, a) + Cells(reg, 4 * a, z))] + none
      == [Range(Cells(reg, 0, a), Cells(reg, 0, a) + Cells(reg, 4 * a, z))];
  }

  lemma WholeOne(n: nat)
    requires n > 0
    ensures n % n == 0
  {
  }

  lemma OwnerMeaning(root: Node, reserved: Node, owner: Node, a: u32, z: u32, base: nat)
    requires ReservedIs(root, reserved, a, z) && ReservedCells(root, reserved) == Ok((a, z)) && Contracts(reserved.children) == [owner]
    requires base < U64_LIMIT
    ensures OwnedBase(root) == Ok(base) <==> OwnsPage(owner, a, z, base)
  {
    ContractTexts();
    EnabledMeaning(owner);
    var compatible, reg := Get(owner, Ascii("compatible")), Get(owner, Ascii("reg"));
    if compatible.Some? {
      ItemMeaning(compatible.value, Ascii("pocketboot,spin-table-v1"));
    }
    if reg.Some? && |reg.value| == 4 * a + 4 * z {
      OneTupleMeaning(reg.value, a, z, base);
    }
    hide Bytes.Ascii, GetProp, Items, HasWord, DecodeReg, Cells, Enabled, IsEnabled, ReservedCells, Contracts, ReservedIs;
    assert Child(root, RESERVED_MEMORY) == Some(reserved) by { ChildOf(root, reserved, a, z); }
  }

  lemma ChildOf(root: Node, reserved: Node, a: u32, z: u32)
    requires ReservedIs(root, reserved, a, z)
    ensures Child(root, RESERVED_MEMORY) == Some(reserved)
  {
    hide Bytes.Ascii, GetProp;
  }

  lemma BaseMeaning(root: Node, base: nat)
    ensures base < U64_LIMIT && OwnedBase(root) == Ok(base) <==> PageOwned(root, base)
  {
    hide ReservedCells, Contracts, ReservedIs, OwnsPage, OneClaims, Claims, Child, Bytes.Ascii, OwnedBase;
    if base < U64_LIMIT && OwnedBase(root) == Ok(base) {
      OwnedParts(root);
      var reserved := Child(root, RESERVED_MEMORY).value;
      var (a, z) := ReservedCells(root, reserved).value;
      CellsOfReserved(root, reserved, a, z);
      var k := ClaimFound(reserved.children);
      OneClaim(reserved.children, k);
      OwnerMeaning(root, reserved, reserved.children[k], a, z, base);
      OneOwnerOf(reserved.children, a, z, base, k);
      assert PageOwned(root, base);
    }
    if PageOwned(root, base) {
      var reserved: Node, a: u32, z: u32 :| ReservedIs(root, reserved, a, z) && OneOwner(reserved.children, a, z, base);
      ChildOf(root, reserved, a, z);
      CellsOfReserved(root, reserved, a, z);
      var k := OwnerOf(reserved.children, a, z, base);
      OneClaim(reserved.children, k);
      BaseInside(reserved.children[k], a, z, base);
      OwnerMeaning(root, reserved, reserved.children[k], a, z, base);
    }
  }

  lemma OwnedParts(root: Node)
    requires OwnedBase(root).Ok?
    ensures Child(root, RESERVED_MEMORY).Some?
    ensures
      var reserved := Child(root, RESERVED_MEMORY).value;
      |Contracts(reserved.children)| == 1 && ReservedCells(root, reserved).Ok?
  {
    hide ReservedCells, Contracts, WellOwned, DecodeReg, GetProp, Bytes.Ascii;
  }

  lemma OneOwnerOf(nodes: seq<Node>, a: u32, z: u32, base: nat, k: nat)
    requires OneClaims(nodes, k) && OwnsPage(nodes[k], a, z, base)
    ensures OneOwner(nodes, a, z, base)
  {
    hide Claims, OwnsPage;
  }

  lemma OwnerOf(nodes: seq<Node>, a: u32, z: u32, base: nat) returns (k: nat)
    requires OneOwner(nodes, a, z, base)
    ensures k < |nodes| && OneClaims(nodes, k) && OwnsPage(nodes[k], a, z, base)
  {
    hide Claims, OwnsPage;
    k :| 0 <= k < |nodes| && Claims(nodes[k]) && OwnsPage(nodes[k], a, z, base)
      && forall j :: 0 <= j < |nodes| && j != k ==> !Claims(nodes[j]);
  }

  lemma BaseInside(node: Node, a: u32, z: u32, base: nat)
    requires OwnsPage(node, a, z, base)
    ensures base < U64_LIMIT
  {
    hide Bytes.Ascii, GetProp, Cells, HasWord, IsEnabled;
  }

  // The contract.

  /// A CPU that waits in its slot of this page.
  ghost predicate Waits(core: Node, cells: u32, base: nat) {
    && Get(core, Ascii("enable-method")) == Some(Ascii("spin-table") + [0])
    && exists id: nat :: AffinityIs(core, cells, id)
         && Get(core, Ascii("cpu-release-addr")) == Some(Be64((base + 0x400 + id * 0x80) % U64_LIMIT))
  }

  /// The tree carries the contract for the page at `base`.
  ghost predicate Carries(root: Node, base: nat) {
    PageOwned(root, base) && FourCores(root) && AllWait(root, base)
  }

  ghost predicate AllWait(root: Node, base: nat) {
    exists cells: u32 :: CoreCells(root, cells)
      && forall core <- Child(root, Ascii("cpus")).value.children :: IsCore(core) ==> Waits(core, cells, base)
  }

  /// Some CPU says that it waits in a spin table.
  predicate SaysSpinTable(root: Node) {
    var cpus := Child(root, Ascii("cpus"));
    cpus.Some? && exists core <- cpus.value.children ::
      IsCore(core) && Get(core, Ascii("enable-method")) == Some(Ascii("spin-table") + [0])
  }

  lemma WaitsMeaning(core: Node, cells: u32, base: nat)
    ensures HasSlot(core, cells, base) <==> Waits(core, cells, base)
  {
    hide Bytes.Ascii, GetProp, Mpidr, AffinityIs, Bytes.Be64;
    forall id: nat ensures Mpidr(core, cells) == Ok(id) <==> AffinityIs(core, cells, id) {
      AffinityMeaning(core, cells, id);
    }
  }

  lemma SaysMeaning(root: Node)
    ensures HasSpinTableCpu(root) <==> SaysSpinTable(root)
  {
    hide Bytes.Ascii, GetProp, Child, IsCore, IsCpu;
    forall core: Node ensures IsCpu(core) <==> IsCore(core) {
      CoreMeaning(core);
    }
  }

  lemma SlotsMeaning(root: Node, base: nat)
    requires FourCores(root)
    ensures CpusOwnSlots(root, base) <==> AllWait(root, base)
  {
    hide Bytes.Ascii, GetProp, IsCore, IsCpu, HasSlot, Waits, CpuIds, Child, Bytes.De32;
    FourMeaning(root);
    forall core: Node ensures IsCpu(core) <==> IsCore(core) {
      CoreMeaning(core);
    }
    FourCells(root);
    var cpus := Child(root, CPUS).value;
    var cells := CpuCells(cpus).value;
    forall core: Node ensures HasSlot(core, cells, base) <==> Waits(core, cells, base) {
      WaitsMeaning(core, cells, base);
    }
  }

  lemma FourCells(root: Node)
    requires HasFourCpus(root)
    ensures Child(root, CPUS).Some? && CpuCells(Child(root, CPUS).value).Ok?
    ensures forall cells: u32 :: CoreCells(root, cells) <==> cells == CpuCells(Child(root, CPUS).value).value
  {
    hide Bytes.Ascii, GetProp, Child, Bytes.De32, Ids, DistinctIds, IdSet;
  }

  /// The contract is recognised exactly when the tree carries it, and missed exactly when no CPU speaks of one.
  lemma SpinTableMeaning(root: Node, base: nat)
    ensures SpinTableContract(root) == Ok(None) <==> !SaysSpinTable(root)
    ensures base < U64_LIMIT && SpinTableContract(root) == Ok(Some(base)) <==> Carries(root, base) && SaysSpinTable(root)
  {
    hide OwnedBase, CpusOwnSlots, HasSpinTableCpu, SaysSpinTable, PageOwned, FourCores, CoreCells, Child, Bytes.Ascii, Waits, IsCore;
    SaysMeaning(root);
    BaseMeaning(root, base);
    if FourCores(root) {
      SlotsMeaning(root, base);
    } else {
      FourMeaning(root);
      NoSlots(root, base);
    }
  }

  lemma NoSlots(root: Node, base: nat)
    requires !HasFourCpus(root)
    ensures !CpusOwnSlots(root, base)
  {
    hide CpuIds, Child, IdSet, Bytes.Ascii;
  }
}
