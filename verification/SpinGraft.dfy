/// What the spin-table graft of `src/kexec.rs` guarantees: its output carries the contract it
/// was given, and grafting the output again changes nothing.
module SpinGraft {
  import opened Bytes
  import opened Handoff
  import opened Tree
  import opened Dtb
  import opened Contract
  import opened Reserved
  import opened Nodes
  import opened Psci
  import opened SpinTable

  /// Neither disabled nor removed by `disable_psci`.
  predicate Survives(node: Node) { !IsPsci(node) && !IsIdle(node) }

  /// The comparison of the MPIDRs with those of the live tree, which are 0 to 3.
  predicate HasFourCpus(target: Node) { CpuIds(target).Ok? && IdSet(CpuIds(target).value) == {0, 1, 2, 3} }

  /// The destination part of `graft_spin_table`, that comparison included.
  function GraftChecked(target: Node, base: u64): Result<Node> {
    if HasFourCpus(target) then GraftTarget(target, base) else InvalidData
  }

  // CPUs after editing and disabling.

  /// The MPIDRs of the CPUs that `disable_psci` leaves enabled.
  function SurvivingIds(nodes: seq<Node>, addressCells: u32): Result<seq<nat>> {
    if nodes == [] then Ok([])
    else if !IsCpu(nodes[0]) then SurvivingIds(nodes[1..], addressCells)
    else
      var id :- Mpidr(nodes[0], addressCells);
      var rest :- SurvivingIds(nodes[1..], addressCells);
      Ok(if Survives(nodes[0]) then [id] + rest else rest)
  }

  ghost predicate AllSlots(nodes: seq<Node>, addressCells: u32, base: nat) {
    forall cpu <- nodes :: IsCpu(cpu) ==> HasSlot(cpu, addressCells, base)
  }

  lemma StatusDisables()
    ensures !StatusEnabled(DISABLED)
  {
    assert DISABLED[|DISABLED| - 1] == 0 && |DISABLED| == 9;
  }

  /// A disabled node: no CPU if it was PSCI, otherwise with the properties it had.
  lemma DisabledCpu(node: Node, node': Node)
    requires node'.props == DisabledProps(node)
    ensures IsPsci(node) ==> !IsCpu(node')
    ensures !IsPsci(node) ==> node'.props == node.props
  {
    if IsPsci(node) {
      StatusDisables();
      DisabledGet(node, PROP_STATUS);
    }
  }

  lemma SamePropsCpu(x: Node, y: Node, addressCells: u32, base: nat)
    requires x.props == y.props
    ensures IsCpu(x) == IsCpu(y) && Mpidr(x, addressCells) == Mpidr(y, addressCells)
    ensures HasSlot(x, addressCells, base) == HasSlot(y, addressCells, base)
  {
    hide GetProp, StatusEnabled, ReleaseAddr, ValidMpidr, DecodeCells, Bytes.Ascii;
  }

  /// The head of an edited list of nodes.
  function EditNode(node: Node, addressCells: u32, base: nat, providers: seq<Provider>): Result<Node> {
    if !IsCpu(node) then Ok(node)
    else
      match Mpidr(node, addressCells)
      case InvalidData => InvalidData
      case Ok(id) => EditCpu(node, id, base, providers)
  }

  lemma EditCpusCons(nodes: seq<Node>, addressCells: u32, base: nat, providers: seq<Provider>)
    requires nodes != [] && EditCpus(nodes, addressCells, base, providers).Ok?
    ensures
      var edited := EditCpus(nodes, addressCells, base, providers).value;
      && edited != [] && EditNode(nodes[0], addressCells, base, providers) == Ok(edited[0])
      && EditCpus(nodes[1..], addressCells, base, providers) == Ok(edited[1..])
  {
    hide EditCpu, Mpidr, IsCpu;
    var edited := EditCpus(nodes, addressCells, base, providers).value;
    assert edited[1..] == EditCpus(nodes[1..], addressCells, base, providers).value;
  }

  lemma EditNodeKind(node: Node, addressCells: u32, base: nat, providers: seq<Provider>, psci: bool)
    requires EditNode(node, addressCells, base, providers).Ok?
    ensures
      var node' := EditNode(node, addressCells, base, providers).value;
      && node'.name == node.name && node'.children == node.children
      && IsPsci(node') == IsPsci(node) && IsIdle(node') == IsIdle(node) && IsCpu(node') == IsCpu(node)
      && OwnProvider(node', psci) == OwnProvider(node, psci)
      && Mpidr(node', addressCells) == Mpidr(node, addressCells)
      && (IsCpu(node) ==> Mpidr(node, addressCells).Ok? && HasSlot(node', addressCells, base))
  {
    if IsCpu(node) {
      var id := Mpidr(node, addressCells).value;
      hide GetProp, EditCpu, IsCpu, IsPsci, IsIdle, OwnProvider, ReleaseAddr, ValidMpidr, DecodeCells, Bytes.Ascii;
      EditCpuKind(node, id, base, providers, psci);
    }
  }

  /// The CPUs that are left are those that survive, each with its slot.
  lemma {:induction false} EditedIds(nodes: seq<Node>, addressCells: u32, base: nat, providers: seq<Provider>)
    requires EditCpus(nodes, addressCells, base, providers).Ok?
    ensures
      var out := DisableForest(EditCpus(nodes, addressCells, base, providers).value);
      && SurvivingIds(nodes, addressCells).Ok?
      && Ids(out, addressCells) == SurvivingIds(nodes, addressCells)
      && AllSlots(out, addressCells, base)
    decreases |nodes|
  {
    hide EditCpus, EditNode, Mpidr, IsCpu, HasSlot, IsPsci, IsIdle;
    if nodes == [] {
      EditCpusNil(addressCells, base, providers);
    } else {
      EditCpusCons(nodes, addressCells, base, providers);
      EditedIds(nodes[1..], addressCells, base, providers);
      var edited := EditCpus(nodes, addressCells, base, providers).value;
      EditNodeKind(nodes[0], addressCells, base, providers, false);
      var out := DisableForest(edited[1..]);
      if !IsIdle(edited[0]) {
        var head := Disable(edited[0]);
        assert DisableForest(edited) == [head] + out;
        assert ([head] + out)[1..] == out;
        DisabledCpu(edited[0], head);
        SamePropsIfSurvives(edited[0], head, addressCells, base);
        assert forall c <- [head] + out :: c == head || c in out;
      }
    }
  }

  lemma SamePropsIfSurvives(node: Node, node': Node, addressCells: u32, base: nat)
    requires node'.props == DisabledProps(node)
    ensures !IsPsci(node) ==>
      && IsCpu(node') == IsCpu(node) && Mpidr(node', addressCells) == Mpidr(node, addressCells)
      && HasSlot(node', addressCells, base) == HasSlot(node, addressCells, base)
  {
    if !IsPsci(node) {
      SamePropsCpu(node, node', addressCells, base);
    }
  }

  lemma EditCpusNil(addressCells: u32, base: nat, providers: seq<Provider>)
    ensures EditCpus([], addressCells, base, providers) == Ok([])
  {
  }

  ghost predicate CpusSurvive(nodes: seq<Node>) {
    forall cpu <- nodes :: IsCpu(cpu) ==> Survives(cpu)
  }

  lemma {:induction false} SurvivingWithin(nodes: seq<Node>, addressCells: u32)
    requires SurvivingIds(nodes, addressCells).Ok?
    ensures Ids(nodes, addressCells).Ok?
    ensures forall id <- SurvivingIds(nodes, addressCells).value :: id in Ids(nodes, addressCells).value
    ensures DistinctIds(Ids(nodes, addressCells).value) ==> DistinctIds(SurvivingIds(nodes, addressCells).value)
  {
    hide IsCpu, Mpidr, Survives;
    if nodes != [] {
      SurvivingWithin(nodes[1..], addressCells);
      if IsCpu(nodes[0]) {
        var id, rest := Mpidr(nodes[0], addressCells).value, Ids(nodes[1..], addressCells).value;
        assert ([id] + rest)[1..] == rest;
        if DistinctIds([id] + rest) {
          DistinctTail(id, rest);
        }
      }
    }
  }

  /// All identifiers survive exactly when all CPUs do.
  lemma {:induction false} AllSurvive(nodes: seq<Node>, addressCells: u32)
    requires SurvivingIds(nodes, addressCells).Ok?
    requires Ids(nodes, addressCells).Ok? && DistinctIds(Ids(nodes, addressCells).value)
    ensures
      var ids, surviving := Ids(nodes, addressCells).value, SurvivingIds(nodes, addressCells).value;
      && (CpusSurvive(nodes) ==> surviving == ids)
      && (IdSet(surviving) == IdSet(ids) ==> CpusSurvive(nodes))
    decreases |nodes|
  {
    hide IsCpu, Mpidr, Survives;
    if nodes != [] {
      var rest, left := Ids(nodes[1..], addressCells).value, SurvivingIds(nodes[1..], addressCells).value;
      SurvivingWithin(nodes[1..], addressCells);
      assert forall cpu <- nodes :: cpu == nodes[0] || cpu in nodes[1..];
      if IsCpu(nodes[0]) {
        var id := Mpidr(nodes[0], addressCells).value;
        DistinctTail(id, rest);
        AllSurvive(nodes[1..], addressCells);
        var ids, surviving := [id] + rest, SurvivingIds(nodes, addressCells).value;
        if IdSet(surviving) == IdSet(ids) {
          assert id in IdSet(ids);
          assert Survives(nodes[0]);
          forall x ensures x in left <==> x in rest {
            assert x in IdSet(surviving) <==> x in IdSet(ids);
          }
          assert IdSet(left) == IdSet(rest);
        }
      } else {
        AllSurvive(nodes[1..], addressCells);
      }
    }
  }

  lemma DistinctTail(id: nat, rest: seq<nat>)
    requires DistinctIds([id] + rest)
    ensures DistinctIds(rest) && id !in rest
  {
    var ids := [id] + rest;
    assert forall i :: 0 <= i < |rest| ==> ids[i + 1] == rest[i];
    assert forall k :: 0 <= k < |rest| ==> rest[k] == ids[k + 1] && rest[k] != ids[0];
  }

  // Children of the root through the three steps.

  lemma {:induction false} FindDisabled(nodes: seq<Node>, name: bytes)
    requires UniqueChildren(nodes)
    ensures FindChild(DisableForest(nodes), name) ==
      match FindChild(nodes, name)
      case None => None
      case Some(child) => if IsIdle(child) then None else Some(Disable(child))
    decreases |nodes|
  {
    hide IsIdle, IsPsci;
    if nodes != [] {
      assert UniqueChildren(nodes[1..]) by { assert forall i :: 0 <= i < |nodes| - 1 ==> nodes[1..][i] == nodes[i + 1]; }
      FindDisabled(nodes[1..], name);
      var out := DisableForest(nodes[1..]);
      assert ([Disable(nodes[0])] + out)[1..] == out;
      if nodes[0].name == name {
        assert forall n <- nodes[1..] :: n.name != name;
        FindNone(nodes[1..], name);
      }
    }
  }

  lemma ChildDisabled(root: Node, name: bytes)
    requires UniqueChildren(root.children)
    ensures Child(Disable(root), name) ==
      match Child(root, name)
      case None => None
      case Some(child) => if IsIdle(child) then None else Some(Disable(child))
  {
    hide IsIdle, IsPsci;
    ChildIsFound(root, name);
    ChildIsFound(Disable(root), name);
    FindDisabled(root.children, name);
  }

  /// Replacing a child by one of the same name.
  lemma ChildUpdated(root: Node, i: nat, child: Node, name: bytes)
    requires ChildIndex(root.children, child.name) == Some(i)
    ensures Child(root.(children := root.children[i := child]), name) ==
      if name == child.name then Some(child) else Child(root, name)
  {
    var root' := root.(children := root.children[i := child]);
    var k, k' := ChildIndex(root.children, name), ChildIndex(root'.children, name);
    assert forall j :: 0 <= j < |root.children| ==> root'.children[j].name == root.children[j].name;
  }

  /// Appending a child of a new name.
  lemma ChildAppended(root: Node, child: Node, name: bytes)
    requires ChildIndex(root.children, child.name).None?
    ensures Child(root.(children := root.children + [child]), name) ==
      if name == child.name then Some(child) else Child(root, name)
  {
    var root' := root.(children := root.children + [child]);
    var k, k' := ChildIndex(root.children, name), ChildIndex(root'.children, name);
    assert root'.children[|root.children|] == child;
    assert forall j :: 0 <= j < |root.children| ==> root'.children[j] == root.children[j];
  }

  lemma EditTargetShape(target: Node, base: nat, providers: seq<Provider>)
    requires EditTarget(target, base, providers).Ok?
    ensures
      var t := EditTarget(target, base, providers).value;
      var cpus := Child(target, CPUS);
      && cpus.Some? && CpuCells(cpus.value).Ok?
      && EditCpus(cpus.value.children, CpuCells(cpus.value).value, base, providers).Ok?
      && t.name == target.name && t.props == target.props
      && Child(t, CPUS) ==
         Some(cpus.value.(children := EditCpus(cpus.value.children, CpuCells(cpus.value).value, base, providers).value))
      && Child(t, RESERVED_MEMORY) == Child(target, RESERVED_MEMORY)
      && |t.children| == |target.children|
      && forall j :: 0 <= j < |t.children| ==> t.children[j].name == target.children[j].name
  {
    hide CpuCells, EditCpus;
    var i := ChildIndex(target.children, CPUS).value;
    var cpus := target.children[i];
    var cpus' := cpus.(children := EditCpus(cpus.children, CpuCells(cpus).value, base, providers).value);
    ChildUpdated(target, i, cpus', CPUS);
    ChildUpdated(target, i, cpus', RESERVED_MEMORY);
    assert |CPUS| != |RESERVED_MEMORY|;
  }

  lemma GraftParkingShape(root: Node, base: u64)
    requires GraftParking(root, base).Ok?
    ensures
      var t := GraftParking(root, base).value;
      && t.name == root.name && t.props == root.props
      && Child(t, CPUS) == Child(root, CPUS) && Child(t, RESERVED_MEMORY).Some?
  {
    hide ReservedCells, CheckReservations, NewParking, NewReserved;
    assert |CPUS| != |RESERVED_MEMORY|;
    var root' := WithReserved(root).value;
    if Child(root, RESERVED_MEMORY).None? {
      var reserved := NewReserved(root).value;
      assert reserved.name == RESERVED_MEMORY by { NewReservedName(root); }
      ChildAppended(root, reserved, CPUS);
      ChildAppended(root, reserved, RESERVED_MEMORY);
    }
    var i := ChildIndex(root'.children, RESERVED_MEMORY).value;
    var reserved := root'.children[i];
    var (a, z) := ReservedCells(root', reserved).value;
    if !CheckReservations(reserved.children, a, z, base, false).value {
      var child := reserved.(children := reserved.children + [NewParking(base, a, z).value]);
      ChildUpdated(root', i, child, CPUS);
      ChildUpdated(root', i, child, RESERVED_MEMORY);
    }
  }

  lemma NewReservedName(root: Node)
    requires NewReserved(root).Ok?
    ensures NewReserved(root).value.name == RESERVED_MEMORY
  {
  }

  // The parking page among the reservations.

  lemma CompatIsContract(node: Node)
    requires Compatible(node, SPIN_TABLE_COMPAT)
    ensures IsContract(node)
  {
    assert SPIN_TABLE_PREFIX <= SPIN_TABLE_COMPAT;
  }

  /// After a successful check at most one node claims the contract, and it is the parking page.
  lemma {:induction false} CheckedContracts(nodes: seq<Node>, addressCells: u32, sizeCells: u32, base: nat, already: bool)
    requires CheckReservations(nodes, addressCells, sizeCells, base, already).Ok?
    ensures
      var found := CheckReservations(nodes, addressCells, sizeCells, base, already).value;
      && (already ==> found)
      && |Contracts(nodes)| == (if found && !already then 1 else 0)
      && (found && !already ==>
            var owned := Contracts(nodes)[0];
            && owned in nodes && RegRanges(owned, addressCells, sizeCells).Ok?
            && IsParking(owned, RegRanges(owned, addressCells, sizeCells).value, base))
      && (!found ==> forall n <- nodes :: n.name != ParkingName(base))
    decreases |nodes|
  {
    hide IsContract, WellOwned, RegRanges, ParkingName;
    if nodes != [] {
      var node := nodes[0];
      var ranges := RegRanges(node, addressCells, sizeCells).value;
      var rest := Contracts(nodes[1..]);
      assert forall n <- nodes :: n == node || n in nodes[1..];
      assert ([node] + rest)[0] == node;
      if !Concerned(node, ranges, base) {
        CheckedContracts(nodes[1..], addressCells, sizeCells, base, already);
        assert Contracts(nodes) == rest;
      } else {
        ParkingIsContract(node, ranges, base);
        CheckedContracts(nodes[1..], addressCells, sizeCells, base, true);
        assert rest == [] && Contracts(nodes) == [node] + rest;
      }
    }
  }

  lemma ParkingIsContract(node: Node, ranges: seq<Range>, base: nat)
    ensures IsParking(node, ranges, base) ==> IsContract(node)
  {
    if IsParking(node, ranges, base) {
      CompatIsContract(node);
    }
  }

  lemma {:induction false} CheckAppend(nodes: seq<Node>, last: Node, addressCells: u32, sizeCells: u32, base: nat, already: bool)
    requires CheckReservations(nodes, addressCells, sizeCells, base, already).Ok?
    ensures CheckReservations(nodes + [last], addressCells, sizeCells, base, already) ==
      CheckReservations([last], addressCells, sizeCells, base, CheckReservations(nodes, addressCells, sizeCells, base, already).value)
    decreases |nodes|
  {
    hide Concerned, IsParking, RegRanges;
    if nodes == [] {
      assert nodes + [last] == [last];
    } else {
      assert (nodes + [last])[1..] == nodes[1..] + [last] && (nodes + [last])[0] == nodes[0];
      var ranges := RegRanges(nodes[0], addressCells, sizeCells).value;
      CheckAppend(nodes[1..], last, addressCells, sizeCells, base, already || Concerned(nodes[0], ranges, base));
    }
  }

  lemma ContractsCons(n: Node, rest: seq<Node>)
    ensures Contracts([n] + rest) == (if IsContract(n) then [n] else []) + Contracts(rest)
  {
    hide IsContract;
    assert ([n] + rest)[1..] == rest;
  }

  lemma {:induction false} ContractsAppend(nodes: seq<Node>, last: Node)
    ensures Contracts(nodes + [last]) == Contracts(nodes) + (if IsContract(last) then [last] else [])
    decreases |nodes|
  {
    var own := if IsContract(last) then [last] else [];
    if nodes == [] {
      ContractsCons(last, []);
      EmptyConcat([last]);
      EmptyConcat(own);
    } else {
      ContractsAppend(nodes[1..], last);
      ContractsCons(nodes[0], nodes[1..]);
      ContractsCons(nodes[0], nodes[1..] + [last]);
      hide IsContract, Contracts;
      assert nodes == [nodes[0]] + nodes[1..];
      Assoc([nodes[0]], nodes[1..], [last]);
      Assoc(if IsContract(nodes[0]) then [nodes[0]] else [], Contracts(nodes[1..]), own);
    }
  }

  lemma ParkingNames()
    ensures |PROP_COMPATIBLE| == 10 && |PROP_NO_MAP| == 6 && |PROP_REG| == 3 && |PROP_STATUS| == 6
    ensures PROP_NO_MAP != PROP_STATUS && |PROP_REUSABLE| == 8 && |PROP_ENTRY_METHOD| == 12
    ensures |PROP_SUSPEND_PARAM| == 22 && |PROP_POWER_DOMAIN_CELLS| == 19
    ensures |PROP_ADDRESS_CELLS| == 14 && |PROP_SIZE_CELLS| == 11 && |PROP_RANGES| == 6
    ensures PROP_RANGES != PROP_STATUS && NulFree(SPIN_TABLE_COMPAT) && |SPIN_TABLE_COMPAT| == 24
    ensures |Ascii("arm,psci")| == 8 && |Ascii("arm,psci-0.2")| == 12 && |Ascii("arm,psci-1.0")| == 12
  {
    assert PROP_NO_MAP[0] == 110 && PROP_STATUS[0] == 115 && PROP_RANGES[0] == 114;
  }

  /// A node that neither `disable_psci` nor the provider scan takes notice of.
  predicate Inert(node: Node) {
    Survives(node) && Get(node, PROP_POWER_DOMAIN_CELLS).None?
  }

  lemma EncodedReg(base: u64, addressCells: u32, sizeCells: u32)
    requires ValidBase(base) && EncodeCells(base, addressCells).Ok? && EncodeCells(SPIN_TABLE_BYTES, sizeCells).Ok?
    ensures
      var reg := EncodeCells(base, addressCells).value + EncodeCells(SPIN_TABLE_BYTES, sizeCells).value;
      && |reg| == (addressCells + sizeCells) * 4
      && DecodeReg(reg, addressCells, sizeCells) == Ok([Range(base, base + SPIN_TABLE_BYTES)])
  {
    EncodedCells(base, addressCells);
    EncodedCells(SPIN_TABLE_BYTES, sizeCells);
    hide Bytes.Be32, Bytes.Be64, DecodeCells, EncodeCells, DecodeTuples;
    var x, y := EncodeCells(base, addressCells).value, EncodeCells(SPIN_TABLE_BYTES, sizeCells).value;
    OneTuple(x, y, base, SPIN_TABLE_BYTES);
    assert Whole(x + y, (addressCells + sizeCells) * 4);
  }

  lemma OneTuple(x: bytes, y: bytes, address: nat, size: nat)
    requires (|x| == 4 || |x| == 8) && (|y| == 4 || |y| == 8)
    requires DecodeCells(x) == address && DecodeCells(y) == size && size > 0 && address + size < U64_LIMIT
    ensures Whole(x + y, |x| + |y|)
    ensures DecodeTuples(x + y, |x|, |x| + |y|) == Ok([Range(address, address + size)])
  {
    hide DecodeCells;
    var reg, n := x + y, |x| + |y|;
    assert Whole(reg, n) by { assert n == 8 || n == 12 || n == 16; }
    assert reg[..|x|] == x && reg[|x|..n] == y && reg[n..] == [];
    NoTuplesLeft(|x|, n, [Range(address, address + size)]);
    TuplesStep(reg, |x|, n);
    hide Whole, DecodeTuples;
  }

  lemma EncodedCells(value: u64, count: u32)
    requires EncodeCells(value, count).Ok?
    ensures 1 <= count <= 2
    ensures |EncodeCells(value, count).value| == count * 4 && DecodeCells(EncodeCells(value, count).value) == value
  {
    if count == 1 {
      De32Be32(value);
    } else {
      De64Be64(value);
    }
  }

  lemma NewParkingLaws(base: u64, addressCells: u32, sizeCells: u32)
    requires ValidBase(base) && NewParking(base, addressCells, sizeCells).Ok?
    ensures
      var node := NewParking(base, addressCells, sizeCells).value;
      && node.children == [] && node.name == ParkingName(base) && WellOwned(node) && Inert(node)
      && Get(node, PROP_REG).Some? && |Get(node, PROP_REG).value| == (addressCells + sizeCells) * 4
      && RegRanges(node, addressCells, sizeCells) == Ok([Range(base, base + SPIN_TABLE_BYTES)])
      && Concerned(node, [Range(base, base + SPIN_TABLE_BYTES)], base)
      && IsContract(node)
  {
    ParkingNames();
    EncodedReg(base, addressCells, sizeCells);
    var node := NewParking(base, addressCells, sizeCells).value;
    ItemsConcat(SPIN_TABLE_COMPAT, []);
    assert SPIN_TABLE_COMPAT + [0] + [] == SPIN_TABLE_COMPAT + [0];
    assert Items(SPIN_TABLE_COMPAT + [0]) == [SPIN_TABLE_COMPAT, []];
    hide GetProp, DecodeReg, EncodeCells, Bytes.Ascii, ParkingName, Items;
    forall name ensures
      GetProp(node.props, name) ==
      if PROP_COMPATIBLE == name then Some(SPIN_TABLE_COMPAT + [0]) else if PROP_NO_MAP == name then Some([])
      else if PROP_REG == name then Some(node.props[2].value) else None
    {
      GetThree(node.props[0], node.props[1], node.props[2], name);
    }
    CompatIsContract(node);
  }

  lemma NewReservedLaws(root: Node)
    requires NewReserved(root).Ok?
    ensures
      var node := NewReserved(root).value;
      && node.children == [] && Enabled(node) && Inert(node) && Get(node, PROP_RANGES) == Some([])
      && NodeCells(node, PROP_ADDRESS_CELLS, 0) == NodeCells(root, PROP_ADDRESS_CELLS, 2)
      && NodeCells(node, PROP_SIZE_CELLS, 0) == NodeCells(root, PROP_SIZE_CELLS, 1)
  {
    ParkingNames();
    var a, z := NodeCells(root, PROP_ADDRESS_CELLS, 2).value, NodeCells(root, PROP_SIZE_CELLS, 1).value;
    De32Be32(a);
    De32Be32(z);
    hide GetProp, Bytes.Ascii, Bytes.Be32, Bytes.De32, Items;
    var node := NewReserved(root).value;
    forall name ensures
      GetProp(node.props, name) ==
      if PROP_ADDRESS_CELLS == name then Some(Be32(a)) else if PROP_SIZE_CELLS == name then Some(Be32(z))
      else if PROP_RANGES == name then Some([]) else None
    {
      GetThree(node.props[0], node.props[1], node.props[2], name);
    }
  }

  /// The reservations of the grafted tree: exactly one claims the contract, and it is the page.
  lemma ParkingResult(root: Node, base: u64)
    requires ValidBase(base) && GraftParking(root, base).Ok?
    ensures
      var t, before := GraftParking(root, base).value, Child(root, RESERVED_MEMORY);
      && Child(t, RESERVED_MEMORY).Some?
      && var reserved := Child(t, RESERVED_MEMORY).value;
      && ReservedCells(t, reserved).Ok?
      && var (a, z) := ReservedCells(t, reserved).value;
      && CheckReservations(reserved.children, a, z, base, false) == Ok(true)
      && |Contracts(reserved.children)| == 1
      && (before.Some? ==> reserved.props == before.value.props)
      && (if before.Some? && Contracts(before.value.children) != [] then reserved == before.value && t == root
          else
            && Get(Contracts(reserved.children)[0], PROP_REG).Some?
            && |Get(Contracts(reserved.children)[0], PROP_REG).value| == (a + z) * 4)
  {
    hide CheckReservations, NewParking, NewReserved, RegRanges, Concerned, IsParking, GetProp, Bytes.Ascii;
    hide IsContract, ParkingName;
    var root' := WithReserved(root).value;
    assert |CPUS| != |RESERVED_MEMORY|;
    if Child(root, RESERVED_MEMORY).None? {
      NewReservedName(root);
      ChildAppended(root, NewReserved(root).value, RESERVED_MEMORY);
      NewReservedLaws(root);
    }
    var i := ChildIndex(root'.children, RESERVED_MEMORY).value;
    var reserved := root'.children[i];
    var (a, z) := ReservedCells(root', reserved).value;
    CheckedContracts(reserved.children, a, z, base, false);
    if !CheckReservations(reserved.children, a, z, base, false).value {
      var parking := NewParking(base, a, z).value;
      var child := reserved.(children := reserved.children + [parking]);
      ChildUpdated(root', i, child, RESERVED_MEMORY);
      NewParkingLaws(base, a, z);
      CheckAppend(reserved.children, parking, a, z, base, false);
      CheckOne(parking, a, z, base);
      ContractsAppend(reserved.children, parking);
      SameReservedCells(root', GraftParking(root, base).value, reserved, child);
    }
  }

  lemma CheckOne(node: Node, addressCells: u32, sizeCells: u32, base: nat)
    requires RegRanges(node, addressCells, sizeCells) == Ok([Range(base, base + SPIN_TABLE_BYTES)])
    requires WellOwned(node) && Concerned(node, [Range(base, base + SPIN_TABLE_BYTES)], base)
    ensures CheckReservations([node], addressCells, sizeCells, base, false) == Ok(true)
  {
    assert [node][1..] == [];
    assert CheckReservations([], addressCells, sizeCells, base, true) == Ok(true);
  }

  lemma SameReservedCells(root: Node, root': Node, reserved: Node, reserved': Node)
    requires root'.props == root.props && reserved'.props == reserved.props
    ensures ReservedCells(root', reserved') == ReservedCells(root, reserved)
  {
    hide GetProp, StatusEnabled, PropertyU32;
  }

  // When the contract is kept.

  predicate SingleTuple(reserved: Node, node: Node) {
    var a, z, reg := NodeCells(reserved, PROP_ADDRESS_CELLS, 0), NodeCells(reserved, PROP_SIZE_CELLS, 0), Get(node, PROP_REG);
    a.Ok? && z.Ok? && reg.Some? && |reg.value| == (a.value + z.value) * 4
  }

  /// Every reservation that claims the contract, and is not removed as an idle state, has a
  /// `reg` of one tuple.
  predicate SingleTuples(target: Node) {
    var reserved := Child(target, RESERVED_MEMORY);
    reserved.Some? && !IsIdle(reserved.value) ==>
      forall node <- reserved.value.children :: IsContract(node) && !IsIdle(node) ==> SingleTuple(reserved.value, node)
  }

  /// /cpus is not removed, and no CPU is removed or disabled.
  predicate CpusKept(target: Node) {
    var cpus := Child(target, CPUS);
    cpus.Some? && !IsIdle(cpus.value) && forall cpu <- cpus.value.children :: IsCpu(cpu) ==> Survives(cpu)
  }

  /// /cpus is not removed, and some CPU is neither removed nor disabled.
  predicate SomeCpuKept(target: Node) {
    var cpus := Child(target, CPUS);
    cpus.Some? && !IsIdle(cpus.value) && exists cpu <- cpus.value.children :: IsCpu(cpu) && Survives(cpu)
  }

  function LiveContracts(nodes: seq<Node>): seq<Node> {
    if nodes == [] then []
    else (if IsContract(nodes[0]) && !IsIdle(nodes[0]) then [nodes[0]] else []) + LiveContracts(nodes[1..])
  }

  lemma DisabledContract(node: Node)
    ensures IsContract(Disable(node)) == IsContract(node)
    ensures Get(Disable(node), PROP_REG) == Get(node, PROP_REG)
  {
    StatusIsNot();
    assert |PROP_REG| != |PROP_STATUS|;
    hide IsPsci, Bytes.Ascii;
    DisabledGet(node, PROP_COMPATIBLE);
    DisabledGet(node, PROP_REG);
  }

  lemma {:induction false} ContractsDisabled(nodes: seq<Node>)
    ensures |Contracts(DisableForest(nodes))| == |LiveContracts(nodes)|
    ensures forall k :: 0 <= k < |LiveContracts(nodes)| ==>
      Get(Contracts(DisableForest(nodes))[k], PROP_REG) == Get(LiveContracts(nodes)[k], PROP_REG)
    ensures forall c <- nodes :: IsContract(c) && !IsIdle(c) <==> c in LiveContracts(nodes)
    ensures forall c <- LiveContracts(nodes) :: c in nodes
    decreases |nodes|
  {
    hide *;
    LiveContractsIn(nodes);
    if nodes == [] {
      NoContracts();
    } else {
      var out := DisableForest(nodes[1..]);
      ContractsDisabled(nodes[1..]);
      DisabledContract(nodes[0]);
      DisabledStep(nodes);
      ContractsCons(Disable(nodes[0]), out);
      LiveContractsStep(nodes);
      if IsContract(nodes[0]) && !IsIdle(nodes[0]) {
        AlignedCons(Disable(nodes[0]), nodes[0], Contracts(out), LiveContracts(nodes[1..]));
      } else {
        EmptyConcat(Contracts(out));
      }
    }
  }

  lemma NoContracts()
    ensures DisableForest([]) == [] && Contracts([]) == [] && LiveContracts([]) == []
  {
  }

  lemma DisabledStep(nodes: seq<Node>)
    requires nodes != []
    ensures DisableForest(nodes) ==
      if IsIdle(nodes[0]) then DisableForest(nodes[1..]) else [Disable(nodes[0])] + DisableForest(nodes[1..])
  {
    hide IsIdle, Disable;
  }

  lemma LiveContractsStep(nodes: seq<Node>)
    requires nodes != []
    ensures LiveContracts(nodes) ==
      if IsContract(nodes[0]) && !IsIdle(nodes[0]) then [nodes[0]] + LiveContracts(nodes[1..]) else LiveContracts(nodes[1..])
  {
    hide IsContract, IsIdle;
    EmptyConcat(LiveContracts(nodes[1..]));
  }

  lemma AlignedCons(x: Node, y: Node, xs: seq<Node>, ys: seq<Node>)
    requires |xs| == |ys| && Get(x, PROP_REG) == Get(y, PROP_REG)
    requires forall k :: 0 <= k < |ys| ==> Get(xs[k], PROP_REG) == Get(ys[k], PROP_REG)
    ensures forall k :: 0 <= k < |ys| + 1 ==> Get(([x] + xs)[k], PROP_REG) == Get(([y] + ys)[k], PROP_REG)
  {
    hide Get;
  }

  lemma {:induction false} LiveContractsIn(nodes: seq<Node>)
    ensures forall c <- nodes :: IsContract(c) && !IsIdle(c) <==> c in LiveContracts(nodes)
    ensures forall c <- LiveContracts(nodes) :: c in nodes
    decreases |nodes|
  {
    hide IsContract, IsIdle;
    if nodes != [] {
      LiveContractsIn(nodes[1..]);
      var live := LiveContracts(nodes[1..]);
      assert forall c <- nodes :: c == nodes[0] || c in nodes[1..];
      assert forall c <- live :: IsContract(c) && !IsIdle(c);
    }
  }

  /// The page is recognised again exactly when its reservation has one tuple.
  lemma OwnedBaseOfGraft(root: Node, base: u64)
    requires ValidBase(base) && GraftParking(root, base).Ok?
    ensures
      var t := GraftParking(root, base).value;
      && Child(t, RESERVED_MEMORY).Some?
      && var reserved := Child(t, RESERVED_MEMORY).value;
      && ReservedCells(t, reserved).Ok? && |Contracts(reserved.children)| == 1
      && var (a, z) := ReservedCells(t, reserved).value;
      && Get(Contracts(reserved.children)[0], PROP_REG).Some?
      && (OwnedBase(t) == Ok(base) <==> |Get(Contracts(reserved.children)[0], PROP_REG).value| == (a + z) * 4)
  {
    hide GraftParking, CheckReservations, GetProp, Bytes.Ascii, WellOwned, IsContract, DecodeReg, ReservedCells;
    ParkingResult(root, base);
    var t := GraftParking(root, base).value;
    var reserved := Child(t, RESERVED_MEMORY).value;
    var (a, z) := ReservedCells(t, reserved).value;
    CheckedContracts(reserved.children, a, z, base, false);
    var owned := Contracts(reserved.children)[0];
    assert RegRanges(owned, a, z).value == [Range(base, base + SPIN_TABLE_BYTES)];
  }

  predicate RegIs(node: Node, length: nat) { Get(node, PROP_REG).Some? && |Get(node, PROP_REG).value| == length }

  lemma SingleTuplesOf(target: Node, r: Node, a: u32, z: u32)
    requires Child(target, RESERVED_MEMORY) == Some(r) && !IsIdle(r)
    requires NodeCells(r, PROP_ADDRESS_CELLS, 0) == Ok(a) && NodeCells(r, PROP_SIZE_CELLS, 0) == Ok(z)
    ensures LiveContracts(r.children) == [] ==> SingleTuples(target)
    ensures |LiveContracts(r.children)| == 1 ==>
      (SingleTuples(target) <==> RegIs(LiveContracts(r.children)[0], (a + z) * 4))
  {
    hide IsContract, IsIdle, GetProp, Bytes.Ascii, NodeCells, Child;
    LiveContractsIn(r.children);
    var live := LiveContracts(r.children);
    if |live| == 1 {
      assert live[0] in live && forall c <- live :: c == live[0];
    }
  }

  lemma ReservationKeptAt(target: Node, root: Node, r: Node, base: u64)
    requires ValidBase(base) && GraftParking(root, base).Ok?
    requires Child(target, RESERVED_MEMORY) == Some(r) && !IsIdle(r) && Child(root, RESERVED_MEMORY) == Some(Disable(r))
    ensures OwnedBase(GraftParking(root, base).value) == Ok(base) <==> SingleTuples(target)
  {
    assert Disable(r).children == DisableForest(r.children);
    hide *;
    OwnedBaseOfGraft(root, base);
    ParkingResult(root, base);
    var t := GraftParking(root, base).value;
    var now := Child(t, RESERVED_MEMORY).value;
    var (a, z) := ReservedCells(t, now).value;
    ReservedWasEnabled(r, now, t);
    SingleTuplesOf(target, r, a, z);
    ContractsDisabled(r.children);
    var live := LiveContracts(r.children);
    if live == [] {
      assert Contracts(Disable(r).children) == [];
    } else {
      assert Contracts(Disable(r).children) != [];
      RegIsCongruent(Contracts(now.children)[0], live[0], (a + z) * 4);
    }
  }

  lemma RegIsCongruent(x: Node, y: Node, length: nat)
    requires Get(x, PROP_REG).Some? && Get(x, PROP_REG) == Get(y, PROP_REG)
    ensures RegIs(y, length) <==> |Get(x, PROP_REG).value| == length
  {
  }

  lemma ReservationsKept(target: Node, edited: Node, base: u64)
    requires ValidBase(base) && UniqueChildren(edited.children)
    requires Child(edited, RESERVED_MEMORY) == Child(target, RESERVED_MEMORY)
    requires GraftParking(Disable(edited), base).Ok?
    ensures OwnedBase(GraftParking(Disable(edited), base).value) == Ok(base) <==> SingleTuples(target)
  {
    var was := Child(target, RESERVED_MEMORY);
    assert was.None? || IsIdle(was.value) ==> SingleTuples(target);
    hide GraftParking, OwnedBase, SingleTuples, IsIdle, Disable, Child, Contracts, ReservedCells, GetProp;
    ChildDisabled(edited, RESERVED_MEMORY);
    if was.Some? && !IsIdle(was.value) {
      ReservationKeptAt(target, Disable(edited), was.value, base);
    } else {
      OwnedBaseOfGraft(Disable(edited), base);
      ParkingResult(Disable(edited), base);
    }
  }

  /// A PSCI /reserved-memory would have been disabled, and the graft refused.
  lemma ReservedWasEnabled(r: Node, now: Node, t: Node)
    requires now.props == DisabledProps(r) && ReservedCells(t, now).Ok?
    ensures !IsPsci(r) && now.props == r.props
    ensures
      var (a, z) := ReservedCells(t, now).value;
      NodeCells(r, PROP_ADDRESS_CELLS, 0) == Ok(a) && NodeCells(r, PROP_SIZE_CELLS, 0) == Ok(z)
  {
    StatusDisables();
    DisabledGet(r, PROP_STATUS);
    hide IsPsci, GetProp, StatusEnabled, PropertyU32, Bytes.Ascii;
  }

  lemma DisabledCpuCells(cpus: Node, cpus': Node)
    requires cpus'.props == DisabledProps(cpus)
    ensures CpuCells(cpus') == CpuCells(cpus)
  {
    assert |PROP_ADDRESS_CELLS| != |PROP_STATUS| && |PROP_SIZE_CELLS| != |PROP_STATUS|;
    DisabledGet(cpus, PROP_ADDRESS_CELLS);
    DisabledGet(cpus, PROP_SIZE_CELLS);
  }

  lemma SamePropsKind(x: Node, y: Node)
    requires x.props == y.props
    ensures IsPsci(x) == IsPsci(y) && IsIdle(x) == IsIdle(y) && CpuCells(x) == CpuCells(y)
  {
    hide GetProp, HasItem, PropertyU32, Bytes.Ascii;
  }

  lemma {:induction false} SurvivingSome(nodes: seq<Node>, addressCells: u32)
    requires SurvivingIds(nodes, addressCells).Ok?
    ensures SurvivingIds(nodes, addressCells).value != [] <==> exists cpu <- nodes :: IsCpu(cpu) && Survives(cpu)
    decreases |nodes|
  {
    hide IsCpu, Mpidr, Survives;
    if nodes != [] {
      SurvivingSome(nodes[1..], addressCells);
      assert forall cpu <- nodes :: cpu == nodes[0] || cpu in nodes[1..];
      assert forall cpu <- nodes[1..] :: cpu in nodes;
      assert nodes[0] in nodes;
    }
  }

  lemma {:induction false} NoIdsNoCpus(nodes: seq<Node>, addressCells: u32)
    requires Ids(nodes, addressCells) == Ok([])
    ensures forall cpu <- nodes :: !IsCpu(cpu)
    decreases |nodes|
  {
    hide IsCpu, Mpidr;
    if nodes != [] {
      assert !IsCpu(nodes[0]);
      NoIdsNoCpus(nodes[1..], addressCells);
      assert forall cpu <- nodes :: cpu == nodes[0] || cpu in nodes[1..];
    }
  }

  /// The CPUs of the grafted tree: all four own their slots exactly when all were kept, and it still
  /// has the four exactly then; one at least is left exactly when one was kept.
  lemma CpusAfterGraft(target: Node, base: u64, providers: seq<Provider>)
    requires EditTarget(target, base, providers).Ok? && UniqueChildren(target.children)
    requires CpuIds(target).Ok? && IdSet(CpuIds(target).value) == {0, 1, 2, 3}
    requires GraftParking(Disable(EditTarget(target, base, providers).value), base).Ok?
    ensures
      var t := GraftParking(Disable(EditTarget(target, base, providers).value), base).value;
      && (HasSpinTableCpu(t) && CpusOwnSlots(t, base) <==> CpusKept(target))
      && (CpusKept(target) ==> CpuIds(t) == CpuIds(target))
      && (HasFourCpus(t) <==> CpusKept(target))
      && (HasSpinTableCpu(t) <==> SomeCpuKept(target))
  {
    hide GraftParking, EditCpus, CpuCells, Mpidr, IsCpu, HasSlot, IsPsci, IsIdle, Ids, DistinctIds;
    EditTargetShape(target, base, providers);
    var edited := EditTarget(target, base, providers).value;
    UniqueNames(target.children, edited.children);
    ChildDisabled(edited, CPUS);
    GraftParkingShape(Disable(edited), base);
    var t := GraftParking(Disable(edited), base).value;
    var cpus := Child(target, CPUS).value;
    var a := CpuCells(cpus).value;
    var cpus' := Child(edited, CPUS).value;
    SamePropsKind(cpus, cpus');
    if !IsIdle(cpus) {
      var now := Child(t, CPUS).value;
      assert now == Disable(cpus');
      DisabledCpuCells(cpus', now);
      EditedIds(cpus.children, a, base, providers);
      SurvivingWithin(cpus.children, a);
      AllSurvive(cpus.children, a);
      assert CpuIds(t) == SurvivingIds(cpus.children, a);
      SurvivingSome(cpus.children, a);
      if SurvivingIds(cpus.children, a).value != [] {
        SomeCpu(now.children, a, base);
      } else {
        NoIdsNoCpus(now.children, a);
      }
    }
  }

  lemma UniqueNames(xs: seq<Node>, ys: seq<Node>)
    requires UniqueChildren(xs) && |xs| == |ys| && forall i :: 0 <= i < |xs| ==> ys[i].name == xs[i].name
    ensures UniqueChildren(ys)
  {
  }

  lemma {:induction false} SomeCpu(nodes: seq<Node>, addressCells: u32, base: nat)
    requires Ids(nodes, addressCells).Ok? && Ids(nodes, addressCells).value != [] && AllSlots(nodes, addressCells, base)
    ensures exists cpu <- nodes :: IsCpu(cpu) && Get(cpu, PROP_ENABLE_METHOD) == Some(SPIN_TABLE_METHOD)
    decreases |nodes|
  {
    hide Mpidr, IsCpu, GetProp, Bytes.Ascii;
    assert nodes[0] in nodes;
    if !IsCpu(nodes[0]) {
      assert forall c <- nodes[1..] :: c in nodes;
      SomeCpu(nodes[1..], addressCells, base);
    }
  }

  /// Preservation, with its exact condition: the grafted tree carries the contract it was
  /// given if and only if no CPU was lost to PSCI removal and the parking reservation has one tuple.
  lemma GraftKeepsContract(target: Node, base: u64)
    requires WfTree(target) && ValidBase(base) && GraftTarget(target, base).Ok?
    requires CpuIds(target).Ok? && IdSet(CpuIds(target).value) == {0, 1, 2, 3}
    ensures
      var t := GraftTarget(target, base).value;
      && (SpinTableContract(t) == Ok(Some(base)) <==> CpusKept(target) && SingleTuples(target))
      && (CpusKept(target) ==> CpuIds(t) == CpuIds(target) && CpusOwnSlots(t, base))
  {
    hide GraftParking, EditTarget, CpusKept, SingleTuples, CpuIds, Disable, Providers, OwnedBase, HasSpinTableCpu, CpusOwnSlots;
    var providers := Providers(target).value;
    var edited := EditTarget(target, base, providers).value;
    EditTargetShape(target, base, providers);
    UniqueNames(target.children, edited.children);
    CpusAfterGraft(target, base, providers);
    ReservationsKept(target, edited, base);
  }

  // Grafting the output again: providers.

  lemma {:induction false} ListForestAppend(xs: seq<Node>, ys: seq<Node>, psci: bool)
    ensures ListForestProviders(xs + ys, psci) == Both(ListForestProviders(xs, psci), ListForestProviders(ys, psci))
    decreases |xs|
  {
    hide ListProviders;
    if xs == [] {
      assert xs + ys == ys;
      var more := ListForestProviders(ys, psci);
      assert more.Ok? ==> [] + more.value == more.value;
    } else {
      ListForestAppend(xs[1..], ys, psci);
      assert (xs + ys)[1..] == xs[1..] + ys && (xs + ys)[0] == xs[0];
      BothAssoc(ListProviders(xs[0], psci), ListForestProviders(xs[1..], psci), ListForestProviders(ys, psci));
    }
  }

  lemma BothAssoc<T>(x: Result<seq<T>>, y: Result<seq<T>>, z: Result<seq<T>>)
    ensures Both(x, Both(y, z)) == Both(Both(x, y), z)
  {
    if x.Ok? && y.Ok? && z.Ok? {
      assert x.value + (y.value + z.value) == x.value + y.value + z.value;
    }
  }

  lemma BothNil<T>(x: Result<seq<T>>)
    ensures Both(x, Ok([])) == x && Both(Ok([]), x) == x
  {
    assert x.Ok? ==> x.value + [] == x.value && [] + x.value == x.value;
  }

  lemma ListOne(node: Node, psci: bool)
    ensures ListForestProviders([node], psci) == ListProviders(node, psci)
  {
    hide ListProviders;
    assert [node][1..] == [];
    BothNil(ListProviders(node, psci));
  }

  /// A leaf without `#power-domain-cells` provides nothing.
  lemma InertLeafProviders(node: Node, psci: bool)
    requires Inert(node) && node.children == []
    ensures ListProviders(node, psci) == Ok([])
  {
    hide GetProp, IsPsci;
    var none: seq<Provider> := [];
    assert none + none == none;
  }

  lemma AppendInert(node: Node, leaf: Node, psci: bool)
    requires Inert(leaf) && leaf.children == []
    ensures ListProviders(node.(children := node.children + [leaf]), psci) == ListProviders(node, psci)
  {
    hide OwnProvider, Inert;
    var node' := node.(children := node.children + [leaf]);
    SamePropsProviders(node, node', psci);
    var below := psci || IsPsci(node);
    ListForestAppend(node.children, [leaf], below);
    ListOne(leaf, below);
    InertLeafProviders(leaf, below);
    BothNil(ListForestProviders(node.children, below));
  }

  lemma SamePropsProviders(x: Node, y: Node, psci: bool)
    requires x.props == y.props
    ensures IsPsci(x) == IsPsci(y)
    ensures OwnProvider(x, psci || IsPsci(x)) == OwnProvider(y, psci || IsPsci(x))
  {
    hide GetProp, HasItem, PropertyU32, Bytes.Ascii;
  }

  lemma UpdateChildProviders(node: Node, i: nat, child: Node, psci: bool)
    requires i < |node.children|
    requires forall below: bool :: ListProviders(child, below) == ListProviders(node.children[i], below)
    ensures ListProviders(node.(children := node.children[i := child]), psci) == ListProviders(node, psci)
  {
    hide OwnProvider, IsPsci;
    var node' := node.(children := node.children[i := child]);
    SamePropsProviders(node, node', psci);
    var below := psci || IsPsci(node);
    var xs, ys := node.children[..i], node.children[i + 1..];
    assert node.children == xs + ([node.children[i]] + ys) && node'.children == xs + ([child] + ys);
    ListForestAppend(xs, [node.children[i]] + ys, below);
    ListForestAppend(xs, [child] + ys, below);
    ListForestAppend([node.children[i]], ys, below);
    ListForestAppend([child], ys, below);
    ListOne(node.children[i], below);
    ListOne(child, below);
  }

  /// The parking page adds no provider.
  lemma ParkingProviders(root: Node, base: u64)
    requires ValidBase(base) && GraftParking(root, base).Ok?
    ensures ListProviders(GraftParking(root, base).value, false) == ListProviders(root, false)
  {
    hide ReservedCells, CheckReservations, NewParking, NewReserved, ListProviders, Inert, RegRanges, WellOwned, Concerned;
    var root' := WithReserved(root).value;
    if Child(root, RESERVED_MEMORY).None? {
      NewReservedLaws(root);
      AppendInert(root, NewReserved(root).value, false);
    }
    var i := ChildIndex(root'.children, RESERVED_MEMORY).value;
    var reserved := root'.children[i];
    var (a, z) := ReservedCells(root', reserved).value;
    if !CheckReservations(reserved.children, a, z, base, false).value {
      var parking := NewParking(base, a, z).value;
      NewParkingLaws(base, a, z);
      var child := reserved.(children := reserved.children + [parking]);
      forall below: bool ensures ListProviders(child, below) == ListProviders(reserved, below) {
        AppendInert(reserved, parking, below);
      }
      UpdateChildProviders(root', i, child, false);
    }
  }

  lemma {:induction false} KeptEditedCpus(nodes: seq<Node>, addressCells: u32, base: nat, providers: seq<Provider>, psci: bool)
    requires EditCpus(nodes, addressCells, base, providers).Ok?
    ensures KeptForestProviders(EditCpus(nodes, addressCells, base, providers).value, psci) == KeptForestProviders(nodes, psci)
    decreases |nodes|
  {
    hide EditCpus, EditNode, Mpidr, IsCpu, HasSlot, IsPsci, IsIdle, OwnProvider;
    if nodes == [] {
      EditCpusNil(addressCells, base, providers);
    } else {
      EditCpusCons(nodes, addressCells, base, providers);
      KeptEditedCpus(nodes[1..], addressCells, base, providers, psci);
      EditNodeKind(nodes[0], addressCells, base, providers, psci || IsPsci(nodes[0]));
    }
  }

  lemma {:induction false} KeptUpdate(nodes: seq<Node>, i: nat, child: Node, psci: bool)
    requires i < |nodes| && IsIdle(child) == IsIdle(nodes[i])
    requires KeptProviders(child, psci) == KeptProviders(nodes[i], psci)
    ensures KeptForestProviders(nodes[i := child], psci) == KeptForestProviders(nodes, psci)
    decreases |nodes|
  {
    hide IsIdle, KeptProviders;
    var nodes' := nodes[i := child];
    if i == 0 {
      assert nodes'[1..] == nodes[1..];
    } else {
      assert nodes'[1..] == nodes[1..][i - 1 := child];
      KeptUpdate(nodes[1..], i - 1, child, psci);
    }
  }

  /// Editing the CPUs touches no provider.
  lemma KeptEdited(target: Node, base: nat, providers: seq<Provider>)
    requires EditTarget(target, base, providers).Ok?
    ensures KeptProviders(EditTarget(target, base, providers).value, false) == KeptProviders(target, false)
  {
    hide CpuCells, EditCpus, IsPsci, IsIdle, OwnProvider, KeptForestProviders;
    var i := ChildIndex(target.children, CPUS).value;
    var cpus := target.children[i];
    var a := CpuCells(cpus).value;
    var cpus' := cpus.(children := EditCpus(cpus.children, a, base, providers).value);
    var target' := EditTarget(target, base, providers).value;
    SamePropsProviders(target, target', false);
    var below := IsPsci(target);
    SamePropsProviders(cpus, cpus', below);
    SamePropsKind(cpus, cpus');
    KeptEditedCpus(cpus.children, a, base, providers, below || IsPsci(cpus));
    KeptUpdate(target.children, i, cpus', below);
  }

  lemma ProvidersAfterGraft(target: Node, base: u64)
    requires ValidBase(base) && GraftTarget(target, base).Ok?
    ensures KeptProviders(target, false).Ok?
    ensures
      var kept := KeptProviders(target, false).value;
      && Providers(GraftTarget(target, base).value) == Ok(kept)
      && Consistent(Providers(target).value, kept)
  {
    hide EditTarget, GraftParking, ListProviders, KeptProviders, Distinct, Within, Disable;
    var providers := Providers(target).value;
    var edited := EditTarget(target, base, providers).value;
    KeptWithin(target, false);
    KeptEdited(target, base, providers);
    DisabledProviders(edited, false);
    ParkingProviders(Disable(edited), base);
    var kept := KeptProviders(target, false).value;
    WithinDistinct(kept, providers);
    WithinConsistent(kept, providers);
  }

  lemma WithinDistinct(kept: seq<Provider>, all: seq<Provider>)
    requires Within(kept, all)
    ensures Distinct(kept)
  {
  }

  lemma WithinConsistent(kept: seq<Provider>, all: seq<Provider>)
    requires Distinct(all) && Within(kept, all)
    ensures Consistent(all, kept)
  {
    forall phandle: u32 | FindProvider(kept, phandle).Some?
      ensures FindProvider(kept, phandle) == FindProvider(all, phandle)
    {
      FindWithin(kept, all, phandle);
    }
  }

  // Grafting the output again: CPUs.

  ghost predicate AllFound(nodes: seq<Node>, providers: seq<Provider>, fewer: seq<Provider>) {
    forall cpu <- nodes :: IsCpu(cpu) ==> DomainsFound(cpu, providers, fewer)
  }

  /// The providers of every power domain that a CPU keeps outlive the removal of idle states.
  ghost predicate ProvidersKept(target: Node) {
    var cpus, providers, kept := Child(target, CPUS), Providers(target), KeptProviders(target, false);
    cpus.Some? && providers.Ok? && kept.Ok? && AllFound(cpus.value.children, providers.value, kept.value)
  }

  lemma EditCpusOfCons(head: Node, rest: seq<Node>, addressCells: u32, base: nat, providers: seq<Provider>)
    ensures EditCpus([head] + rest, addressCells, base, providers) ==
      var first, more := EditNode(head, addressCells, base, providers), EditCpus(rest, addressCells, base, providers);
      if first.Ok? && more.Ok? then Ok([first.value] + more.value) else InvalidData
  {
    hide EditCpu, Mpidr, IsCpu;
    assert ([head] + rest)[1..] == rest;
  }

  lemma EditNodeAgain(node: Node, node': Node, addressCells: u32, base: nat, providers: seq<Provider>, fewer: seq<Provider>)
    requires EditNode(node, addressCells, base, providers).Ok? && Consistent(providers, fewer)
    requires node'.props == DisabledProps(EditNode(node, addressCells, base, providers).value)
    requires IsCpu(node) ==> !IsPsci(node)
    ensures EditNode(node', addressCells, base, fewer) ==
      if IsCpu(node) && !DomainsFound(node, providers, fewer) then InvalidData else Ok(node')
  {
    var edited := EditNode(node, addressCells, base, providers).value;
    EditNodeKind(node, addressCells, base, providers, false);
    DisabledCpu(edited, node');
    SamePropsIfSurvives(edited, node', addressCells, base);
    if IsCpu(node) {
      var id := Mpidr(node, addressCells).value;
      hide EditCpu, IsCpu, Mpidr, IsPsci, IsIdle, DomainsFound, Consistent, HasSlot, OwnProvider;
      EditCpuAgain(node, node', id, base, providers, fewer);
    }
  }

  lemma {:induction false} EditCpusAgain(nodes: seq<Node>, addressCells: u32, base: nat, providers: seq<Provider>, fewer: seq<Provider>)
    requires EditCpus(nodes, addressCells, base, providers).Ok? && Consistent(providers, fewer) && CpusSurvive(nodes)
    ensures
      var out := DisableForest(EditCpus(nodes, addressCells, base, providers).value);
      EditCpus(out, addressCells, base, fewer) == if AllFound(nodes, providers, fewer) then Ok(out) else InvalidData
    decreases |nodes|
  {
    hide EditCpus, EditNode, Mpidr, IsCpu, HasSlot, IsPsci, IsIdle, DomainsFound, Consistent;
    if nodes == [] {
      EditCpusNil(addressCells, base, providers);
      EditCpusNil(addressCells, base, fewer);
    } else {
      assert nodes[0] in nodes && forall cpu <- nodes[1..] :: cpu in nodes;
      EditCpusCons(nodes, addressCells, base, providers);
      EditCpusAgain(nodes[1..], addressCells, base, providers, fewer);
      EditNodeKind(nodes[0], addressCells, base, providers, false);
      var edited := EditCpus(nodes, addressCells, base, providers).value;
      var out := DisableForest(edited[1..]);
      assert AllFound(nodes, providers, fewer) <==>
        (IsCpu(nodes[0]) ==> DomainsFound(nodes[0], providers, fewer)) && AllFound(nodes[1..], providers, fewer) by {
        assert forall cpu <- nodes :: cpu == nodes[0] || cpu in nodes[1..];
      }
      if IsIdle(edited[0]) {
        assert !IsCpu(nodes[0]);
      } else {
        var head := Disable(edited[0]);
        assert DisableForest(edited) == [head] + out;
        EditNodeAgain(nodes[0], head, addressCells, base, providers, fewer);
        EditCpusOfCons(head, out, addressCells, base, fewer);
      }
    }
  }

  /// A second edit of the grafted tree.
  lemma EditTargetAgain(target: Node, base: u64, providers: seq<Provider>, fewer: seq<Provider>)
    requires EditTarget(target, base, providers).Ok? && Consistent(providers, fewer)
    requires CpusKept(target) && UniqueChildren(target.children)
    requires GraftParking(Disable(EditTarget(target, base, providers).value), base).Ok?
    ensures
      var t := GraftParking(Disable(EditTarget(target, base, providers).value), base).value;
      EditTarget(t, base, fewer) == if AllFound(Child(target, CPUS).value.children, providers, fewer) then Ok(t) else InvalidData
  {
    EditTargetShape(target, base, providers);
    var edited := EditTarget(target, base, providers).value;
    UniqueNames(target.children, edited.children);
    ChildDisabled(edited, CPUS);
    hide GraftParking, EditCpus, CpuCells, IsCpu, IsPsci, IsIdle, AllFound, Consistent;
    GraftParkingShape(Disable(edited), base);
    var t := GraftParking(Disable(edited), base).value;
    var cpus, cpus' := Child(target, CPUS).value, Child(edited, CPUS).value;
    var a := CpuCells(cpus).value;
    SamePropsKind(cpus, cpus');
    var now := Child(t, CPUS).value;
    assert now == Disable(cpus');
    DisabledCpuCells(cpus', now);
    assert CpusSurvive(cpus.children);
    EditCpusAgain(cpus.children, a, base, providers, fewer);
    var i := ChildIndex(t.children, CPUS).value;
    assert now.(children := now.children) == now && t.children[i := now] == t.children;
    assert t.(children := t.children) == t;
  }

  // Grafting the output again: PSCI and the parking page.

  lemma {:induction false} DisableShrinks(nodes: seq<Node>)
    ensures |DisableForest(nodes)| <= |nodes|
    decreases |nodes|
  {
    hide IsIdle, Disable;
    if nodes != [] {
      DisableShrinks(nodes[1..]);
    }
  }

  ghost predicate Stable(nodes: seq<Node>) { DisableForest(nodes) == nodes }

  lemma StableParts(xs: seq<Node>, ys: seq<Node>)
    ensures Stable(xs + ys) <==> Stable(xs) && Stable(ys)
  {
    DisableForestAppend(xs, ys);
    DisableShrinks(xs);
    DisableShrinks(ys);
    hide DisableForest;
    if Stable(xs + ys) {
      var x, y := DisableForest(xs), DisableForest(ys);
      assert |x| == |xs|;
      assert (x + y)[..|x|] == x && (xs + ys)[..|xs|] == xs;
      assert (x + y)[|x|..] == y && (xs + ys)[|xs|..] == ys;
    }
  }

  lemma StableOne(node: Node)
    ensures Stable([node]) <==> !IsIdle(node) && Disable(node) == node
  {
    hide IsIdle, Disable;
    assert [node][1..] == [];
    assert [Disable(node)] + [] == [Disable(node)];
    assert DisableForest([]) == [];
    assert [node] != [];
    assert Disable(node) == node <==> [Disable(node)] == [node] by {
      if [Disable(node)] == [node] { assert [Disable(node)][0] == [node][0]; }
    }
  }

  lemma InertLeafStable(node: Node)
    requires Inert(node) && node.children == []
    ensures Stable([node])
  {
    StableOne(node);
  }

  lemma StableNode(node: Node, children: seq<Node>)
    requires Disable(node) == node && Stable(children)
    ensures Disable(node.(children := children)) == node.(children := children)
  {
    var node' := node.(children := children);
    SamePropsKind(node, node');
    hide IsPsci, IsIdle;
  }

  lemma StableUpdate(nodes: seq<Node>, i: nat, child: Node)
    requires i < |nodes| && Stable(nodes) && Stable([child])
    ensures Stable(nodes[i := child]) && Stable([nodes[i]])
  {
    hide Stable;
    var xs, ys := nodes[..i], nodes[i + 1..];
    assert nodes == xs + ([nodes[i]] + ys) && nodes[i := child] == xs + ([child] + ys);
    StableParts(xs, [nodes[i]] + ys);
    StableParts([nodes[i]], ys);
    StableParts([child], ys);
    StableParts(xs, [child] + ys);
  }

  /// Adding the parking page leaves nothing for `disable_psci` to do.
  lemma ParkingStable(root: Node, base: u64)
    requires ValidBase(base) && Disable(root) == root && GraftParking(root, base).Ok?
    ensures Disable(GraftParking(root, base).value) == GraftParking(root, base).value
  {
    assert Stable(root.children);
    hide ReservedCells, CheckReservations, NewParking, NewReserved, Disable, Inert, RegRanges, WellOwned, Concerned, Stable;
    hide IsIdle;
    var root' := WithReserved(root).value;
    if Child(root, RESERVED_MEMORY).None? {
      NewReservedLaws(root);
      InertLeafStable(NewReserved(root).value);
      StableParts(root.children, [NewReserved(root).value]);
      StableNode(root, root'.children);
    }
    var i := ChildIndex(root'.children, RESERVED_MEMORY).value;
    var reserved := root'.children[i];
    var (a, z) := ReservedCells(root', reserved).value;
    if !CheckReservations(reserved.children, a, z, base, false).value {
      var parking := NewParking(base, a, z).value;
      NewParkingLaws(base, a, z);
      InertLeafStable(parking);
      StableMember(root'.children, i);
      StableParts(reserved.children, [parking]);
      var child := reserved.(children := reserved.children + [parking]);
      StableNode(reserved, child.children);
      SamePropsKind(reserved, child);
      StableOne(child);
      StableUpdate(root'.children, i, child);
      StableNode(root', root'.children[i := child]);
    }
  }

  lemma StableMember(nodes: seq<Node>, i: nat)
    requires i < |nodes| && Stable(nodes)
    ensures !IsIdle(nodes[i]) && Disable(nodes[i]) == nodes[i] && Stable(nodes[i].children)
  {
    var xs, ys := nodes[..i], nodes[i + 1..];
    assert nodes == xs + ([nodes[i]] + ys);
    StableParts(xs, [nodes[i]] + ys);
    StableParts([nodes[i]], ys);
    StableOne(nodes[i]);
    assert Disable(nodes[i]).children == DisableForest(nodes[i].children);
  }

  lemma ParkingAgain(root: Node, base: u64)
    requires ValidBase(base) && GraftParking(root, base).Ok?
    ensures GraftParking(GraftParking(root, base).value, base) == Ok(GraftParking(root, base).value)
  {
    ParkingResult(root, base);
    hide CheckReservations, ReservedCells, NewParking, NewReserved;
  }

  /// Grafting a grafted tree that kept its contract changes nothing, exactly when the providers
  /// of the power domains its CPUs kept were not themselves removed; otherwise it is refused.
  lemma GraftTargetAgain(target: Node, base: u64)
    requires WfTree(target) && ValidBase(base) && GraftTarget(target, base).Ok? && CpusKept(target)
    ensures GraftTarget(GraftTarget(target, base).value, base) ==
      if ProvidersKept(target) then Ok(GraftTarget(target, base).value) else InvalidData
  {
    var providers := Providers(target).value;
    var edited := EditTarget(target, base, providers).value;
    var root := Disable(edited);
    var t := GraftTarget(target, base).value;
    assert GraftParking(root, base) == Ok(t);
    hide EditTarget, GraftParking, Disable, CpusKept, AllFound, Consistent, KeptProviders;
    ProvidersAfterGraft(target, base);
    var kept := KeptProviders(target, false).value;
    EditTargetShape(target, base, providers);
    EditTargetAgain(target, base, providers, kept);
    DisableTwice(edited);
    ParkingStable(root, base);
    ParkingAgain(root, base);
  }

  /// Grafting a grafted tree again gives that tree exactly when no CPU was lost and the providers of
  /// the power domains that its CPUs kept were not removed; in every other case it is refused.
  lemma GraftCheckedAgain(target: Node, base: u64)
    requires WfTree(target) && ValidBase(base) && GraftChecked(target, base).Ok?
    ensures
      var t := GraftChecked(target, base);
      GraftChecked(t.value, base) == if CpusKept(target) && ProvidersKept(target) then t else InvalidData
  {
    hide GraftParking, EditTarget, CpusKept, CpuIds, Disable, Providers, ProvidersKept, HasSpinTableCpu, CpusOwnSlots;
    var providers := Providers(target).value;
    assert HasFourCpus(target) && EditTarget(target, base, providers).Ok?;
    hide GraftTarget;
    CpusAfterGraft(target, base, providers);
    GraftTargetIsParking(target, base, providers);
    if CpusKept(target) {
      GraftTargetAgain(target, base);
    }
  }

  lemma GraftTargetIsParking(target: Node, base: u64, providers: seq<Provider>)
    requires Providers(target) == Ok(providers) && EditTarget(target, base, providers).Ok?
    ensures GraftTarget(target, base) == GraftParking(Disable(EditTarget(target, base, providers).value), base)
  {
  }

  /// Some CPU of a grafted tree is started through the spin table exactly when one was kept; if the
  /// tree claims a page at all, it is the one that was grafted.
  lemma GraftedClaims(target: Node, base: u64)
    requires WfTree(target) && ValidBase(base) && GraftChecked(target, base).Ok?
    ensures
      var t := GraftChecked(target, base).value;
      && (HasSpinTableCpu(t) <==> SomeCpuKept(target))
      && (OwnedBase(t).Ok? ==> OwnedBase(t) == Ok(base))
  {
    var providers := Providers(target).value;
    hide GraftParking, EditTarget, CpusKept, CpuIds, Disable, Providers, HasSpinTableCpu, CpusOwnSlots, OwnedBase, SomeCpuKept;
    assert HasFourCpus(target) && EditTarget(target, base, providers).Ok?;
    hide GraftTarget;
    GraftTargetIsParking(target, base, providers);
    CpusAfterGraft(target, base, providers);
    OnePage(Disable(EditTarget(target, base, providers).value), base);
  }

  lemma OnePage(root: Node, base: u64)
    requires ValidBase(base) && GraftParking(root, base).Ok?
    ensures OwnedBase(GraftParking(root, base).value).Ok? ==> OwnedBase(GraftParking(root, base).value) == Ok(base)
  {
    hide GraftParking, CheckReservations, GetProp, Bytes.Ascii, WellOwned, IsContract, DecodeReg, ReservedCells;
    ParkingResult(root, base);
    var t := GraftParking(root, base).value;
    var reserved := Child(t, RESERVED_MEMORY).value;
    var (a, z) := ReservedCells(t, reserved).value;
    CheckedContracts(reserved.children, a, z, base, false);
    var owned := Contracts(reserved.children)[0];
    if Get(owned, PROP_REG).Some? {
      assert RegRanges(owned, a, z).value == [Range(base, base + SPIN_TABLE_BYTES)];
    }
  }
}
