/// What `graft_spin_table` of `src/kexec.rs` makes of the destination tree, node by node and property by
/// property.
module SpinMeaning {
  import opened Bytes
  import opened Handoff
  import opened Tree
  import opened Dtb
  import opened Contract
  import opened Reserved
  import Ranges
  import opened ReservedMeaning
  import opened Nodes
  import opened Paths
  import opened WordMeaning
  import opened DomainMeaning
  import opened Psci
  import opened SpinTable
  import opened SpinGraft
  import opened SpinBlob

  // The kinds of nodes.

  /// A node of the PSCI firmware interface.
  ghost predicate IsFirmware(node: Node) {
    var compatible := Get(node, Ascii("compatible"));
    compatible.Some? && (HasWord(compatible.value, Ascii("arm,psci")) || HasWord(compatible.value, Ascii("arm,psci-0.2"))
                         || HasWord(compatible.value, Ascii("arm,psci-1.0")))
  }

  /// An idle state that is entered through it.
  predicate IsIdleState(node: Node) {
    Get(node, Ascii("entry-method")) == Some(Ascii("psci") + [0]) || Get(node, Ascii("arm,psci-suspend-param")).Some?
  }

  /// An enabled CPU.
  predicate IsCore(node: Node) {
    Get(node, Ascii("device_type")) == Some(Ascii("cpu") + [0]) && IsEnabled(node)
  }

  lemma PsciTexts()
    ensures NulFree(Ascii("arm,psci")) && NulFree(Ascii("arm,psci-0.2")) && NulFree(Ascii("arm,psci-1.0"))
  {
  }

  lemma FirmwareMeaning(node: Node)
    ensures IsPsci(node) <==> IsFirmware(node)
  {
    PsciTexts();
    var compatible := Get(node, Ascii("compatible"));
    if compatible.Some? {
      ItemMeaning(compatible.value, Ascii("arm,psci"));
      ItemMeaning(compatible.value, Ascii("arm,psci-0.2"));
      ItemMeaning(compatible.value, Ascii("arm,psci-1.0"));
    }
    hide Bytes.Ascii, GetProp, Items, HasWord;
  }

  lemma IdleMeaning(node: Node)
    ensures IsIdle(node) <==> IsIdleState(node)
  {
    hide Bytes.Ascii, GetProp;
  }

  lemma CoreMeaning(node: Node)
    ensures IsCpu(node) <==> IsCore(node)
  {
    EnabledMeaning(node);
    hide Bytes.Ascii, GetProp, Enabled, IsEnabled;
  }

  // Disabling PSCI.

  /// A node after PSCI is disabled: only the status of firmware nodes changes.
  ghost predicate DisabledIs(now: Node, was: Node) {
    && now.name == was.name
    && (IsFirmware(was) ==> Get(now, Ascii("status")) == Some(Ascii("disabled") + [0]))
    && forall name: bytes :: name != Ascii("status") || !IsFirmware(was) ==> Get(now, name) == Get(was, name)
  }

  /// A node on the way to this path, the end included, is an idle state.
  ghost predicate Removed(root: Node, path: seq<bytes>) {
    exists k :: 0 < k <= |path| && NodeAt(root, path[..k]).Some? && IsIdleState(NodeAt(root, path[..k]).value)
  }

  lemma DisabledNode(node: Node)
    ensures DisabledIs(Disable(node), node)
  {
    FirmwareMeaning(node);
    hide Bytes.Ascii, GetProp, IsPsci, IsFirmware, SetProp;
    forall name: bytes {
      GetSetProp(node.props, PROP_STATUS, DISABLED, name);
    }
  }

  lemma RemovedStep(root: Node, path: seq<bytes>)
    requires path != [] && Child(root, path[0]).Some?
    ensures Removed(root, path) <==> IsIdleState(Child(root, path[0]).value) || Removed(Child(root, path[0]).value, path[1..])
  {
    hide IsIdleState, Child;
    var child := Child(root, path[0]).value;
    assert NodeAt(root, path[..1]) == Some(child) by {
      assert path[..1][1..] == [] && NodeAt(child, []) == Some(child);
    }
    forall k | 0 < k <= |path| ensures NodeAt(root, path[..k]) == NodeAt(child, path[1..][..k - 1]) {
      assert path[..k][1..] == path[1..][..k - 1];
    }
    if Removed(child, path[1..]) {
      var k :| 0 < k <= |path[1..]| && NodeAt(child, path[1..][..k]).Some? && IsIdleState(NodeAt(child, path[1..][..k]).value);
      assert NodeAt(root, path[..k + 1]).Some? && IsIdleState(NodeAt(root, path[..k + 1]).value);
    }
    if Removed(root, path) {
      var k :| 0 < k <= |path| && NodeAt(root, path[..k]).Some? && IsIdleState(NodeAt(root, path[..k]).value);
      if k > 1 {
        assert NodeAt(child, path[1..][..k - 1]).Some?;
      }
    }
  }

  /// Every node that is left after PSCI is disabled, and which ones are gone.
  lemma {:induction false} DisabledMeaning(root: Node, path: seq<bytes>, room: nat)
    requires WfNode(root, room)
    ensures NodeAt(Disable(root), path).Some? <==> NodeAt(root, path).Some? && !Removed(root, path)
    ensures NodeAt(Disable(root), path).Some? ==> DisabledIs(NodeAt(Disable(root), path).value, NodeAt(root, path).value)
    decreases |path|
  {
    hide DisabledIs, IsIdleState, Disable, Removed;
    DisabledNode(root);
    if path == [] {
      NothingRemoved(root);
    } else {
      ChildDisabled(root, path[0]);
      var child := Child(root, path[0]);
      if child.Some? {
        IdleMeaning(child.value);
        RemovedStep(root, path);
        ChildWf(root, path[0], room);
        DisabledMeaning(child.value, path[1..], room - 1);
      }
    }
  }

  lemma NothingRemoved(root: Node)
    ensures !Removed(root, [])
  {
  }

  lemma ChildWf(root: Node, name: bytes, room: nat)
    requires WfNode(root, room) && Child(root, name).Some?
    ensures room > 0 && WfNode(Child(root, name).value, room - 1)
  {
    WfForestAt(root.children, ChildIndex(root.children, name).value, room - 1);
  }

  // The CPUs.

  /// The affinity of a CPU, in one or two cells.
  predicate AffinityIs(cpu: Node, cells: u32, id: nat) {
    var reg := Get(cpu, Ascii("reg"));
    && reg.Some? && 1 <= cells <= 2 && |reg.value| == 4 * cells
    && id == (if |reg.value| == 4 then De32(reg.value) else De64(reg.value))
    && id < 0x100_0000_0000 && id / 0x100_0000 % 0x100 == 0
  }

  lemma AffinityMeaning(cpu: Node, cells: u32, id: nat)
    ensures Mpidr(cpu, cells) == Ok(id) <==> AffinityIs(cpu, cells, id)
  {
    hide Bytes.Ascii, Bytes.De32, Bytes.De64, GetProp;
  }

  /// A CPU that was edited: it waits in its slot of the page, has no idle states, and of its power domains
  /// those outside PSCI.
  ghost predicate CoreIs(now: Node, was: Node, base: nat, id: nat, providers: seq<Provider>) {
    && now.name == was.name && now.children == was.children
    && Get(now, Ascii("enable-method")) == Some(Ascii("spin-table") + [0])
    && Get(now, Ascii("cpu-release-addr")) == Some(Be64((base + 0x400 + id * 0x80) % U64_LIMIT))
    && Get(now, Ascii("cpu-idle-states")) == None
    && (if Get(was, Ascii("power-domains")).None? then
          && Get(now, Ascii("power-domains")) == None
          && Get(now, Ascii("power-domain-names")) == Get(was, Ascii("power-domain-names"))
        else
          exists tuples: seq<bytes>, keep: seq<bool>, left: seq<bytes>, names: seq<bytes>, names': seq<bytes> ::
            DomainsLeft(was, now, providers, tuples, keep, left, names, names'))
    && forall name: bytes :: !OfCore(name) ==> Get(now, name) == Get(was, name)
  }

  /// The properties of a CPU that change.
  predicate OfCore(name: bytes) {
    || name == Ascii("enable-method") || name == Ascii("cpu-release-addr") || name == Ascii("cpu-idle-states")
    || name == Ascii("power-domains") || name == Ascii("power-domain-names")
  }

  lemma FiveNames()
    ensures |Ascii("enable-method")| == 13 && |Ascii("cpu-release-addr")| == 16 && |Ascii("cpu-idle-states")| == 15
    ensures |Ascii("power-domains")| == 13 && |Ascii("power-domain-names")| == 18
    ensures Ascii("enable-method")[0] == 0x65 && Ascii("power-domains")[0] == 0x70
  {
  }

  lemma CoreEdited(cpu: Node, id: nat, base: nat, providers: seq<Provider>)
    requires EditCpu(cpu, id, base, providers).Ok?
    ensures CoreIs(EditCpu(cpu, id, base, providers).value, cpu, base, id, providers)
  {
    hide Bytes.Ascii, Bytes.Be64, GetProp, SetProp, RemoveProp, Tuples, RetainedNames, Retained, SetDomains;
    FiveNames();
    var now, slot := EditCpu(cpu, id, base, providers).value, SlotCpu(cpu, id, base);
    forall name: bytes ensures !OfCore(name) ==> Get(now, name) == Get(cpu, name) {
      EditCpuGet(cpu, id, base, providers, name);
    }
    EditCpuGet(cpu, id, base, providers, Ascii("enable-method"));
    EditCpuGet(cpu, id, base, providers, Ascii("cpu-release-addr"));
    EditCpuGet(cpu, id, base, providers, Ascii("cpu-idle-states"));
    SlotCpuGet(cpu, id, base, Ascii("power-domains"));
    SlotCpuGet(cpu, id, base, Ascii("power-domain-names"));
    if Get(cpu, Ascii("power-domains")).Some? {
      var tuples, keep, left, names, names' := RemovedMeaning(slot, providers);
      SameDomains(slot, cpu, now, providers, tuples, keep, left, names, names');
    }
  }

  lemma SameDomains(slot: Node, cpu: Node, now: Node, providers: seq<Provider>,
                    tuples: seq<bytes>, keep: seq<bool>, left: seq<bytes>, names: seq<bytes>, names': seq<bytes>)
    requires DomainsLeft(slot, now, providers, tuples, keep, left, names, names')
    requires Get(slot, Ascii("power-domains")) == Get(cpu, Ascii("power-domains"))
    requires Get(slot, Ascii("power-domain-names")) == Get(cpu, Ascii("power-domain-names"))
    ensures DomainsLeft(cpu, now, providers, tuples, keep, left, names, names')
  {
    hide GetProp, Bytes.Ascii, KeptInOrder, AreTuples, Lists, ValueIs, Flat, WithNuls;
  }

  lemma {:induction false} EditedAt(nodes: seq<Node>, cells: u32, base: nat, providers: seq<Provider>, i: nat)
    requires EditCpus(nodes, cells, base, providers).Ok? && i < |nodes|
    ensures
      var edited := EditCpus(nodes, cells, base, providers).value;
      && |edited| == |nodes| && EditNode(nodes[i], cells, base, providers) == Ok(edited[i]) && edited[i].name == nodes[i].name
    decreases |nodes|
  {
    EditCpusCons(nodes, cells, base, providers);
    EditNodeKind(nodes[0], cells, base, providers, false);
    hide EditCpus, EditNode;
    if |nodes| > 1 {
      EditedAt(nodes[1..], cells, base, providers, if i > 0 then i - 1 else 0);
    } else {
      EditCpusNil(cells, base, providers);
    }
  }

  /// The cells of the affinities: those of /cpus, two when it does not say.
  predicate CoreCells(target: Node, cells: u32) {
    var cpus := Child(target, Ascii("cpus"));
    && cpus.Some? && CountOf(cpus.value, Ascii("#address-cells"), 2) == Some(cells)
    && CountOf(cpus.value, Ascii("#size-cells"), 0) == Some(0)
  }

  predicate IsCorePath(path: seq<bytes>) { |path| == 2 && path[0] == Ascii("cpus") }

  /// A node after the CPUs are edited.
  ghost predicate EditedIs(now: Node, was: Node, target: Node, path: seq<bytes>, base: nat, providers: seq<Provider>) {
    if IsCorePath(path) && IsCore(was)
    then exists cells: u32, id: nat :: CoreCells(target, cells) && AffinityIs(was, cells, id) && CoreIs(now, was, base, id, providers)
    else now.name == was.name && now.props == was.props
  }

  lemma EditedNode(was: Node, now: Node, target: Node, name: bytes, cells: u32, base: nat, providers: seq<Provider>)
    requires EditNode(was, cells, base, providers) == Ok(now) && CoreCells(target, cells)
    ensures EditedIs(now, was, target, [Ascii("cpus"), name], base, providers) && now.children == was.children
  {
    hide IsCpu, EditCpu, Mpidr, CoreCells, AffinityIs, CoreIs, IsCore, Bytes.Ascii;
    CoreMeaning(was);
    EditNodeKind(was, cells, base, providers, false);
    if IsCpu(was) {
      var id := Mpidr(was, cells).value;
      AffinityMeaning(was, cells, id);
      CoreEdited(was, id, base, providers);
    }
  }

  lemma SameBelow(x: Node, y: Node, path: seq<bytes>)
    requires x.children == y.children && path != []
    ensures NodeAt(x, path) == NodeAt(y, path)
  {
  }

  lemma CellsMeaning(target: Node, cpus: Node)
    requires Child(target, CPUS) == Some(cpus) && CpuCells(cpus).Ok?
    ensures CoreCells(target, CpuCells(cpus).value)
  {
    hide Bytes.Ascii, GetProp, Child, Bytes.De32;
  }

  lemma EditedMeaning(target: Node, base: nat, providers: seq<Provider>, path: seq<bytes>)
    requires EditTarget(target, base, providers).Ok?
    ensures
      var now, was := NodeAt(EditTarget(target, base, providers).value, path), NodeAt(target, path);
      && (now.Some? <==> was.Some?)
      && (now.Some? ==> EditedIs(now.value, was.value, target, path, base, providers))
  {
    hide EditCpus, CpuCells, Bytes.Ascii, EditedIs, Child;
    EditTargetShape(target, base, providers);
    var edited := EditTarget(target, base, providers).value;
    var cpus := Child(target, CPUS).value;
    var cells := CpuCells(cpus).value;
    CellsMeaning(target, cpus);
    if path == [] || path[0] != CPUS || |path| == 1 {
      PlainPath(target, edited, path, base, providers);
      if path != [] {
        EditedChild(target, base, providers, path[0]);
        if |path| == 1 {
          assert path[1..] == [];
        }
      }
    } else {
      var children := EditCpus(cpus.children, cells, base, providers).value;
      var i := ChildIndex(cpus.children, path[1]);
      EditedNames(cpus, children, base, providers, cells, path[1]);
      BelowCpus(target, cpus, path);
      BelowCpus(edited, cpus.(children := children), path);
      if i.Some? {
        EditedAt(cpus.children, cells, base, providers, i.value);
        EditedNode(cpus.children[i.value], children[i.value], target, path[1], cells, base, providers);
        if |path| > 2 {
          SameBelow(children[i.value], cpus.children[i.value], path[2..]);
          PlainPath(target, edited, path, base, providers);
        } else {
          assert path == [CPUS, path[1]] && path[2..] == [];
        }
      }
    }
  }

  /// Off the CPUs a node that keeps its properties is as it should be.
  lemma PlainPath(target: Node, edited: Node, path: seq<bytes>, base: nat, providers: seq<Provider>)
    ensures !IsCorePath(path) ==> forall now: Node, was: Node ::
      now.name == was.name && now.props == was.props ==> EditedIs(now, was, target, path, base, providers)
  {
    hide Bytes.Ascii, CoreIs, IsCore, AffinityIs, CoreCells;
  }

  lemma EditedChild(target: Node, base: nat, providers: seq<Provider>, name: bytes)
    requires EditTarget(target, base, providers).Ok?
    ensures
      var now, was := Child(EditTarget(target, base, providers).value, name), Child(target, name);
      && (name != CPUS ==> now == was)
      && (now.Some? <==> was.Some?) && (now.Some? ==> now.value.name == was.value.name && now.value.props == was.value.props)
  {
    hide EditCpus, CpuCells, Bytes.Ascii;
    var i := ChildIndex(target.children, CPUS).value;
    var cpus := target.children[i];
    ChildUpdated(target, i, cpus.(children := EditCpus(cpus.children, CpuCells(cpus).value, base, providers).value), name);
  }

  lemma EditedNames(cpus: Node, children: seq<Node>, base: nat, providers: seq<Provider>, cells: u32, name: bytes)
    requires EditCpus(cpus.children, cells, base, providers) == Ok(children)
    ensures |children| == |cpus.children| && ChildIndex(children, name) == ChildIndex(cpus.children, name)
  {
    hide EditCpus, EditNode;
    if cpus.children == [] {
      EditCpusNil(cells, base, providers);
    } else {
      EditedAt(cpus.children, cells, base, providers, 0);
    }
    forall i | 0 <= i < |cpus.children| ensures children[i].name == cpus.children[i].name {
      EditedAt(cpus.children, cells, base, providers, i);
    }
  }

  lemma BelowCpus(root: Node, cpus: Node, path: seq<bytes>)
    requires |path| >= 2 && path[0] == CPUS && Child(root, CPUS) == Some(cpus)
    ensures NodeAt(root, path) ==
      var i := ChildIndex(cpus.children, path[1]);
      if i.None? then None else NodeAt(cpus.children[i.value], path[2..])
  {
    hide Bytes.Ascii, ChildIndex;
    assert path[1..][1..] == path[2..];
  }

  // The reservation of the page.

  /// Every node of the tree is still there after the page is reserved, and no other but the page's own.
  lemma ReservedMeaningAt(root: Node, base: u64, path: seq<bytes>)
    requires GraftParking(root, base).Ok?
    ensures
      var now, was := NodeAt(GraftParking(root, base).value, path), NodeAt(root, path);
      && (was.Some? ==> now.Some? && now.value.name == was.value.name && now.value.props == was.value.props)
      && (now.Some? && was.None? ==> path[0] == Ascii("reserved-memory"))
  {
    hide ReservedCells, CheckReservations, NewParking, NewReserved, Bytes.Ascii;
    if path != [] {
      if Child(root, RESERVED_MEMORY).None? {
        NewReservedName(root);
      }
      ReservedChild(root, base, path[0]);
      if path[0] == RESERVED_MEMORY && Child(root, RESERVED_MEMORY).Some? && |path| > 1 {
        ReservedGrandchild(root, base, path[1]);
        var now, was := Child(GraftParking(root, base).value, RESERVED_MEMORY).value, Child(root, RESERVED_MEMORY).value;
        assert path[1..][1..] == path[2..];
        assert NodeAt(was, path[1..]) == if Child(was, path[1]).None? then None else NodeAt(Child(was, path[1]).value, path[2..]);
        assert NodeAt(now, path[1..]) == if Child(now, path[1]).None? then None else NodeAt(Child(now, path[1]).value, path[2..]);
      }
    }
  }

  lemma ReservedChild(root: Node, base: u64, name: bytes)
    requires GraftParking(root, base).Ok?
    ensures
      var now, was := Child(GraftParking(root, base).value, name), Child(root, name);
      && (name != RESERVED_MEMORY ==> now == was)
      && (was.Some? ==> now.Some? && now.value.name == was.value.name && now.value.props == was.value.props)
  {
    hide ReservedCells, CheckReservations, NewParking, NewReserved, Bytes.Ascii;
    var root' := WithReserved(root).value;
    if Child(root, RESERVED_MEMORY).None? {
      NewReservedName(root);
      ChildAppended(root, NewReserved(root).value, name);
    }
    var i := ChildIndex(root'.children, RESERVED_MEMORY).value;
    var reserved := root'.children[i];
    var (a, z) := ReservedCells(root', reserved).value;
    if !CheckReservations(reserved.children, a, z, base, false).value {
      ChildUpdated(root', i, reserved.(children := reserved.children + [NewParking(base, a, z).value]), name);
    }
  }

  lemma ReservedGrandchild(root: Node, base: u64, name: bytes)
    requires GraftParking(root, base).Ok? && Child(root, RESERVED_MEMORY).Some?
    ensures
      var now, was := Child(GraftParking(root, base).value, RESERVED_MEMORY), Child(root, RESERVED_MEMORY).value;
      now.Some? && (Child(was, name).Some? ==> Child(now.value, name) == Child(was, name))
  {
    hide ReservedCells, CheckReservations, NewParking, Bytes.Ascii;
    var i := ChildIndex(root.children, RESERVED_MEMORY).value;
    var reserved := root.children[i];
    var (a, z) := ReservedCells(root, reserved).value;
    if !CheckReservations(reserved.children, a, z, base, false).value {
      var parking := NewParking(base, a, z).value;
      ChildUpdated(root, i, reserved.(children := reserved.children + [parking]), RESERVED_MEMORY);
      if Child(reserved, name).Some? {
        AppendKeeps(reserved, parking, name);
      }
    }
  }

  lemma AppendKeeps(node: Node, last: Node, name: bytes)
    requires Child(node, name).Some?
    ensures Child(node.(children := node.children + [last]), name) == Child(node, name)
  {
    var i, j := ChildIndex(node.children, name).value, ChildIndex(node.children + [last], name);
    assert (node.children + [last])[i] == node.children[i];
    assert j.Some? && j.value <= i;
  }

  /// A node that claims the contract.
  ghost predicate Claims(node: Node) {
    var compatible := Get(node, Ascii("compatible"));
    compatible.Some? && HasStart(compatible.value, Ascii("pocketboot,spin-table-"))
  }

  /// The reservation of exactly this page, as the contract wants it.
  ghost predicate ReservesPage(node: Node, a: u32, z: u32, base: nat) {
    var compatible, reg := Get(node, Ascii("compatible")), Get(node, Ascii("reg"));
    && IsEnabled(node) && compatible.Some? && HasWord(compatible.value, Ascii("pocketboot,spin-table-v1"))
    && Get(node, Ascii("no-map")) == Some([]) && Get(node, Ascii("reusable")).None?
    && reg.Some? && GoodReg(reg.value, a, z) && forall x: nat :: RegHolds(reg.value, a, z, x) <==> base <= x < base + 0x1000
  }

  /// A reservation that has nothing to do with the page.
  ghost predicate OffPage(node: Node, a: u32, z: u32, base: nat) {
    var reg := Get(node, Ascii("reg"));
    && !Claims(node)
    && (reg.Some? ==> GoodReg(reg.value, a, z) && forall x: nat :: base <= x < base + 0x1000 ==> !RegHolds(reg.value, a, z, x))
  }

  /// /reserved-memory: enabled, one-to-one, in the cells of the root, with one reservation of the page.
  ghost predicate PageReserved(root: Node, base: nat) {
    var reserved := Child(root, Ascii("reserved-memory"));
    && reserved.Some? && IsEnabled(reserved.value) && Get(reserved.value, Ascii("ranges")) == Some([])
    && exists a: u32, z: u32 ::
         && 1 <= a <= 2 && 1 <= z <= 2
         && CountOf(reserved.value, Ascii("#address-cells"), 0) == CountOf(root, Ascii("#address-cells"), 2) == Some(a)
         && CountOf(reserved.value, Ascii("#size-cells"), 0) == CountOf(root, Ascii("#size-cells"), 1) == Some(z)
         && PageAmong(reserved.value.children, a, z, base)
  }

  ghost predicate PageAmong(nodes: seq<Node>, a: u32, z: u32, base: nat) {
    exists k :: 0 <= k < |nodes| && ReservesPage(nodes[k], a, z, base)
      && forall j :: 0 <= j < |nodes| && j != k ==> OffPage(nodes[j], a, z, base)
  }

  lemma ContractTexts()
    ensures NulFree(Ascii("pocketboot,spin-table-")) && NulFree(Ascii("pocketboot,spin-table-v1"))
  {
  }

  lemma ClaimsMeaning(node: Node)
    ensures IsContract(node) <==> Claims(node)
  {
    ContractTexts();
    var compatible := Get(node, Ascii("compatible"));
    if compatible.Some? {
      ItemStartMeaning(compatible.value, Ascii("pocketboot,spin-table-"));
    }
    hide Bytes.Ascii, GetProp, Items, HasStart;
  }

  lemma RangesMeaning(node: Node, a: u32, z: u32, base: nat)
    requires RegRanges(node, a, z).Ok?
    ensures
      var reg := Get(node, Ascii("reg"));
      && (reg.Some? ==> GoodReg(reg.value, a, z))
      && (Overlaps(RegRanges(node, a, z).value, base) <==>
            reg.Some? && exists x: nat :: base <= x < base + 0x1000 && RegHolds(reg.value, a, z, x))
      && (RegRanges(node, a, z).value == [Range(base, base + SPIN_TABLE_BYTES)] ==>
            reg.Some? && forall x: nat :: RegHolds(reg.value, a, z, x) <==> base <= x < base + 0x1000)
  {
    var reg, ranges := Get(node, Ascii("reg")), RegRanges(node, a, z).value;
    if reg.Some? {
      RegMeaning(reg.value, a, z);
      OverlapMeaning(ranges, base);
      if ranges == [Range(base, base + 0x1000)] {
        forall x: nat ensures RegHolds(reg.value, a, z, x) <==> base <= x < base + 0x1000 {
          Ranges.CoversOne(ranges[0], x);
        }
      }
    }
    hide Bytes.Ascii, GetProp, DecodeReg, GoodReg, RegHolds;
  }

  lemma OverlapMeaning(ranges: seq<Range>, base: nat)
    requires forall r <- ranges :: r.start < r.end
    ensures Overlaps(ranges, base) <==> exists x: nat :: base <= x < base + 0x1000 && Ranges.Covers(ranges, x)
  {
    if r :| r in ranges && r.start < base + SPIN_TABLE_BYTES && base < r.end {
      var x := if r.start < base then base else r.start;
      assert Ranges.Contains(r, x);
      assert Ranges.Covers(ranges, x);
    }
    if x: nat :| base <= x < base + 0x1000 && Ranges.Covers(ranges, x) {
      var r :| r in ranges && Ranges.Contains(r, x);
    }
  }

  lemma ParkedMeaning(node: Node, ranges: seq<Range>, a: u32, z: u32, base: nat)
    requires RegRanges(node, a, z) == Ok(ranges)
    ensures !Concerned(node, ranges, base) ==> OffPage(node, a, z, base)
    ensures IsParking(node, ranges, base) ==> ReservesPage(node, a, z, base)
  {
    ContractTexts();
    ClaimsMeaning(node);
    EnabledMeaning(node);
    RangesMeaning(node, a, z, base);
    var compatible := Get(node, Ascii("compatible"));
    if compatible.Some? {
      ItemMeaning(compatible.value, Ascii("pocketboot,spin-table-v1"));
    }
    hide Bytes.Ascii, GetProp, Items, HasStart, HasWord, DecodeReg, GoodReg, RegHolds, ParkingName, IsContract, Claims, Enabled, IsEnabled,
      RegRanges, Overlaps;
  }

  lemma {:induction false} CheckedMeaning(nodes: seq<Node>, a: u32, z: u32, base: nat, already: bool)
    requires CheckReservations(nodes, a, z, base, already) == Ok(true)
    ensures already ==> forall n <- nodes :: OffPage(n, a, z, base)
    ensures !already ==> PageAmong(nodes, a, z, base)
    decreases |nodes|
  {
    hide RegRanges, Concerned, IsParking, OffPage, ReservesPage;
    if nodes != [] {
      var ranges, rest := RegRanges(nodes[0], a, z).value, nodes[1..];
      ParkedMeaning(nodes[0], ranges, a, z, base);
      if !Concerned(nodes[0], ranges, base) {
        CheckedMeaning(rest, a, z, base, already);
        assert forall n <- nodes :: n == nodes[0] || n in rest;
        if !already {
          var k :| 0 <= k < |rest| && ReservesPage(rest[k], a, z, base)
            && forall j :: 0 <= j < |rest| && j != k ==> OffPage(rest[j], a, z, base);
          LaterPage(nodes, k, a, z, base);
        }
      } else {
        CheckedMeaning(rest, a, z, base, true);
        FirstPage(nodes, a, z, base);
      }
    }
  }

  lemma LaterPage(nodes: seq<Node>, k: nat, a: u32, z: u32, base: nat)
    requires nodes != [] && k < |nodes[1..]| && OffPage(nodes[0], a, z, base) && ReservesPage(nodes[1..][k], a, z, base)
    requires forall j :: 0 <= j < |nodes[1..]| && j != k ==> OffPage(nodes[1..][j], a, z, base)
    ensures PageAmong(nodes, a, z, base)
  {
    hide OffPage, ReservesPage;
    forall j | 0 <= j < |nodes| && j != k + 1 ensures OffPage(nodes[j], a, z, base) {
      if j > 0 {
        assert nodes[j] == nodes[1..][j - 1];
      }
    }
    assert ReservesPage(nodes[k + 1], a, z, base);
  }

  lemma FirstPage(nodes: seq<Node>, a: u32, z: u32, base: nat)
    requires nodes != [] && ReservesPage(nodes[0], a, z, base) && forall n <- nodes[1..] :: OffPage(n, a, z, base)
    ensures PageAmong(nodes, a, z, base)
  {
    hide OffPage, ReservesPage;
    forall j | 0 <= j < |nodes| && j != 0 ensures OffPage(nodes[j], a, z, base) {
      assert nodes[j] == nodes[1..][j - 1];
    }
  }

  lemma PageMeaning(root: Node, base: u64)
    requires ValidBase(base) && GraftParking(root, base).Ok?
    ensures PageReserved(GraftParking(root, base).value, base)
  {
    var t := GraftParking(root, base).value;
    ParkingResult(root, base);
    hide GraftParking, CheckReservations, Bytes.Ascii, GetProp, PageAmong, Child, Contracts, Bytes.De32;
    var reserved := Child(t, RESERVED_MEMORY).value;
    var (a, z) := ReservedCells(t, reserved).value;
    EnabledMeaning(reserved);
    CheckedMeaning(reserved.children, a, z, base, false);
  }

  // The whole graft.

  /// A node of the grafted tree: the CPU edited, and then PSCI disabled.
  ghost predicate NodeIs(now: Node, was: Node, target: Node, path: seq<bytes>, base: nat, providers: seq<Provider>) {
    exists edited: Node :: EditedIs(edited, was, target, path, base, providers) && now.name == edited.name
      && (IsFirmware(edited) ==> Get(now, Ascii("status")) == Some(Ascii("disabled") + [0]))
      && forall name: bytes :: name != Ascii("status") || !IsFirmware(edited) ==> Get(now, name) == Get(edited, name)
  }

  /// What the graft makes of the node at a path: it is gone when an idle state is on the way, and otherwise
  /// it has its properties, but for those of CPUs and the status of PSCI.
  lemma GraftedMeaning(target: Node, base: u64, path: seq<bytes>)
    requires WfTree(target) && Printable(target) && ValidBase(base) && GraftTarget(target, base).Ok?
    ensures Providers(target).Ok? && PageReserved(GraftTarget(target, base).value, base)
    ensures
      var now, was := NodeAt(GraftTarget(target, base).value, path), NodeAt(target, path);
      && (was.Some? && !Removed(target, path) ==>
            now.Some? && NodeIs(now.value, was.value, target, path, base, Providers(target).value))
      && (now.Some? && (path == [] || path[0] != Ascii("reserved-memory")) ==> was.Some? && !Removed(target, path))
  {
    var providers := Providers(target).value;
    var edited := EditTarget(target, base, providers).value;
    hide EditTarget, GraftParking, Disable, Providers, WfNode, NodeIs, EditedIs, Removed, PageReserved, DisabledIs, Bytes.Ascii;
    EditTargetGood(target, base, providers) by { IsGood(target); }
    GoodWf(edited);
    EditedMeaning(target, base, providers, path);
    RemovedSame(target, edited, base, providers, path);
    DisabledMeaning(edited, path, MAX_DEPTH);
    ReservedMeaningAt(Disable(edited), base, path);
    PageMeaning(Disable(edited), base);
    if NodeAt(target, path).Some? && !Removed(target, path) {
      NodeAfter(NodeAt(GraftTarget(target, base).value, path).value, NodeAt(Disable(edited), path).value, NodeAt(edited, path).value,
                NodeAt(target, path).value, target, path, base, providers);
    }
  }

  lemma NodeAfter(now: Node, disabled: Node, edited: Node, was: Node, target: Node, path: seq<bytes>, base: nat, providers: seq<Provider>)
    requires EditedIs(edited, was, target, path, base, providers) && DisabledIs(disabled, edited)
    requires now.name == disabled.name && now.props == disabled.props
    ensures NodeIs(now, was, target, path, base, providers)
  {
    hide EditedIs, IsFirmware, Bytes.Ascii;
  }

  lemma IsGood(t: Node)
    requires WfTree(t) && Printable(t)
    ensures Good(t, MAX_DEPTH)
  {
  }

  lemma GoodWf(t: Node)
    requires Good(t, MAX_DEPTH)
    ensures WfNode(t, MAX_DEPTH)
  {
  }

  /// Editing leaves idle states idle states.
  lemma RemovedSame(target: Node, edited: Node, base: nat, providers: seq<Provider>, path: seq<bytes>)
    requires EditTarget(target, base, providers) == Ok(edited)
    ensures Removed(edited, path) <==> Removed(target, path)
  {
    hide EditTarget, EditedIs, IsIdleState;
    forall k | 0 < k <= |path|
      ensures NodeAt(edited, path[..k]).Some? <==> NodeAt(target, path[..k]).Some?
      ensures NodeAt(edited, path[..k]).Some? ==>
        (IsIdleState(NodeAt(edited, path[..k]).value) <==> IsIdleState(NodeAt(target, path[..k]).value))
    {
      EditedMeaning(target, base, providers, path[..k]);
      if NodeAt(edited, path[..k]).Some? {
        StillIdle(NodeAt(edited, path[..k]).value, NodeAt(target, path[..k]).value, target, path[..k], base, providers);
      }
    }
  }

  lemma StillIdle(now: Node, was: Node, target: Node, path: seq<bytes>, base: nat, providers: seq<Provider>)
    requires EditedIs(now, was, target, path, base, providers)
    ensures IsIdleState(now) <==> IsIdleState(was)
  {
    assert |Ascii("entry-method")| == 12 && |Ascii("arm,psci-suspend-param")| == 22;
    FiveNames();
    hide Bytes.Ascii, GetProp, IsCore, DomainsLeft, CoreCells, AffinityIs;
  }
}
