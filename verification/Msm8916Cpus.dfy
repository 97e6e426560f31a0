/// `find_spin_table` and `collect_cpus` of `pocketpreboot/src/msm8916.rs`, read off the tree, and
/// what they answer about a patched tree.
module Msm8916Cpus {
  import opened Bytes
  import opened Handoff
  import opened Tree
  import opened Msm8916
  import opened Msm8916Blob
  import opened PrebootFdt

  const RESERVED_MEMORY: bytes := Ascii("reserved-memory")
  const CPUS: bytes := Ascii("cpus")
  const ADDRESS_CELLS: bytes := Ascii("#address-cells")
  const SIZE_CELLS: bytes := Ascii("#size-cells")
  const RANGES: bytes := Ascii("ranges")
  const NO_MAP: bytes := Ascii("no-map")
  const REUSABLE: bytes := Ascii("reusable")
  const DEVICE_TYPE: bytes := Ascii("device_type")
  const QCOM_ACC: bytes := Ascii("qcom,acc")
  const SPIN_TABLE_COMPATIBLE: bytes := Ascii("pocketboot,spin-table-v1")
  const SPIN_TABLE_SIZE := 4096
  const MAX_CPUS := 4

  /// `cstr`: the bytes up to the first NUL.
  function Cstr(value: Option<bytes>): Option<bytes> {
    var v :- value;
    var end :- FindNul(v, 0);
    Some(v[..end])
  }

  /// A status that does not speak against the node.
  predicate StatusAllows(status: Option<bytes>) {
    Cstr(status).Some? ==> Cstr(status).value == Ascii("okay") || Cstr(status).value == Ascii("ok")
  }

  // The spin-table reservation.

  predicate LooksLikeTable(n: Node) {
    || BasenameEq(n.name, Ascii("spin-table"))
    || (Get(n, COMPATIBLE).Some? && ListHas(Get(n, COMPATIBLE).value, SPIN_TABLE_COMPATIBLE))
  }

  /// The checks of one candidate; the address lies below 4 GiB.
  function TableAddress(n: Node): Result<u32> {
    var compatible, reg := Get(n, COMPATIBLE), Get(n, REG);
    if compatible.None? || !ListHas(compatible.value, SPIN_TABLE_COMPATIBLE) then InvalidData
    else if Get(n, NO_MAP) != Some([]) || Get(n, REUSABLE).Some? || !StatusAllows(Get(n, STATUS)) then InvalidData
    else if reg.None? || |reg.value| != 16 then InvalidData
    else
      var address, size := De64(reg.value[..8]), De64(reg.value[8..]);
      if address == 0 || size != SPIN_TABLE_SIZE || address % SPIN_TABLE_SIZE != 0 || address + size > U32_LIMIT then InvalidData
      else Ok(address)
  }

  function TableAmong(nodes: seq<Node>, found: Option<u32>): Result<u32> {
    if nodes == [] then
      if found.None? then InvalidData else Ok(found.value)
    else if !LooksLikeTable(nodes[0]) then TableAmong(nodes[1..], found)
    else if found.Some? then InvalidData
    else
      var address :- TableAddress(nodes[0]);
      TableAmong(nodes[1..], Some(address))
  }

  predicate TwoCells(n: Node) {
    FirstCell(Get(n, ADDRESS_CELLS)) == Some(2) && FirstCell(Get(n, SIZE_CELLS)) == Some(2) && Get(n, RANGES) == Some([])
  }

  /// `find_spin_table`.
  function FindSpinTable(t: Node): Result<u32> {
    var reserved := LookupPath(t, [RESERVED_MEMORY]);
    if t.name != [] || reserved.None? || !TwoCells(reserved.value) then InvalidData
    else TableAmong(reserved.value.children, None)
  }

  // The CPUs.

  datatype CpuBootMode = Cold | Resident

  datatype CpuInfo = CpuInfo(reg: u32, accBase: nat)

  datatype CpuList = CpuList(cpus: seq<CpuInfo>, mode: CpuBootMode)

  /// `find_phandle`, in document order.
  function FindPhandle(n: Node, phandle: u32): Option<Node>
    decreases n, 1
  {
    if PhandleOf(Get(n, PHANDLE), Get(n, LINUX_PHANDLE)) == Some(phandle) then Some(n) else FindPhandleIn(n.children, phandle)
  }

  function FindPhandleIn(nodes: seq<Node>, phandle: u32): Option<Node>
    decreases nodes, 0
  {
    if nodes == [] then None
    else if FindPhandle(nodes[0], phandle).Some? then FindPhandle(nodes[0], phandle)
    else FindPhandleIn(nodes[1..], phandle)
  }

  /// The controller of a cold CPU.
  function AccBase(t: Node, cpu: Node, reg: u32): Result<nat> {
    var phandle := FirstCell(Get(cpu, QCOM_ACC));
    if phandle.None? || FindPhandle(t, phandle.value).None? then InvalidData
    else
      var acc := FindPhandle(t, phandle.value).value;
      var accReg, compatible := Get(acc, REG), Get(acc, COMPATIBLE);
      if accReg.None? || |accReg.value| != 8 || De32(accReg.value[4..8]) < 0x18 then InvalidData
      else if De32(accReg.value[..4]) != 0x0b088000 + reg * 0x10000 then InvalidData
      else if compatible.None? || !ListHas(compatible.value, Ascii("qcom,msm8916-acc")) then InvalidData
      else Ok(De32(accReg.value[..4]))
  }

  function ModeOf(method': Option<bytes>): Option<CpuBootMode> {
    var m := Cstr(method');
    if m == Some(Ascii("spin-table")) then Some(Resident)
    else if m == Some(Ascii("psci")) || m == Some(Ascii("pocketboot,msm8916-acc")) then Some(Cold)
    else None
  }

  /// Is this child counted as a CPU? An unreadable device type is an error.
  predicate IsCpuName(n: Node) { BasenameEq(n.name, Ascii("cpu")) }

  predicate IsCounted(n: Node) { IsCpuName(n) && Cstr(Get(n, DEVICE_TYPE)) == Some(Ascii("cpu")) }

  function BaseOf(t: Node, n: Node, reg: u32, mode: CpuBootMode): Result<nat> {
    if mode == Resident then
      var release, table := Get(n, CPU_RELEASE_ADDR), FindSpinTable(t);
      if release.None? || |release.value| != 8 || table.InvalidData? || De64(release.value) != ReleaseAddr(table.value, reg)
      then InvalidData else Ok(0)
    else AccBase(t, n, reg)
  }

  /// One CPU node.
  function AddCpu(t: Node, n: Node, list: CpuList): Result<CpuList> {
    var compatible, reg, mode := Get(n, COMPATIBLE), Get(n, REG), ModeOf(Get(n, ENABLE_METHOD));
    if compatible.None? || !ListHas(compatible.value, Ascii("arm,cortex-a53")) || reg.None? || |reg.value| != 4 || mode.None? then InvalidData
    else if list.cpus != [] && list.mode != mode.value then InvalidData
    else
      var number := De32(reg.value);
      if number >= MAX_CPUS || (exists c <- list.cpus :: c.reg == number) || !StatusAllows(Get(n, STATUS)) then InvalidData
      else
        var base :- BaseOf(t, n, number, mode.value);
        if |list.cpus| >= MAX_CPUS then InvalidData
        else Ok(CpuList(list.cpus + [CpuInfo(number, base)], mode.value))
  }

  function CpusAmong(t: Node, nodes: seq<Node>, list: CpuList): Result<CpuList> {
    if nodes == [] then Ok(list)
    else if !IsCpuName(nodes[0]) then CpusAmong(t, nodes[1..], list)
    else if Cstr(Get(nodes[0], DEVICE_TYPE)).None? then InvalidData
    else if !IsCounted(nodes[0]) then CpusAmong(t, nodes[1..], list)
    else
      var more :- AddCpu(t, nodes[0], list);
      CpusAmong(t, nodes[1..], more)
  }

  /// `collect_cpus`.
  function CollectCpus(t: Node): Result<CpuList> {
    var cpus := LookupPath(t, [CPUS]);
    if t.name != [] || cpus.None? then InvalidData
    else if FirstCell(Get(cpus.value, ADDRESS_CELLS)) != Some(1) || FirstCell(Get(cpus.value, SIZE_CELLS)) != Some(0) then InvalidData
    else
      var list :- CpusAmong(t, cpus.value.children, CpuList([], Cold));
      if |list.cpus| != MAX_CPUS then InvalidData else Ok(list)
  }

  // The condition.

  predicate Psci(n: Node) { Msm8916.IsPsci(Get(n, COMPATIBLE)) }

  /// Neither the reservation nor an ancestor of it is a PSCI node.
  predicate TableSpared(t: Node) {
    var reserved := LookupPath(t, [RESERVED_MEMORY]);
    !Psci(t) && reserved.Some? && !Psci(reserved.value) && forall n <- reserved.value.children :: LooksLikeTable(n) ==> !Psci(n)
  }

  /// Neither a CPU nor an ancestor of one is a PSCI node.
  predicate CpusSpared(t: Node) {
    var cpus := LookupPath(t, [CPUS]);
    !Psci(t) && cpus.Some? && !Psci(cpus.value) && forall n <- cpus.value.children :: IsCounted(n) ==> !Psci(n)
  }

  // What patching does to one node.

  lemma NamesUntouched()
    ensures forall n <- [COMPATIBLE, REG, RANGES, NO_MAP, REUSABLE, ADDRESS_CELLS, SIZE_CELLS, DEVICE_TYPE] :: Untouched(n)
  {
    NamesDiffer();
    ShortNames();
    hide Bytes.Ascii;
  }

  lemma ShortNames()
    ensures STATUS != NO_MAP && STATUS != RANGES
  {
    assert STATUS[0] == 's' as int && NO_MAP[0] == 'n' as int && RANGES[0] == 'r' as int;
  }

  lemma GetUntouched(p: Platform, stack: seq<Context>, n: Node, name: bytes)
    requires PatchNode(p, stack, n).Ok? && Untouched(name)
    ensures Get(PatchNode(p, stack, n).value, name) == Get(n, name)
  {
    hide Additions, ContextOf, Kept, SeenIn, Untouched, GetProp, Bytes.Ascii;
    KeepsUntouched(p, ContextOf(stack, n.name, SeenIn(n.props)), n, name);
  }

  function NodeContext(stack: seq<Context>, n: Node): Context { ContextOf(stack, n.name, SeenIn(n.props)) }

  /// The gained properties come first.
  lemma GetGained(p: Platform, stack: seq<Context>, n: Node, name: bytes)
    requires PatchNode(p, stack, n).Ok?
    ensures Additions(p, NodeContext(stack, n), SeenIn(n.props)).Ok?
    ensures
      var c := NodeContext(stack, n);
      var added := Additions(p, c, SeenIn(n.props)).value;
      Get(PatchNode(p, stack, n).value, name) ==
      if GetProp(added, name).Some? then GetProp(added, name) else if Skips(c, name) then None else Get(n, name)
  {
    hide Additions, ContextOf, Kept, SeenIn, Skips, GetProp;
    var c := ContextOf(stack, n.name, SeenIn(n.props));
    var added := Additions(p, c, SeenIn(n.props)).value;
    GetAppend(added, Kept(c, n.props), name);
    KeptGet(c, n.props, name);
  }

  lemma StatusIsDisabled(cpu: seq<Property>)
    requires GetProp(cpu, STATUS).None?
    ensures GetProp(cpu + [Property(STATUS, DISABLED)], STATUS) == Some(DISABLED)
    ensures GetProp(cpu + [], STATUS).None?
  {
    GetAppend(cpu, [Property(STATUS, DISABLED)], STATUS);
    assert cpu + [] == cpu;
  }

  lemma CpuNames()
    ensures STATUS != ENABLE_METHOD && STATUS != CPU_RELEASE_ADDR && STATUS != POWER_DOMAINS && STATUS != POWER_DOMAIN_NAMES
    ensures CPU_RELEASE_ADDR != ENABLE_METHOD && CPU_RELEASE_ADDR != POWER_DOMAINS && CPU_RELEASE_ADDR != POWER_DOMAIN_NAMES
    ensures ENABLE_METHOD != POWER_DOMAINS && ENABLE_METHOD != POWER_DOMAIN_NAMES && STATUS != ENTRY_METHOD
    ensures STATUS != CPU_IDLE_STATES
  {
    FirstBytes();
    hide Bytes.Ascii;
  }

  lemma PairFirst(n1: bytes, v1: bytes, n2: bytes, v2: bytes)
    ensures GetProp([Property(n1, v1), Property(n2, v2)], n1) == Some(v1)
    ensures n1 != n2 ==> GetProp([Property(n1, v1), Property(n2, v2)], n2) == Some(v2)
  {
    assert [Property(n1, v1), Property(n2, v2)][1..] == [Property(n2, v2)];
  }

  /// What the properties that a CPU gains say.
  lemma CpuPropsGet(p: Platform, seen: Seen)
    requires CpuProps(p, seen).Ok?
    ensures FirstCell(seen.reg).Some?
    ensures GetProp(CpuProps(p, seen).value, STATUS).None?
    ensures GetProp(CpuProps(p, seen).value, ENABLE_METHOD) == Some(SPIN_TABLE)
    ensures GetProp(CpuProps(p, seen).value, CPU_RELEASE_ADDR) == Some(Be64(ReleaseAddr(p.table, FirstCell(seen.reg).value)))
  {
    var d := FilteredDomains(seen.domains, seen.domainNames, p.providers).value;
    var x := if d.cells != [] then [Property(POWER_DOMAINS, d.cells)] else [];
    var y := if d.names != [] then [Property(POWER_DOMAIN_NAMES, d.names)] else [];
    var address := Be64(ReleaseAddr(p.table, FirstCell(seen.reg).value));
    var z := [Property(ENABLE_METHOD, SPIN_TABLE), Property(CPU_RELEASE_ADDR, address)];
    assert CpuProps(p, seen).value == x + y + z;
    hide FilteredDomains, FirstCell, ReleaseAddr, Bytes.Ascii, Bytes.Be64, CpuProps, GetProp;
    CpuNames();
    PairFirst(ENABLE_METHOD, SPIN_TABLE, CPU_RELEASE_ADDR, address);
    GetBehind(x, y, z, STATUS);
    GetBehind(x, y, z, ENABLE_METHOD);
    GetBehind(x, y, z, CPU_RELEASE_ADDR);
    GetAbsent(z, STATUS);
  }

  lemma GetBehind(x: seq<Property>, y: seq<Property>, z: seq<Property>, name: bytes)
    requires forall q <- x :: q.name != name
    requires forall q <- y :: q.name != name
    ensures GetProp(x + y + z, name) == GetProp(z, name)
  {
    GetAbsent(x, name);
    GetAbsent(y, name);
    GetAppend(x + y, z, name);
    GetAppend(x, y, name);
  }

  lemma AdditionsGet(p: Platform, c: Context, seen: Seen)
    requires Additions(p, c, seen).Ok?
    ensures GetProp(Additions(p, c, seen).value, STATUS) == if c.disable then Some(DISABLED) else None
    ensures c.kind == Cpu ==>
      && FirstCell(seen.reg).Some?
      && GetProp(Additions(p, c, seen).value, ENABLE_METHOD) == Some(SPIN_TABLE)
      && GetProp(Additions(p, c, seen).value, CPU_RELEASE_ADDR) == Some(Be64(ReleaseAddr(p.table, FirstCell(seen.reg).value)))
  {
    hide CpuProps, FirstCell, ReleaseAddr, Bytes.Ascii, Bytes.Be64, GetProp;
    var cpu := if c.kind == Cpu then CpuProps(p, seen).value else [];
    var status := if c.disable then [Property(STATUS, DISABLED)] else [];
    assert Additions(p, c, seen).value == cpu + status;
    NothingThere(STATUS);
    if c.kind == Cpu {
      CpuPropsGet(p, seen);
      GetAppend(cpu, status, ENABLE_METHOD);
      GetAppend(cpu, status, CPU_RELEASE_ADDR);
    }
    StatusIsDisabled(cpu);
  }

  lemma NothingThere(name: bytes)
    ensures GetProp([], name).None?
  {
  }

  lemma StatusSkipped(c: Context)
    ensures Skips(c, STATUS) <==> c.disable
  {
    CpuNames();
    hide Bytes.Ascii;
  }

  /// A disabled node is disabled afterwards; any other keeps its status.
  lemma PatchedStatus(p: Platform, stack: seq<Context>, n: Node)
    requires PatchNode(p, stack, n).Ok?
    ensures Get(PatchNode(p, stack, n).value, STATUS) == if NodeContext(stack, n).disable then Some(DISABLED) else Get(n, STATUS)
  {
    hide Additions, ContextOf, SeenIn, Skips, GetProp, PatchNode, Bytes.Ascii;
    GetGained(p, stack, n, STATUS);
    AdditionsGet(p, NodeContext(stack, n), SeenIn(n.props));
    StatusSkipped(NodeContext(stack, n));
  }

  lemma PatchedCpu(p: Platform, stack: seq<Context>, n: Node)
    requires PatchNode(p, stack, n).Ok? && NodeContext(stack, n).kind == Cpu
    ensures FirstCell(Get(n, REG)).Some?
    ensures Get(PatchNode(p, stack, n).value, ENABLE_METHOD) == Some(SPIN_TABLE)
    ensures Get(PatchNode(p, stack, n).value, CPU_RELEASE_ADDR) == Some(Be64(ReleaseAddr(p.table, FirstCell(Get(n, REG)).value)))
  {
    hide Additions, ContextOf, Skips, GetProp, PatchNode, Bytes.Ascii, FirstCell, ReleaseAddr, Bytes.Be64;
    GetGained(p, stack, n, ENABLE_METHOD);
    GetGained(p, stack, n, CPU_RELEASE_ADDR);
    AdditionsGet(p, NodeContext(stack, n), SeenIn(n.props));
  }

  lemma CstrOf(text: bytes)
    requires NulFree(text)
    ensures Cstr(Some(text + [0])) == Some(text)
  {
    var v := text + [0];
    assert forall i :: 0 <= i < |text| ==> v[i] == text[i];
    FindNulIs(v, 0, |text|);
    assert v[..|text|] == text;
  }

  lemma LiteralsNulFree()
    ensures NulFree(Ascii("spin-table")) && NulFree(Ascii("disabled"))
  {
  }

  lemma DisabledDisallows()
    ensures !StatusAllows(Some(DISABLED))
  {
    LiteralsNulFree();
    CstrOf(Ascii("disabled"));
    hide Bytes.Ascii, Cstr;
  }

  lemma SpinTableIsResident()
    ensures ModeOf(Some(SPIN_TABLE)) == Some(Resident)
  {
    LiteralsNulFree();
    CstrOf(Ascii("spin-table"));
    hide Bytes.Ascii, Cstr;
  }

  // Contexts of the children.

  lemma {:induction false} LookupPatched(p: Platform, stack: seq<Context>, nodes: seq<Node>, name: bytes)
    requires PatchForest(p, stack, nodes).Ok?
    ensures
      var before, after := LookupIn(nodes, [name]), LookupIn(PatchForest(p, stack, nodes).value, [name]);
      && (before.None? <==> after.None?)
      && (before.Some? ==> before.value in nodes && before.value.name == name
                           && PatchNode(p, stack, before.value) == Ok(after.value))
    decreases |nodes|
  {
    hide PatchNode;
    if nodes != [] {
      LookupPatched(p, stack, nodes[1..], name);
      var first, rest := PatchNode(p, stack, nodes[0]).value, PatchForest(p, stack, nodes[1..]).value;
      assert ([first] + rest)[1..] == rest && [name][1..] == [];
    }
  }

  /// A child of the root, before and after.
  lemma ChildPatched(p: Platform, t: Node, name: bytes)
    requires t.name == [] && PatchNode(p, [], t).Ok?
    ensures
      var t', c := PatchNode(p, [], t).value, NodeContext([], t);
      var before, after := LookupPath(t, [name]), LookupPath(t', [name]);
      && t'.name == [] && c == Context(RootNode, Psci(t))
      && (before.None? <==> after.None?)
      && (before.Some? ==> before.value.name == name && PatchNode(p, [c], before.value) == Ok(after.value))
  {
    hide Additions, Kept, Msm8916.IsPsci, GetProp, LookupIn;
    LookupPatched(p, [NodeContext([], t)], t.children, name);
    assert [] + [NodeContext([], t)] == [NodeContext([], t)];
  }

  lemma KindNames()
    ensures RESERVED_MEMORY != CPUS
  {
    hide Bytes.Ascii;
  }

  /// The contexts below the root.
  lemma CpusContext(t: Node, n: Node)
    requires NodeContext([], t) == Context(RootNode, Psci(t)) && n.name == CPUS
    ensures NodeContext([NodeContext([], t)], n) == Context(Cpus, Psci(t) || Psci(n))
  {
    hide Msm8916.IsPsci, GetProp;
  }

  lemma ReservedContext(t: Node, n: Node)
    requires NodeContext([], t) == Context(RootNode, Psci(t)) && n.name == RESERVED_MEMORY
    ensures NodeContext([NodeContext([], t)], n) == Context(Other, Psci(t) || Psci(n))
  {
    KindNames();
    hide Msm8916.IsPsci, GetProp, Bytes.Ascii;
  }

  lemma CpuContext(a: Context, b: Context, n: Node)
    requires b.kind == Cpus && IsCpuName(n)
    ensures NodeContext([a, b], n) == Context(Cpu, b.disable || Psci(n))
  {
    hide Msm8916.IsPsci, GetProp, BasenameEq;
    assert Top([a, b]) == b;
  }

  lemma OtherContext(a: Context, b: Context, n: Node)
    requires b.kind == Other
    ensures NodeContext([a, b], n) == Context(Other, b.disable || Psci(n))
  {
    hide Msm8916.IsPsci, GetProp, BasenameEq, Bytes.Ascii;
    assert Top([a, b]) == b;
  }

  // The reservation afterwards.

  lemma TablePatched(p: Platform, a: Context, b: Context, n: Node)
    requires b.kind == Other && PatchNode(p, [a, b], n).Ok?
    ensures
      var n' := PatchNode(p, [a, b], n).value;
      && LooksLikeTable(n') == LooksLikeTable(n)
      && (TableAddress(n).Ok? ==> TableAddress(n') == if b.disable || Psci(n) then InvalidData else TableAddress(n))
  {
    hide PatchNode, ListHas, BasenameEq, StatusAllows, Untouched, GetProp, Bytes.Ascii, Bytes.De64, Msm8916.IsPsci, ContextOf;
    NamesUntouched();
    GetUntouched(p, [a, b], n, COMPATIBLE);
    GetUntouched(p, [a, b], n, REG);
    GetUntouched(p, [a, b], n, NO_MAP);
    GetUntouched(p, [a, b], n, REUSABLE);
    PatchedStatus(p, [a, b], n);
    OtherContext(a, b, n);
    DisabledDisallows();
  }

  predicate TablesSpared(b: Context, nodes: seq<Node>) {
    forall n <- nodes :: LooksLikeTable(n) ==> !b.disable && !Psci(n)
  }

  lemma SparedStep(b: Context, nodes: seq<Node>)
    requires nodes != []
    ensures TablesSpared(b, nodes) <==>
      (LooksLikeTable(nodes[0]) ==> !b.disable && !Psci(nodes[0])) && TablesSpared(b, nodes[1..])
  {
    hide LooksLikeTable, Psci;
    assert forall n :: n in nodes <==> n == nodes[0] || n in nodes[1..];
  }

  lemma {:induction false} TableAmongPatched(p: Platform, a: Context, b: Context, nodes: seq<Node>, found: Option<u32>)
    requires b.kind == Other && PatchForest(p, [a, b], nodes).Ok? && TableAmong(nodes, found).Ok?
    ensures TableAmong(PatchForest(p, [a, b], nodes).value, found)
      == if TablesSpared(b, nodes) then TableAmong(nodes, found) else InvalidData
    decreases |nodes|
  {
    hide PatchNode, LooksLikeTable, TableAddress, Psci, TablesSpared;
    if nodes == [] {
      NoneSpared(b);
    } else {
      var first, rest := PatchNode(p, [a, b], nodes[0]).value, PatchForest(p, [a, b], nodes[1..]).value;
      assert ([first] + rest)[1..] == rest && ([first] + rest)[0] == first;
      SparedStep(b, nodes);
      TablePatched(p, a, b, nodes[0]);
      if !LooksLikeTable(nodes[0]) {
        TableAmongPatched(p, a, b, nodes[1..], found);
      } else {
        TableAmongPatched(p, a, b, nodes[1..], Some(TableAddress(nodes[0]).value));
      }
    }
  }

  lemma NoneSpared(b: Context)
    ensures TablesSpared(b, [])
  {
  }

  lemma {:induction false} SomeCandidate(nodes: seq<Node>)
    requires TableAmong(nodes, None).Ok?
    ensures exists n <- nodes :: LooksLikeTable(n)
    decreases |nodes|
  {
    hide LooksLikeTable, TableAddress;
    if LooksLikeTable(nodes[0]) {
      assert nodes[0] in nodes;
    } else {
      SomeCandidate(nodes[1..]);
      var n :| n in nodes[1..] && LooksLikeTable(n);
      assert n in nodes;
    }
  }

  lemma TwoCellsPatched(p: Platform, stack: seq<Context>, n: Node)
    requires PatchNode(p, stack, n).Ok?
    ensures TwoCells(PatchNode(p, stack, n).value) == TwoCells(n)
  {
    hide PatchNode, Untouched, GetProp, Bytes.Ascii, FirstCell;
    NamesUntouched();
    GetUntouched(p, stack, n, ADDRESS_CELLS);
    GetUntouched(p, stack, n, SIZE_CELLS);
    GetUntouched(p, stack, n, RANGES);
  }

  /// The reservation is found again, at the same address, exactly when no PSCI node covers it.
  lemma TableAfterPatch(t: Node, p: Platform)
    requires FindSpinTable(t).Ok? && PatchNode(p, [], t).Ok?
    ensures FindSpinTable(PatchNode(p, [], t).value) == if TableSpared(t) then FindSpinTable(t) else InvalidData
  {
    hide PatchNode, LooksLikeTable, TableAddress, Psci, TwoCells, TableAmong, LookupPath, ContextOf, Bytes.Ascii;
    var t' := PatchNode(p, [], t).value;
    var c := NodeContext([], t);
    ChildPatched(p, t, RESERVED_MEMORY);
    var n, n' := LookupPath(t, [RESERVED_MEMORY]).value, LookupPath(t', [RESERVED_MEMORY]).value;
    ReservedContext(t, n);
    var b := NodeContext([c], n);
    TwoCellsPatched(p, [c], n);
    ChildrenPatched(p, [c], n);
    assert [c] + [b] == [c, b];
    TableAmongPatched(p, c, b, n.children, None);
    SomeCandidate(n.children);
  }

  lemma ChildrenPatched(p: Platform, stack: seq<Context>, n: Node)
    requires PatchNode(p, stack, n).Ok?
    ensures PatchForest(p, stack + [NodeContext(stack, n)], n.children) == Ok(PatchNode(p, stack, n).value.children)
  {
    hide ContextOf, SeenIn, Additions, Kept, PatchForest;
  }

  // The CPUs afterwards.

  function AsResident(cpus: seq<CpuInfo>): seq<CpuInfo> {
    seq(|cpus|, i requires 0 <= i < |cpus| => CpuInfo(cpus[i].reg, 0))
  }

  function ResidentList(list: CpuList): CpuList {
    CpuList(AsResident(list.cpus), if list.cpus == [] then Cold else Resident)
  }

  lemma CpuNodePatched(p: Platform, a: Context, b: Context, n: Node)
    requires PatchNode(p, [a, b], n).Ok?
    ensures
      var n' := PatchNode(p, [a, b], n).value;
      && IsCpuName(n') == IsCpuName(n) && Get(n', DEVICE_TYPE) == Get(n, DEVICE_TYPE)
      && Get(n', COMPATIBLE) == Get(n, COMPATIBLE) && Get(n', REG) == Get(n, REG)
  {
    hide PatchNode, Untouched, GetProp, Bytes.Ascii, BasenameEq;
    NamesUntouched();
    GetUntouched(p, [a, b], n, DEVICE_TYPE);
    GetUntouched(p, [a, b], n, COMPATIBLE);
    GetUntouched(p, [a, b], n, REG);
  }

  lemma SameNumbers(cpus: seq<CpuInfo>, number: u32)
    ensures (exists c <- AsResident(cpus) :: c.reg == number) <==> exists c <- cpus :: c.reg == number
  {
    if c :| c in AsResident(cpus) && c.reg == number {
      var i :| 0 <= i < |cpus| && AsResident(cpus)[i] == c;
      assert cpus[i] in cpus;
    }
    if c :| c in cpus && c.reg == number {
      var i :| 0 <= i < |cpus| && cpus[i] == c;
      assert AsResident(cpus)[i] in AsResident(cpus);
    }
  }

  lemma ReleaseMatches(t: Node, table: u32, reg: bytes, number: u32, n: Node)
    requires |reg| == 4 && number == De32(reg) && FindSpinTable(t) == Ok(table)
    requires Get(n, CPU_RELEASE_ADDR) == Some(Be64(ReleaseAddr(table, FirstCell(Some(reg)).value)))
    ensures BaseOf(t, n, number, Resident) == Ok(0)
  {
    hide FindSpinTable, Bytes.De64, Bytes.Be64, ReleaseAddr;
    assert reg[..4] == reg;
    De64Be64(ReleaseAddr(table, number));
  }

  lemma AddCpuPatched(p: Platform, t: Node, t': Node, a: Context, b: Context, n: Node, list: CpuList)
    requires b.kind == Cpus && IsCpuName(n) && PatchNode(p, [a, b], n).Ok? && AddCpu(t, n, list).Ok?
    requires FindSpinTable(t') == Ok(p.table) || FindSpinTable(t') == InvalidData
    ensures
      AddCpu(t', PatchNode(p, [a, b], n).value, ResidentList(list)) ==
      if FindSpinTable(t').Ok? && !b.disable && !Psci(n) then Ok(ResidentList(AddCpu(t, n, list).value)) else InvalidData
  {
    hide PatchNode, ListHas, BasenameEq, StatusAllows, GetProp, Bytes.Ascii, Msm8916.IsPsci, FindSpinTable, AccBase, ModeOf,
      Bytes.De32, Bytes.De64, Bytes.Be64, ReleaseAddr, Cstr, ContextOf, BaseOf, AsResident;
    var n' := PatchNode(p, [a, b], n).value;
    CpuNodePatched(p, a, b, n);
    CpuContext(a, b, n);
    PatchedCpu(p, [a, b], n);
    PatchedStatus(p, [a, b], n);
    SpinTableIsResident();
    DisabledDisallows();
    var number := De32(Get(n, REG).value);
    SameNumbers(list.cpus, number);
    ResidentOneMore(list.cpus, CpuInfo(number, AddCpu(t, n, list).value.cpus[|list.cpus|].accBase));
    if FindSpinTable(t').Ok? {
      ReleaseMatches(t', p.table, Get(n, REG).value, number, n');
    } else {
      NoTableNoBase(t', n', number);
    }
  }

  lemma NoTableNoBase(t: Node, n: Node, number: u32)
    requires FindSpinTable(t).InvalidData?
    ensures BaseOf(t, n, number, Resident).InvalidData?
  {
  }

  lemma ResidentOneMore(cpus: seq<CpuInfo>, c: CpuInfo)
    ensures AsResident(cpus + [c]) == AsResident(cpus) + [CpuInfo(c.reg, 0)]
    ensures |AsResident(cpus)| == |cpus| && (AsResident(cpus) == [] <==> cpus == [])
  {
  }

  predicate NodesSpared(b: Context, nodes: seq<Node>) {
    forall n <- nodes :: IsCounted(n) ==> !b.disable && !Psci(n)
  }

  lemma CountedStep(b: Context, nodes: seq<Node>)
    requires nodes != []
    ensures NodesSpared(b, nodes) <==>
      (IsCounted(nodes[0]) ==> !b.disable && !Psci(nodes[0])) && NodesSpared(b, nodes[1..])
    ensures (exists n <- nodes :: IsCounted(n)) <==> IsCounted(nodes[0]) || exists n <- nodes[1..] :: IsCounted(n)
  {
    hide IsCounted, Psci;
    assert forall n :: n in nodes <==> n == nodes[0] || n in nodes[1..];
  }

  predicate AnyCounted(nodes: seq<Node>) { exists n <- nodes :: IsCounted(n) }

  lemma NoneCounted(b: Context, nodes: seq<Node>)
    ensures !AnyCounted(nodes) ==> NodesSpared(b, nodes)
    ensures !AnyCounted([])
  {
    hide IsCounted, Psci;
  }

  lemma {:induction false} CpusAmongPatched(p: Platform, t: Node, t': Node, a: Context, b: Context, nodes: seq<Node>, list: CpuList)
    requires b.kind == Cpus && PatchForest(p, [a, b], nodes).Ok? && CpusAmong(t, nodes, list).Ok?
    requires FindSpinTable(t') == Ok(p.table) || FindSpinTable(t') == InvalidData
    ensures
      CpusAmong(t', PatchForest(p, [a, b], nodes).value, ResidentList(list)) ==
      if AnyCounted(nodes) && !(FindSpinTable(t').Ok? && NodesSpared(b, nodes)) then InvalidData
      else Ok(ResidentList(CpusAmong(t, nodes, list).value))
    decreases |nodes|
  {
    hide PatchNode, IsCpuName, AddCpu, Psci, NodesSpared, FindSpinTable, Bytes.Ascii, Cstr, GetProp, ResidentList, AnyCounted;
    if nodes == [] {
      NoneCounted(b, nodes);
    } else {
      NoneCounted(b, nodes[1..]);
      var n, first, rest := nodes[0], PatchNode(p, [a, b], nodes[0]).value, PatchForest(p, [a, b], nodes[1..]).value;
      assert ([first] + rest)[1..] == rest && ([first] + rest)[0] == first;
      CountedStep(b, nodes);
      AnyStep(nodes);
      CpuNodePatched(p, a, b, n);
      if IsCounted(n) {
        AddCpuPatched(p, t, t', a, b, n, list);
        CpusAmongPatched(p, t, t', a, b, nodes[1..], AddCpu(t, n, list).value);
      } else {
        CpusAmongPatched(p, t, t', a, b, nodes[1..], list);
      }
    }
  }

  lemma AnyStep(nodes: seq<Node>)
    requires nodes != []
    ensures AnyCounted(nodes) <==> IsCounted(nodes[0]) || AnyCounted(nodes[1..])
  {
    hide IsCounted;
    assert forall n :: n in nodes <==> n == nodes[0] || n in nodes[1..];
  }

  lemma {:induction false} CountedSome(t: Node, nodes: seq<Node>, list: CpuList)
    requires CpusAmong(t, nodes, list).Ok? && !AnyCounted(nodes)
    ensures CpusAmong(t, nodes, list) == Ok(list)
    decreases |nodes|
  {
    hide IsCounted, IsCpuName, AddCpu, AnyCounted;
    if nodes != [] {
      AnyStep(nodes);
      CountedSome(t, nodes[1..], list);
    }
  }

  lemma CpusCellsPatched(p: Platform, stack: seq<Context>, n: Node)
    requires PatchNode(p, stack, n).Ok?
    ensures
      var n' := PatchNode(p, stack, n).value;
      Get(n', ADDRESS_CELLS) == Get(n, ADDRESS_CELLS) && Get(n', SIZE_CELLS) == Get(n, SIZE_CELLS)
  {
    hide PatchNode, Untouched, GetProp, Bytes.Ascii;
    NamesUntouched();
    GetUntouched(p, stack, n, ADDRESS_CELLS);
    GetUntouched(p, stack, n, SIZE_CELLS);
  }

  lemma SparedIs(t: Node, b: Context, nodes: seq<Node>)
    requires LookupPath(t, [CPUS]).Some? && nodes == LookupPath(t, [CPUS]).value.children && AnyCounted(nodes)
    requires b.disable == (Psci(t) || Psci(LookupPath(t, [CPUS]).value))
    ensures NodesSpared(b, nodes) <==> CpusSpared(t)
  {
    hide Psci, IsCounted, LookupPath;
  }

  /// A second boot stage that reads the patched tree finds the same four CPUs, resident, exactly when
  /// no PSCI node is, or is an ancestor of, a CPU or the reservation.
  lemma ResidentAfterPatch(t: Node, p: Platform)
    requires FindSpinTable(t) == Ok(p.table) && CollectCpus(t).Ok? && PatchNode(p, [], t).Ok?
    ensures CollectCpus(PatchNode(p, [], t).value) ==
      if TableSpared(t) && CpusSpared(t) then Ok(CpuList(AsResident(CollectCpus(t).value.cpus), Resident)) else InvalidData
  {
    hide PatchNode, IsCounted, Psci, CpusAmong, LookupPath, ContextOf, Bytes.Ascii, FindSpinTable, TableSpared, FirstCell, GetProp,
      CpusSpared, AnyCounted, NodesSpared, AsResident;
    var t' := PatchNode(p, [], t).value;
    var c := NodeContext([], t);
    TableAfterPatch(t, p);
    ChildPatched(p, t, CPUS);
    var n := LookupPath(t, [CPUS]).value;
    CpusContext(t, n);
    var b := NodeContext([c], n);
    CpusCellsPatched(p, [c], n);
    ChildrenPatched(p, [c], n);
    assert [c] + [b] == [c, b];
    var list := CpuList([], Cold);
    if !AnyCounted(n.children) {
      CountedSome(t, n.children, list);
    }
    ResidentEmpty();
    CpusAmongPatched(p, t, t', c, b, n.children, list);
    ResidentOneMore(CollectCpus(t).value.cpus, CpuInfo(0, 0));
    SparedIs(t, b, n.children);
  }

  lemma ResidentEmpty()
    ensures ResidentList(CpuList([], Cold)) == CpuList([], Cold)
  {
  }
}
