/// The spin-table contract of `src/kexec.rs`: recognising it in a live tree and grafting it,
/// with its CPUs and its reserved parking page, into a destination tree.
module SpinTable {
  import opened Bytes
  import opened Handoff
  import opened Tree
  import opened Dtb
  import opened Contract
  import opened Reserved
  import opened Nodes
  import opened Psci

  const SPIN_TABLE_COMPAT: bytes := Ascii("pocketboot,spin-table-v1")
  const SPIN_TABLE_PREFIX: bytes := Ascii("pocketboot,spin-table-")
  const SPIN_TABLE_BYTES: nat := 0x1000

  const CPUS: bytes := Ascii("cpus")
  const PROP_DEVICE_TYPE: bytes := Ascii("device_type")
  const PROP_ENABLE_METHOD: bytes := Ascii("enable-method")
  const PROP_RELEASE_ADDR: bytes := Ascii("cpu-release-addr")
  const PROP_IDLE_STATES: bytes := Ascii("cpu-idle-states")
  const PROP_NO_MAP: bytes := Ascii("no-map")
  const PROP_REUSABLE: bytes := Ascii("reusable")
  const PROP_RANGES: bytes := Ascii("ranges")
  const CPU_TYPE: bytes := Ascii("cpu") + [0]
  const SPIN_TABLE_METHOD: bytes := Ascii("spin-table") + [0]

  // CPUs.

  predicate IsCpu(node: Node) { Get(node, PROP_DEVICE_TYPE) == Some(CPU_TYPE) && Enabled(node) }

  /// Only affinity fields 0 to 3 may be set.
  predicate ValidMpidr(mpidr: nat) { mpidr < 0x100_0000_0000 && mpidr / 0x100_0000 % 0x100 == 0 }

  function Mpidr(cpu: Node, addressCells: u32): Result<nat> {
    match Get(cpu, PROP_REG)
    case None => InvalidData
    case Some(reg) =>
      if !(1 <= addressCells <= 2) || |reg| != addressCells * 4 then InvalidData
      else if ValidMpidr(DecodeCells(reg)) then Ok(DecodeCells(reg))
      else InvalidData
  }

  /// The MPIDRs of the enabled CPUs among these nodes, in document order.
  function Ids(nodes: seq<Node>, addressCells: u32): Result<seq<nat>> {
    if nodes == [] then Ok([])
    else if !IsCpu(nodes[0]) then Ids(nodes[1..], addressCells)
    else
      var id :- Mpidr(nodes[0], addressCells);
      var rest :- Ids(nodes[1..], addressCells);
      Ok([id] + rest)
  }

  predicate DistinctIds(ids: seq<nat>) { forall i, j :: 0 <= i < j < |ids| ==> ids[i] != ids[j] }

  function IdSet(ids: seq<nat>): set<nat> { set i <- ids }

  /// The address-cell count of a /cpus node this code understands.
  function CpuCells(cpus: Node): (r: Result<u32>)
    ensures r.Ok? ==> 1 <= r.value <= 2
  {
    var addressCells :- NodeCells(cpus, PROP_ADDRESS_CELLS, 2);
    var sizeCells :- NodeCells(cpus, PROP_SIZE_CELLS, 0);
    if 1 <= addressCells <= 2 && sizeCells == 0 then Ok(addressCells) else InvalidData
  }

  /// `cpu_nodes`, without the indices.
  function CpuIds(root: Node): Result<seq<nat>> {
    match Child(root, CPUS)
    case None => InvalidData
    case Some(cpus) =>
      var addressCells :- CpuCells(cpus);
      var ids :- Ids(cpus.children, addressCells);
      if DistinctIds(ids) then Ok(ids) else InvalidData
  }

  /// `cpu-release-addr` for the slot of a CPU.
  function ReleaseAddr(base: nat, mpidr: nat): bytes { Be64(SlotAddress(base, mpidr) % U64_LIMIT) }

  predicate HasSlot(cpu: Node, addressCells: u32, base: nat) {
    && Get(cpu, PROP_ENABLE_METHOD) == Some(SPIN_TABLE_METHOD)
    && Mpidr(cpu, addressCells).Ok?
    && Get(cpu, PROP_RELEASE_ADDR) == Some(ReleaseAddr(base, Mpidr(cpu, addressCells).value))
  }

  // Reservations.

  /// `reserved_cells`.
  function ReservedCells(root: Node, reserved: Node): (r: Result<(u32, u32)>)
    ensures r.Ok? ==> 1 <= r.value.0 <= 2 && 1 <= r.value.1 <= 2
  {
    if !Enabled(reserved) || Get(reserved, PROP_RANGES) != Some([]) then InvalidData
    else
      var addressCells :- NodeCells(reserved, PROP_ADDRESS_CELLS, 0);
      var sizeCells :- NodeCells(reserved, PROP_SIZE_CELLS, 0);
      var rootAddress :- NodeCells(root, PROP_ADDRESS_CELLS, 2);
      var rootSize :- NodeCells(root, PROP_SIZE_CELLS, 1);
      if 1 <= addressCells <= 2 && 1 <= sizeCells <= 2 && addressCells == rootAddress && sizeCells == rootSize
      then Ok((addressCells, sizeCells)) else InvalidData
  }

  /// A node that claims some version of the spin-table contract.
  predicate IsContract(node: Node) { HasItemPrefix(Get(node, PROP_COMPATIBLE), SPIN_TABLE_PREFIX) }

  function Contracts(nodes: seq<Node>): seq<Node> {
    if nodes == [] then []
    else (if IsContract(nodes[0]) then [nodes[0]] else []) + Contracts(nodes[1..])
  }

  predicate WellOwned(node: Node) {
    Enabled(node) && Compatible(node, SPIN_TABLE_COMPAT) && Get(node, PROP_NO_MAP) == Some([]) && Get(node, PROP_REUSABLE).None?
  }

  predicate ValidBase(base: u64) {
    0 < base && base % SPIN_TABLE_BYTES == 0 && base + SPIN_TABLE_BYTES < U64_LIMIT
  }

  /// The page that the one reservation claiming the contract describes.
  function OwnedBase(root: Node): (r: Result<u64>)
    ensures r.Ok? ==> ValidBase(r.value)
  {
    match Child(root, RESERVED_MEMORY)
    case None => InvalidData
    case Some(reserved) =>
      var owned := Contracts(reserved.children);
      if |owned| != 1 || !WellOwned(owned[0]) || Get(owned[0], PROP_REG).None? then InvalidData
      else
        var (addressCells, sizeCells) :- ReservedCells(root, reserved);
        var reg := Get(owned[0], PROP_REG).value;
        var ranges :- DecodeReg(reg, addressCells, sizeCells);
        if |ranges| != 1 || |reg| != (addressCells + sizeCells) * 4 then InvalidData
        else
          var base := ranges[0].start;
          if base == 0 || base % SPIN_TABLE_BYTES != 0 || ranges[0].end - base != SPIN_TABLE_BYTES then InvalidData
          else Ok(base)
  }

  /// Some enabled CPU is started through a spin table.
  predicate HasSpinTableCpu(root: Node) {
    var cpus := Child(root, CPUS);
    cpus.Some? && exists cpu <- cpus.value.children :: IsCpu(cpu) && Get(cpu, PROP_ENABLE_METHOD) == Some(SPIN_TABLE_METHOD)
  }

  /// CPUs 0 to 3 and no others, each with its slot in the page.
  predicate CpusOwnSlots(root: Node, base: nat) {
    var cpus := Child(root, CPUS);
    && cpus.Some? && CpuIds(root).Ok? && IdSet(CpuIds(root).value) == {0, 1, 2, 3}
    && forall cpu <- cpus.value.children :: IsCpu(cpu) ==> HasSlot(cpu, CpuCells(cpus.value).value, base)
  }

  /// `spin_table_contract`: the page of the contract that a live tree carries, if any CPU uses one.
  function SpinTableContract(root: Node): (r: Result<Option<u64>>)
    ensures r.Ok? && r.value.Some? ==> ValidBase(r.value.value)
  {
    if !HasSpinTableCpu(root) then Ok(None)
    else
      var base :- OwnedBase(root);
      if CpusOwnSlots(root, base) then Ok(Some(base)) else InvalidData
  }

  /// `encode_cells`.
  function EncodeCells(value: u64, count: u32): Result<bytes> {
    if count == 1 && value < U32_LIMIT then Ok(Be32(value))
    else if count == 2 then Ok(Be64(value))
    else InvalidData
  }

  function HexDigit(d: nat): byte
    requires d < 16
  {
    if d < 10 then 48 + d else 87 + d
  }

  /// `{:x}`.
  function Hex(n: nat): (b: bytes)
    ensures NulFree(b)
  {
    if n < 16 then [HexDigit(n)] else Hex(n / 16) + [HexDigit(n % 16)]
  }

  function ParkingName(base: nat): bytes { Ascii("spin-table@") + Hex(base) }

  function RegRanges(node: Node, addressCells: u32, sizeCells: u32): Result<seq<Range>> {
    match Get(node, PROP_REG)
    case None => Ok([])
    case Some(reg) => DecodeReg(reg, addressCells, sizeCells)
  }

  predicate Overlaps(ranges: seq<Range>, base: nat) {
    exists r <- ranges :: r.start < base + SPIN_TABLE_BYTES && base < r.end
  }

  /// Whether this reservation concerns the parking page at all.
  predicate Concerned(node: Node, ranges: seq<Range>, base: nat) {
    Overlaps(ranges, base) || IsContract(node) || node.name == ParkingName(base)
  }

  predicate IsParking(node: Node, ranges: seq<Range>, base: nat) {
    WellOwned(node) && ranges == [Range(base, base + SPIN_TABLE_BYTES)]
  }

  /// The loop of `graft_parking_reservation`: whether the page is reserved already.
  function CheckReservations(nodes: seq<Node>, addressCells: u32, sizeCells: u32, base: nat, already: bool): Result<bool>
    decreases |nodes|
  {
    if nodes == [] then Ok(already)
    else
      var ranges :- RegRanges(nodes[0], addressCells, sizeCells);
      if !Concerned(nodes[0], ranges, base) then CheckReservations(nodes[1..], addressCells, sizeCells, base, already)
      else if IsParking(nodes[0], ranges, base) && !already then CheckReservations(nodes[1..], addressCells, sizeCells, base, true)
      else InvalidData
  }

  function NewReserved(root: Node): Result<Node> {
    var addressCells :- NodeCells(root, PROP_ADDRESS_CELLS, 2);
    var sizeCells :- NodeCells(root, PROP_SIZE_CELLS, 1);
    Ok(Node(RESERVED_MEMORY,
            [Property(PROP_ADDRESS_CELLS, Be32(addressCells)), Property(PROP_SIZE_CELLS, Be32(sizeCells)), Property(PROP_RANGES, [])],
            []))
  }

  function NewParking(base: u64, addressCells: u32, sizeCells: u32): Result<Node> {
    var address :- EncodeCells(base, addressCells);
    var size :- EncodeCells(SPIN_TABLE_BYTES, sizeCells);
    Ok(Node(ParkingName(base),
            [Property(PROP_COMPATIBLE, SPIN_TABLE_COMPAT + [0]), Property(PROP_NO_MAP, []), Property(PROP_REG, address + size)],
            []))
  }

  function WithReserved(root: Node): Result<Node> {
    if Child(root, RESERVED_MEMORY).Some? then Ok(root)
    else
      var reserved :- NewReserved(root);
      Ok(root.(children := root.children + [reserved]))
  }

  /// `graft_parking_reservation`.
  function GraftParking(root: Node, base: u64): Result<Node> {
    var root' :- WithReserved(root);
    match ChildIndex(root'.children, RESERVED_MEMORY)
    case None => InvalidData
    case Some(i) =>
      var reserved := root'.children[i];
      var (addressCells, sizeCells) :- ReservedCells(root', reserved);
      var already :- CheckReservations(reserved.children, addressCells, sizeCells, base, false);
      if already then Ok(root')
      else
        var parking :- NewParking(base, addressCells, sizeCells);
        Ok(root'.(children := root'.children[i := reserved.(children := reserved.children + [parking])]))
  }

  // Editing the destination.

  /// What `graft_spin_table` does to one CPU.
  function EditCpu(cpu: Node, mpidr: nat, base: nat, providers: seq<Provider>): Result<Node> {
    RemoveDomains(Remove(Set(Set(cpu, PROP_ENABLE_METHOD, SPIN_TABLE_METHOD), PROP_RELEASE_ADDR, ReleaseAddr(base, mpidr)),
                         PROP_IDLE_STATES),
                  providers)
  }

  function EditCpus(nodes: seq<Node>, addressCells: u32, base: nat, providers: seq<Provider>): Result<seq<Node>> {
    if nodes == [] then Ok([])
    else
      var head :- if IsCpu(nodes[0])
                  then (match Mpidr(nodes[0], addressCells)
                        case Ok(id) => EditCpu(nodes[0], id, base, providers)
                        case InvalidData => InvalidData)
                  else Ok(nodes[0]);
      var rest :- EditCpus(nodes[1..], addressCells, base, providers);
      Ok([head] + rest)
  }

  function EditTarget(target: Node, base: nat, providers: seq<Provider>): Result<Node> {
    match ChildIndex(target.children, CPUS)
    case None => InvalidData
    case Some(i) =>
      var cpus := target.children[i];
      var addressCells :- CpuCells(cpus);
      var edited :- EditCpus(cpus.children, addressCells, base, providers);
      Ok(target.(children := target.children[i := cpus.(children := edited)]))
  }

  /// The destination tree after the CPUs, PSCI and the parking page are dealt with.
  function GraftTarget(target: Node, base: u64): Result<Node> {
    var providers :- Providers(target);
    var edited :- EditTarget(target, base, providers);
    GraftParking(Disable(edited), base)
  }

  // The reservation map.

  /// `validate_parking_reserve_map`: an overlapping entry must be the page itself.
  function MapReserves(ranges: seq<Range>, base: nat): Result<bool> {
    if ranges == [] then Ok(false)
    else
      var rest :- MapReserves(ranges[1..], base);
      var r := ranges[0];
      if !(r.start < base + SPIN_TABLE_BYTES && base < r.end) then Ok(rest)
      else if r == Range(base, base + SPIN_TABLE_BYTES) then Ok(true)
      else InvalidData
  }

  function AddToMap(reserveMap: bytes, base: u64): bytes
    requires |reserveMap| >= 16
  {
    reserveMap[..|reserveMap| - 16] + Be64(base) + Be64(SPIN_TABLE_BYTES) + Zeros(16)
  }

  // The whole graft.

  /// The page a live blob hands on, once every check on the live side has passed.
  function LiveContract(liveDtb: bytes): (r: Result<Option<u64>>)
    ensures r.Ok? && r.value.Some? ==> ValidBase(r.value.value)
  {
    var live :- ContractTree(liveDtb);
    var contract :- SpinTableContract(live);
    match contract
    case None => Ok(None)
    case Some(base) =>
      if ParseHeader(liveDtb).value.bootCpuidPhys != 0 then InvalidData
      else
        var _ :- GraftParking(live, base);
        var ranges :- ReserveMapRanges(liveDtb);
        var _ :- MapReserves(ranges, base);
        Ok(Some(base))
  }

  // What editing a CPU leaves alone.

  predicate EditedName(name: bytes) {
    || name == PROP_ENABLE_METHOD || name == PROP_RELEASE_ADDR || name == PROP_IDLE_STATES
    || name == PROP_POWER_DOMAINS || name == PROP_POWER_DOMAIN_NAMES
  }

  lemma UneditedNames()
    ensures !EditedName(PROP_COMPATIBLE) && !EditedName(PROP_DEVICE_TYPE) && !EditedName(PROP_REG)
    ensures !EditedName(PROP_STATUS) && !EditedName(PROP_ENTRY_METHOD) && !EditedName(PROP_SUSPEND_PARAM)
    ensures !EditedName(PROP_POWER_DOMAIN_CELLS) && !EditedName(PROP_PHANDLE) && !EditedName(PROP_LINUX_PHANDLE)
  {
    assert PROP_LINUX_PHANDLE[0] == 108 && PROP_ENABLE_METHOD[0] == 101 && PROP_POWER_DOMAINS[0] == 112;
  }

  lemma EditedNamesDiffer()
    ensures PROP_ENABLE_METHOD != PROP_RELEASE_ADDR && PROP_ENABLE_METHOD != PROP_IDLE_STATES
    ensures PROP_RELEASE_ADDR != PROP_IDLE_STATES
    ensures PROP_POWER_DOMAINS != PROP_ENABLE_METHOD && PROP_POWER_DOMAINS != PROP_RELEASE_ADDR
    ensures PROP_POWER_DOMAINS != PROP_IDLE_STATES
    ensures PROP_POWER_DOMAIN_NAMES != PROP_ENABLE_METHOD && PROP_POWER_DOMAIN_NAMES != PROP_RELEASE_ADDR
    ensures PROP_POWER_DOMAIN_NAMES != PROP_IDLE_STATES
  {
    assert PROP_ENABLE_METHOD[0] == 101 && PROP_POWER_DOMAINS[0] == 112;
  }

  /// The CPU just before its power domains are filtered.
  function SlotCpu(cpu: Node, mpidr: nat, base: nat): Node {
    Remove(Set(Set(cpu, PROP_ENABLE_METHOD, SPIN_TABLE_METHOD), PROP_RELEASE_ADDR, ReleaseAddr(base, mpidr)), PROP_IDLE_STATES)
  }

  lemma SlotCpuGet(cpu: Node, mpidr: nat, base: nat, other: bytes)
    ensures Get(SlotCpu(cpu, mpidr, base), other) ==
      if other == PROP_IDLE_STATES then None
      else if other == PROP_RELEASE_ADDR then Some(ReleaseAddr(base, mpidr))
      else if other == PROP_ENABLE_METHOD then Some(SPIN_TABLE_METHOD)
      else Get(cpu, other)
  {
    EditedNamesDiffer();
    hide GetProp, SetProp, RemoveProp, ReleaseAddr, Bytes.Ascii;
    var a := SetProp(cpu.props, PROP_ENABLE_METHOD, SPIN_TABLE_METHOD);
    var b := SetProp(a, PROP_RELEASE_ADDR, ReleaseAddr(base, mpidr));
    GetSetProp(cpu.props, PROP_ENABLE_METHOD, SPIN_TABLE_METHOD, other);
    GetSetProp(a, PROP_RELEASE_ADDR, ReleaseAddr(base, mpidr), other);
    GetRemoveProp(b, PROP_IDLE_STATES, other);
  }

  lemma EditCpuGet(cpu: Node, mpidr: nat, base: nat, providers: seq<Provider>, other: bytes)
    requires EditCpu(cpu, mpidr, base, providers).Ok?
    ensures
      var cpu' := EditCpu(cpu, mpidr, base, providers).value;
      && cpu'.name == cpu.name && cpu'.children == cpu.children
      && (other == PROP_IDLE_STATES ==> Get(cpu', other).None?)
      && (other == PROP_RELEASE_ADDR ==> Get(cpu', other) == Some(ReleaseAddr(base, mpidr)))
      && (other == PROP_ENABLE_METHOD ==> Get(cpu', other) == Some(SPIN_TABLE_METHOD))
      && (!EditedName(other) ==> Get(cpu', other) == Get(cpu, other))
  {
    EditedNamesDiffer();
    hide GetProp, SetProp, RemoveProp, ReleaseAddr, Tuples, RetainedNames, Bytes.Ascii;
    var slot := SlotCpu(cpu, mpidr, base);
    SlotCpuGet(cpu, mpidr, base, other);
    var domains := Get(slot, PROP_POWER_DOMAINS);
    if domains.Some? {
      var tuples := Tuples(domains.value, providers).value;
      SetDomainsGet(slot, Retained(tuples), RetainedNames(Get(slot, PROP_POWER_DOMAIN_NAMES), tuples).value, other);
    }
  }

  /// An edited CPU is the same kind of node, and owns its slot.
  lemma EditCpuKind(cpu: Node, mpidr: nat, base: nat, providers: seq<Provider>, psci: bool)
    requires EditCpu(cpu, mpidr, base, providers).Ok?
    ensures
      var cpu' := EditCpu(cpu, mpidr, base, providers).value;
      && cpu'.name == cpu.name && cpu'.children == cpu.children
      && IsPsci(cpu') == IsPsci(cpu) && IsIdle(cpu') == IsIdle(cpu) && IsCpu(cpu') == IsCpu(cpu)
      && OwnProvider(cpu', psci) == OwnProvider(cpu, psci)
      && Get(cpu', PROP_REG) == Get(cpu, PROP_REG)
      && Get(cpu', PROP_ENABLE_METHOD) == Some(SPIN_TABLE_METHOD)
      && Get(cpu', PROP_RELEASE_ADDR) == Some(ReleaseAddr(base, mpidr))
  {
    UneditedNames();
    hide GetProp, ReleaseAddr, EditCpu, EditedName, HasItem, Bytes.Ascii, PropertyU32, StatusEnabled;
    EditCpuGet(cpu, mpidr, base, providers, PROP_COMPATIBLE);
    EditCpuGet(cpu, mpidr, base, providers, PROP_DEVICE_TYPE);
    EditCpuGet(cpu, mpidr, base, providers, PROP_REG);
    EditCpuGet(cpu, mpidr, base, providers, PROP_STATUS);
    EditCpuGet(cpu, mpidr, base, providers, PROP_ENTRY_METHOD);
    EditCpuGet(cpu, mpidr, base, providers, PROP_SUSPEND_PARAM);
    EditCpuGet(cpu, mpidr, base, providers, PROP_POWER_DOMAIN_CELLS);
    EditCpuGet(cpu, mpidr, base, providers, PROP_PHANDLE);
    EditCpuGet(cpu, mpidr, base, providers, PROP_LINUX_PHANDLE);
    EditCpuGet(cpu, mpidr, base, providers, PROP_ENABLE_METHOD);
    EditCpuGet(cpu, mpidr, base, providers, PROP_RELEASE_ADDR);
  }

  /// Editing an edited CPU again: nothing left to do, provided its remaining providers are known.
  lemma EditCpuAgain(cpu: Node, cpu': Node, mpidr: nat, base: nat, providers: seq<Provider>, fewer: seq<Provider>)
    requires EditCpu(cpu, mpidr, base, providers).Ok? && Consistent(providers, fewer)
    requires cpu'.props == EditCpu(cpu, mpidr, base, providers).value.props
    ensures EditCpu(cpu', mpidr, base, fewer) == if DomainsFound(cpu, providers, fewer) then Ok(cpu') else InvalidData
  {
    EditedNamesDiffer();
    hide GetProp, SetProp, RemoveProp, ReleaseAddr, Tuples, RetainedNames, EditedName, Bytes.Ascii, Consistent;
    var slot, done := SlotCpu(cpu, mpidr, base), EditCpu(cpu, mpidr, base, providers).value;
    EditCpuGet(cpu, mpidr, base, providers, PROP_ENABLE_METHOD);
    EditCpuGet(cpu, mpidr, base, providers, PROP_RELEASE_ADDR);
    EditCpuGet(cpu, mpidr, base, providers, PROP_IDLE_STATES);
    SetSameProp(cpu'.props, PROP_ENABLE_METHOD, SPIN_TABLE_METHOD);
    SetSameProp(cpu'.props, PROP_RELEASE_ADDR, ReleaseAddr(base, mpidr));
    RemoveAbsentProp(cpu'.props, PROP_IDLE_STATES);
    assert SlotCpu(cpu', mpidr, base) == cpu';
    SlotCpuGet(cpu, mpidr, base, PROP_POWER_DOMAINS);
    RemoveDomainsAgain(slot, providers, fewer);
    assert DomainsFound(slot, providers, fewer) <==> DomainsFound(cpu, providers, fewer);
    RemoveDomainsProps(done, cpu', fewer);
  }

  /// Filtering looks at properties only.
  lemma RemoveDomainsProps(x: Node, y: Node, providers: seq<Provider>)
    requires x.props == y.props && (RemoveDomains(x, providers).Ok? ==> RemoveDomains(x, providers).value == x)
    ensures RemoveDomains(y, providers) == if RemoveDomains(x, providers).Ok? then Ok(y) else InvalidData
  {
    hide GetProp, SetProp, RemoveProp, Tuples, RetainedNames;
  }
}
