/// The loops of the spin-table graft in `src/kexec.rs`: editing the properties of a node in place,
/// collecting CPUs and providers, and checking reservations, each proved against its specification.
module SpinCode {
  import opened Bytes
  import opened Handoff
  import opened Tree
  import opened Dtb
  import opened Contract
  import opened Reserved
  import opened Nodes
  import opened Psci
  import opened SpinTable
  import opened SpinBlob

  /// A node whose properties are edited in place.
  class ContractNode {
    const name: bytes
    const children: seq<Node>
    var props: seq<Property>

    constructor (node: Node)
      ensures Value() == node
    {
      name, children, props := node.name, node.children, node.props;
    }

    function Value(): Node
      reads this
    {
      Node(name, props, children)
    }

    /// `set`: the first property with this name, or a new last one.
    method SetProperty(key: bytes, value: bytes)
      modifies this
      ensures Value() == Set(old(Value()), key, value)
    {
      ghost var before := props;
      var i := 0;
      SplitProps(props, 0);
      while i < |props|
        invariant 0 <= i <= |props| && props == before
        invariant SetProp(before, key, value) == before[..i] + SetProp(before[i..], key, value)
      {
        SplitProps(props, i);
        if props[i].name == key {
          props := props[i := Property(key, value)];
          UpdateIsConcat(before, i, Property(key, value));
          return;
        }
        Assoc(before[..i], [before[i]], SetProp(before[i + 1..], key, value));
        i := i + 1;
      }
      assert before[i..] == [] && before[..i] == before;
      props := props + [Property(key, value)];
    }

    /// `remove`.
    method RemoveProperty(key: bytes)
      modifies this
      ensures Value() == Remove(old(Value()), key)
    {
      ghost var before := props;
      var kept: seq<Property> := [];
      var i := 0;
      SplitProps(before, 0);
      assert [] + RemoveProp(before, key) == RemoveProp(before, key);
      while i < |props|
        invariant 0 <= i <= |props| && props == before
        invariant RemoveProp(before, key) == kept + RemoveProp(before[i..], key)
      {
        SplitProps(before, i);
        Assoc(kept, [before[i]], RemoveProp(before[i + 1..], key));
        if props[i].name != key {
          kept := kept + [props[i]];
        } else {
          assert [] + RemoveProp(before[i + 1..], key) == RemoveProp(before[i + 1..], key);
        }
        i := i + 1;
      }
      assert before[i..] == [] && kept + [] == kept;
      props := kept;
    }

    /// `remove_psci_cpu_domains`.
    method RemovePsciCpuDomains(providers: seq<Provider>) returns (r: Result<()>)
      modifies this
      ensures r.Ok? <==> RemoveDomains(old(Value()), providers).Ok?
      ensures Value() == if r.Ok? then RemoveDomains(old(Value()), providers).value else old(Value())
    {
      hide SetProp, RemoveProp, GetProp, Tuples, RetainedNames, Retained;
      ghost var before := Value();
      var domains := Get(Value(), PROP_POWER_DOMAINS);
      if domains.None? {
        return Ok(());
      }
      if |domains.value| % 4 != 0 {
        return InvalidData;
      }
      var read := ReadTuples(domains.value, providers);
      if read.InvalidData? {
        return InvalidData;
      }
      var (retained, keepNames) := read.value;
      var names := RetainNames(Get(Value(), PROP_POWER_DOMAIN_NAMES), keepNames, Tuples(domains.value, providers).value);
      if names.InvalidData? {
        return InvalidData;
      }
      if retained == [] {
        RemoveProperty(PROP_POWER_DOMAINS);
        RemoveProperty(PROP_POWER_DOMAIN_NAMES);
      } else {
        SetProperty(PROP_POWER_DOMAINS, retained);
        if names.value.Some? {
          SetProperty(PROP_POWER_DOMAIN_NAMES, names.value.value);
        }
      }
      return Ok(());
    }

    /// What the graft does to one CPU.
    method Edit(mpidr: nat, base: nat, providers: seq<Provider>) returns (r: Result<()>)
      modifies this
      ensures r.Ok? <==> EditCpu(old(Value()), mpidr, base, providers).Ok?
      ensures r.Ok? ==> Value() == EditCpu(old(Value()), mpidr, base, providers).value
    {
      hide SetProp, RemoveProp, GetProp, Tuples, RetainedNames, Retained, SpinTable.ReleaseAddr, RemoveDomains;
      SetProperty(PROP_ENABLE_METHOD, SPIN_TABLE_METHOD);
      SetProperty(PROP_RELEASE_ADDR, ReleaseAddr(base, mpidr));
      RemoveProperty(PROP_IDLE_STATES);
      r := RemovePsciCpuDomains(providers);
    }
  }

  lemma SplitProps(props: seq<Property>, i: nat)
    requires i <= |props|
    ensures i == 0 ==> props[i..] == props && props[..i] == []
    ensures i == 0 ==> forall xs: seq<Property> :: props[..i] + xs == xs
    ensures i < |props| ==> props[i..][0] == props[i] && props[i..][1..] == props[i + 1..] && props[i..] != []
    ensures i < |props| ==> props[..i + 1] == props[..i] + [props[i]]
  {
  }

  lemma UpdateIsConcat(props: seq<Property>, i: nat, p: Property)
    requires i < |props|
    ensures props[i := p] == props[..i] + ([p] + props[i + 1..])
  {
  }

  // Power domains.

  function Joined(done: seq<Tuple>, rest: Result<seq<Tuple>>): Result<seq<Tuple>> {
    if rest.Ok? then Ok(done + rest.value) else InvalidData
  }

  lemma JoinedStep(done: seq<Tuple>, t: Tuple, rest: Result<seq<Tuple>>)
    ensures Joined(done, Joined([t], rest)) == Joined(done + [t], rest)
    ensures Joined([], rest) == rest
  {
    if rest.Ok? {
      assert done + ([t] + rest.value) == done + [t] + rest.value && [] + rest.value == rest.value;
    }
  }

  lemma TuplesStep(domains: bytes, providers: seq<Provider>)
    requires |domains| >= 4
    ensures
      var provider := FindProvider(providers, De32(domains[..4]));
      Tuples(domains, providers) ==
      if provider.None? || (provider.value.cells + 1) * 4 > |domains| then InvalidData
      else Joined([Tuple(domains[..(provider.value.cells + 1) * 4], !provider.value.psci)],
                  Tuples(domains[(provider.value.cells + 1) * 4..], providers))
  {
    hide FindProvider;
  }

  lemma {:induction false} RetainedSnoc(done: seq<Tuple>, t: Tuple)
    ensures Retained(done + [t]) == Retained(done) + (if t.keep then t.bytes else [])
    decreases |done|
  {
    if done == [] {
      assert done + [t] == [t] && [t][1..] == [];
      assert t.bytes + [] == t.bytes && [] + t.bytes == t.bytes;
    } else {
      RetainedSnoc(done[1..], t);
      assert (done + [t])[1..] == done[1..] + [t];
      var more := if t.keep then t.bytes else [];
      assert done[0].bytes + (Retained(done[1..]) + more) == done[0].bytes + Retained(done[1..]) + more;
    }
  }

  function Keeps(tuples: seq<Tuple>): seq<bool> { seq(|tuples|, i requires 0 <= i < |tuples| => tuples[i].keep) }

  /// The loop over the tuples: the retained bytes, and which names stay.
  method ReadTuples(domains: bytes, providers: seq<Provider>) returns (r: Result<(bytes, seq<bool>)>)
    requires |domains| % 4 == 0
    ensures r.Ok? <==> Tuples(domains, providers).Ok?
    ensures r.Ok? ==> r.value == (Retained(Tuples(domains, providers).value), Keeps(Tuples(domains, providers).value))
  {
    hide Tuples, Retained, FindProvider, Bytes.De32;
    var retained: bytes, keepNames: seq<bool> := [], [];
    var offset := 0;
    ghost var done: seq<Tuple> := [];
    ghost var all := Tuples(domains, providers);
    assert domains[0..] == domains;
    JoinedStep([], Tuple([], true), all);
    NothingRetained(providers);
    while offset < |domains|
      invariant 0 <= offset <= |domains| && offset % 4 == 0
      invariant retained == Retained(done) && keepNames == Keeps(done)
      invariant all == Joined(done, Tuples(domains[offset..], providers))
    {
      TuplesStep(domains[offset..], providers);
      assert domains[offset..][..4] == domains[offset..offset + 4];
      var provider := FindProvider(providers, De32(domains[offset..offset + 4]));
      if provider.None? {
        return InvalidData;
      }
      var n := (provider.value.cells + 1) * 4;
      if n > |domains| - offset {
        return InvalidData;
      }
      var end := offset + n;
      var t := Tuple(domains[offset..end], !provider.value.psci);
      assert domains[offset..][..n] == t.bytes && domains[offset..][n..] == domains[end..];
      JoinedStep(done, t, Tuples(domains[end..], providers));
      RetainedSnoc(done, t);
      keepNames := keepNames + [t.keep];
      if t.keep {
        retained := retained + t.bytes;
      } else {
        assert retained + [] == retained;
      }
      done := done + [t];
      offset := end;
    }
    assert domains[offset..] == [] && done + [] == done;
    return Ok((retained, keepNames));
  }

  lemma NothingRetained(providers: seq<Provider>)
    ensures Retained([]) == [] && Tuples([], providers) == Ok([])
  {
  }

  lemma {:induction false} JoinSnoc(names: seq<bytes>, last: bytes)
    ensures JoinNames(names + [last]) == JoinNames(names) + last + [0]
    decreases |names|
  {
    if names == [] {
      assert names + [last] == [last] && [last][1..] == [];
      assert last + [0] + [] == [] + last + [0];
    } else {
      JoinSnoc(names[1..], last);
      assert (names + [last])[1..] == names[1..] + [last];
      assert names[0] + [0] + (JoinNames(names[1..]) + last + [0]) == names[0] + [0] + JoinNames(names[1..]) + last + [0];
    }
  }

  /// The loop over the names and the tuples, side by side.
  method RetainNames(value: Option<bytes>, keep: seq<bool>, ghost tuples: seq<Tuple>) returns (r: Result<Option<bytes>>)
    requires keep == Keeps(tuples)
    ensures r == RetainedNames(value, tuples)
  {
    if value.None? {
      return Ok(None);
    }
    var v := value.value;
    if v == [] || v[|v| - 1] != 0 {
      return InvalidData;
    }
    var names := Items(v[..|v| - 1]);
    if |names| != |keep| {
      return InvalidData;
    }
    hide JoinNames;
    var retained: bytes := [];
    var i := 0;
    ghost var kept: seq<bytes> := [];
    assert names[0..] == names && tuples[0..] == tuples;
    assert [] + KeptNames(names, tuples) == KeptNames(names, tuples);
    NoNames();
    while i < |names|
      invariant 0 <= i <= |names| && retained == JoinNames(kept)
      invariant kept + KeptNames(names[i..], tuples[i..]) == KeptNames(names, tuples)
    {
      assert names[i..][0] == names[i] && names[i..][1..] == names[i + 1..];
      assert tuples[i..][0] == tuples[i] && tuples[i..][1..] == tuples[i + 1..];
      if keep[i] {
        JoinSnoc(kept, names[i]);
        assert kept + ([names[i]] + KeptNames(names[i + 1..], tuples[i + 1..]))
            == kept + [names[i]] + KeptNames(names[i + 1..], tuples[i + 1..]);
        retained := retained + names[i] + [0];
        kept := kept + [names[i]];
      }
      i := i + 1;
    }
    assert kept + [] == kept;
    return Ok(Some(retained));
  }

  lemma NoNames()
    ensures JoinNames([]) == []
  {
  }

  // CPUs.

  function Shift(ids: seq<nat>, rest: Result<seq<nat>>): Result<seq<nat>> {
    if rest.Ok? then Ok(ids + rest.value) else InvalidData
  }

  lemma ShiftStep(ids: seq<nat>, id: nat, rest: Result<seq<nat>>)
    ensures Shift(ids, Shift([id], rest)) == Shift(ids + [id], rest)
    ensures Shift([], rest) == rest
  {
    if rest.Ok? {
      assert ids + ([id] + rest.value) == ids + [id] + rest.value && [] + rest.value == rest.value;
    }
  }

  lemma IdsStep(nodes: seq<Node>, i: nat, addressCells: u32)
    requires i < |nodes|
    ensures Ids(nodes[i..], addressCells) ==
      if !IsCpu(nodes[i]) then Ids(nodes[i + 1..], addressCells)
      else if Mpidr(nodes[i], addressCells).InvalidData? then InvalidData
      else Shift([Mpidr(nodes[i], addressCells).value], Ids(nodes[i + 1..], addressCells))
  {
    hide IsCpu, Mpidr;
    assert nodes[i..][0] == nodes[i] && nodes[i..][1..] == nodes[i + 1..];
  }

  /// The entry of a CPU in the map.
  predicate Indexed(nodes: seq<Node>, addressCells: u32, id: nat, index: nat) {
    index < |nodes| && IsCpu(nodes[index]) && Mpidr(nodes[index], addressCells) == Ok(id)
  }

  lemma DuplicateFails(done: seq<nat>, id: nat, rest: seq<nat>)
    requires id in done
    ensures !DistinctIds(done + [id] + rest)
  {
    var i :| 0 <= i < |done| && done[i] == id;
    var all := done + [id] + rest;
    assert all[i] == id && all[|done|] == id;
  }

  lemma DistinctSnoc(done: seq<nat>, id: nat)
    requires DistinctIds(done) && id !in done
    ensures DistinctIds(done + [id])
  {
  }

  /// `cpu_nodes`: a map from MPIDR to the index of the CPU among the children of /cpus.
  method CpuNodes(root: Node) returns (r: Result<map<nat, nat>>)
    ensures r.Ok? <==> CpuIds(root).Ok?
    ensures r.Ok? ==> r.value.Keys == IdSet(CpuIds(root).value)
    ensures r.Ok? ==> Child(root, CPUS).Some? && CpuCells(Child(root, CPUS).value).Ok?
                      && forall id <- r.value :: Indexed(Child(root, CPUS).value.children,
                                                         CpuCells(Child(root, CPUS).value).value, id, r.value[id])
  {
    hide IsCpu, Mpidr, NodeCells, Ids, GetProp;
    var cpus := Child(root, CPUS);
    if cpus.None? {
      return InvalidData;
    }
    var cells := CpuCells(cpus.value);
    if cells.InvalidData? {
      return InvalidData;
    }
    var nodes := cpus.value.children;
    var found: map<nat, nat> := map[];
    ghost var done: seq<nat> := [];
    ghost var all := Ids(nodes, cells.value);
    assert nodes[0..] == nodes;
    ShiftStep([], 0, all);
    var i := 0;
    while i < |nodes|
      invariant 0 <= i <= |nodes|
      invariant all == Shift(done, Ids(nodes[i..], cells.value))
      invariant DistinctIds(done) && found.Keys == IdSet(done)
      invariant forall id <- found :: Indexed(nodes, cells.value, id, found[id])
    {
      IdsStep(nodes, i, cells.value);
      if IsCpu(nodes[i]) {
        var id := Mpidr(nodes[i], cells.value);
        if id.InvalidData? {
          return InvalidData;
        }
        var rest := Ids(nodes[i + 1..], cells.value);
        ShiftStep(done, id.value, rest);
        if id.value in found {
          if rest.Ok? {
            DuplicateFails(done, id.value, rest.value);
          }
          return InvalidData;
        }
        DistinctSnoc(done, id.value);
        found := found[id.value := i];
        done := done + [id.value];
      }
      i := i + 1;
    }
    NoIds(nodes, cells.value);
    assert done + [] == done;
    return Ok(found);
  }

  lemma NoIds(nodes: seq<Node>, addressCells: u32)
    ensures nodes[|nodes|..] == [] && Ids([], addressCells) == Ok([])
  {
  }

  // Providers.

  function Extended(found: seq<Provider>, more: Result<seq<Provider>>): Result<seq<Provider>> {
    if more.Ok? && Distinct(found + more.value) then Ok(found + more.value) else InvalidData
  }

  lemma ExtendTwice(found: seq<Provider>, x: Result<seq<Provider>>, y: Result<seq<Provider>>)
    ensures Extended(found, Both(x, y)) == if Extended(found, x).InvalidData? then InvalidData else Extended(found + x.value, y)
  {
    if x.Ok? && y.Ok? {
      assert found + (x.value + y.value) == found + x.value + y.value;
      if Distinct(found + x.value + y.value) {
        var all := found + x.value + y.value;
        assert forall i :: 0 <= i < |found + x.value| ==> all[i] == (found + x.value)[i];
      }
    }
  }

  lemma ExtendNothing(found: seq<Provider>)
    requires Distinct(found)
    ensures Extended(found, Ok([])) == Ok(found)
  {
    assert found + [] == found;
  }

  lemma ExtendOne(found: seq<Provider>, p: Provider)
    requires Distinct(found)
    ensures Extended(found, Ok([p])) == if exists q <- found :: q.phandle == p.phandle then InvalidData else Ok(found + [p])
  {
    var all := found + [p];
    if q :| q in found && q.phandle == p.phandle {
      var i :| 0 <= i < |found| && found[i] == q;
      assert all[i].phandle == all[|found|].phandle;
    }
  }

  /// The recursive visit of `power_domain_providers`, which stops at a phandle seen before.
  method VisitProviders(node: Node, psciParent: bool, found: seq<Provider>) returns (r: Result<seq<Provider>>)
    requires Distinct(found)
    ensures r == Extended(found, ListProviders(node, psciParent))
    ensures r.Ok? ==> Distinct(r.value)
    decreases node
  {
    hide IsPsci, GetProp, PropertyU32, Distinct, Extended;
    var psci := psciParent || IsPsci(node);
    ghost var own := OwnProvider(node, psci);
    ExtendTwice(found, own, ListForestProviders(node.children, psci));
    var here := AddOwn(node, psci, found);
    if here.InvalidData? {
      return InvalidData;
    }
    assert here.value == found + own.value by { ExtendedValue(found, own); }
    var all := here.value;
    var i := 0;
    assert node.children[0..] == node.children;
    while i < |node.children|
      invariant 0 <= i <= |node.children| && Distinct(all)
      invariant Extended(all, ListForestProviders(node.children[i..], psci)) == Extended(found, ListProviders(node, psciParent))
    {
      assert node.children[i..][0] == node.children[i] && node.children[i..][1..] == node.children[i + 1..];
      ExtendTwice(all, ListProviders(node.children[i], psci), ListForestProviders(node.children[i + 1..], psci));
      var more := VisitProviders(node.children[i], psci, all);
      if more.InvalidData? {
        return InvalidData;
      }
      ExtendedValue(all, ListProviders(node.children[i], psci));
      all := more.value;
      i := i + 1;
    }
    assert node.children[i..] == [];
    ExtendNothing(all);
    return Ok(all);
  }

  lemma ExtendedValue(found: seq<Provider>, more: Result<seq<Provider>>)
    requires Extended(found, more).Ok?
    ensures more.Ok? && Extended(found, more).value == found + more.value && Distinct(found + more.value)
  {
  }

  method AddOwn(node: Node, psci: bool, found: seq<Provider>) returns (r: Result<seq<Provider>>)
    requires Distinct(found)
    ensures r == Extended(found, OwnProvider(node, psci))
    ensures r.Ok? ==> Distinct(r.value)
  {
    hide GetProp, PropertyU32, Distinct, Extended, Psci.PhandleOf;
    var cells, phandle := Get(node, PROP_POWER_DOMAIN_CELLS), Psci.PhandleOf(node);
    ExtendFails(found);
    if cells.None? || phandle.None? {
      ExtendNothing(found);
      return Ok(found);
    }
    var handle := PropertyU32(phandle.value);
    if handle.InvalidData? || handle.value == 0 || handle.value == U32_LIMIT - 1 {
      return InvalidData;
    }
    var count := PropertyU32(cells.value);
    if count.InvalidData? {
      return InvalidData;
    }
    var p := Provider(handle.value, count.value, psci);
    ExtendOne(found, p);
    if exists q <- found :: q.phandle == handle.value {
      return InvalidData;
    }
    ExtendedValue(found, Ok([p]));
    return Ok(found + [p]);
  }

  lemma ExtendFails(found: seq<Provider>)
    ensures Extended(found, InvalidData) == InvalidData
  {
  }

  /// `power_domain_providers`.
  method PowerDomainProviders(root: Node) returns (r: Result<seq<Provider>>)
    ensures r == Providers(root)
  {
    r := VisitProviders(root, false, []);
    var all := ListProviders(root, false);
    if all.Ok? {
      assert [] + all.value == all.value;
    }
  }

  // Reservations.

  /// The loop of `graft_parking_reservation`.
  method CheckParking(nodes: seq<Node>, addressCells: u32, sizeCells: u32, base: nat) returns (r: Result<bool>)
    ensures r == CheckReservations(nodes, addressCells, sizeCells, base, false)
  {
    hide RegRanges, Concerned, IsParking;
    var already, i := false, 0;
    assert nodes[0..] == nodes;
    while i < |nodes|
      invariant 0 <= i <= |nodes|
      invariant CheckReservations(nodes, addressCells, sizeCells, base, false)
        == CheckReservations(nodes[i..], addressCells, sizeCells, base, already)
    {
      assert nodes[i..][0] == nodes[i] && nodes[i..][1..] == nodes[i + 1..];
      var ranges := RegRanges(nodes[i], addressCells, sizeCells);
      if ranges.InvalidData? {
        return InvalidData;
      }
      if Concerned(nodes[i], ranges.value, base) {
        if !IsParking(nodes[i], ranges.value, base) || already {
          return InvalidData;
        }
        already := true;
      }
      i := i + 1;
    }
    return Ok(already);
  }

  /// `validate_parking_reserve_map`.
  method ValidateMap(ranges: seq<Range>, base: nat) returns (r: Result<bool>)
    ensures r == MapReserves(ranges, base)
  {
    var already, i := false, 0;
    assert ranges[0..] == ranges;
    while i < |ranges|
      invariant 0 <= i <= |ranges|
      invariant MapReserves(ranges, base) ==
        (var rest := MapReserves(ranges[i..], base);
         if rest.InvalidData? then InvalidData else Ok(already || rest.value))
    {
      assert ranges[i..][0] == ranges[i] && ranges[i..][1..] == ranges[i + 1..];
      var range := ranges[i];
      if range.start < base + SPIN_TABLE_BYTES && base < range.end {
        if range != Range(base, base + SPIN_TABLE_BYTES) {
          return InvalidData;
        }
        already := true;
      }
      i := i + 1;
    }
    assert ranges[i..] == [];
    return Ok(already);
  }

  // The edit of the destination.

  function Edited(done: seq<Node>, rest: Result<seq<Node>>): Result<seq<Node>> {
    if rest.Ok? then Ok(done + rest.value) else InvalidData
  }

  lemma EditedStep(done: seq<Node>, n: Node, rest: Result<seq<Node>>)
    ensures Edited(done, Edited([n], rest)) == Edited(done + [n], rest)
    ensures Edited([], rest) == rest
  {
    if rest.Ok? {
      assert done + ([n] + rest.value) == done + [n] + rest.value && [] + rest.value == rest.value;
    }
  }

  lemma EditsStep(nodes: seq<Node>, i: nat, addressCells: u32, base: nat, providers: seq<Provider>)
    requires i < |nodes|
    ensures EditCpus(nodes[i..], addressCells, base, providers) ==
      if !IsCpu(nodes[i]) then Edited([nodes[i]], EditCpus(nodes[i + 1..], addressCells, base, providers))
      else if Mpidr(nodes[i], addressCells).InvalidData? then InvalidData
      else if EditCpu(nodes[i], Mpidr(nodes[i], addressCells).value, base, providers).InvalidData? then InvalidData
      else Edited([EditCpu(nodes[i], Mpidr(nodes[i], addressCells).value, base, providers).value],
                  EditCpus(nodes[i + 1..], addressCells, base, providers))
  {
    hide IsCpu, Mpidr, EditCpu;
    assert nodes[i..][0] == nodes[i] && nodes[i..][1..] == nodes[i + 1..];
  }

  /// The loop over the CPUs of the destination, each edited in place.
  method EditCpuNodes(nodes: seq<Node>, addressCells: u32, base: nat, providers: seq<Provider>) returns (r: Result<seq<Node>>)
    ensures r == EditCpus(nodes, addressCells, base, providers)
  {
    hide IsCpu, Mpidr, EditCpu, EditCpus;
    var done: seq<Node> := [];
    ghost var all := EditCpus(nodes, addressCells, base, providers);
    assert nodes[0..] == nodes;
    EditedStep([], NewNode([]), all);
    var i := 0;
    while i < |nodes|
      invariant 0 <= i <= |nodes|
      invariant all == Edited(done, EditCpus(nodes[i..], addressCells, base, providers))
    {
      EditsStep(nodes, i, addressCells, base, providers);
      var after := nodes[i];
      if IsCpu(nodes[i]) {
        var id := Mpidr(nodes[i], addressCells);
        if id.InvalidData? {
          return InvalidData;
        }
        var cpu := new ContractNode(nodes[i]);
        var edited := cpu.Edit(id.value, base, providers);
        if edited.InvalidData? {
          return InvalidData;
        }
        after := cpu.Value();
      }
      EditedStep(done, after, EditCpus(nodes[i + 1..], addressCells, base, providers));
      done := done + [after];
      i := i + 1;
    }
    NoEdits(nodes, addressCells, base, providers);
    assert done + [] == done;
    return Ok(done);
  }

  lemma NoEdits(nodes: seq<Node>, addressCells: u32, base: nat, providers: seq<Provider>)
    ensures nodes[|nodes|..] == [] && EditCpus([], addressCells, base, providers) == Ok([])
  {
  }

  /// `graft_parking_reservation`.
  method GraftParkingReservation(root: Node, base: u64) returns (r: Result<Node>)
    ensures r == GraftParking(root, base)
  {
    hide ReservedCells, CheckReservations, NewParking, WithReserved;
    var whole := WithReserved(root);
    if whole.InvalidData? {
      return InvalidData;
    }
    var i := ChildIndex(whole.value.children, RESERVED_MEMORY);
    if i.None? {
      return InvalidData;
    }
    var reserved := whole.value.children[i.value];
    var cells := ReservedCells(whole.value, reserved);
    if cells.InvalidData? {
      return InvalidData;
    }
    var already := CheckParking(reserved.children, cells.value.0, cells.value.1, base);
    if already.InvalidData? {
      return InvalidData;
    }
    if already.value {
      return whole;
    }
    var parking := NewParking(base, cells.value.0, cells.value.1);
    if parking.InvalidData? {
      return InvalidData;
    }
    var children := whole.value.children[i.value := reserved.(children := reserved.children + [parking.value])];
    return Ok(whole.value.(children := children));
  }

  /// The destination part of `graft_spin_table`, on the tree.
  method GraftTargetTree(target: Node, base: u64) returns (r: Result<Node>)
    ensures r == GraftTarget(target, base)
  {
    hide Providers, Disable, GraftParking, CpuCells, EditCpus;
    var providers := PowerDomainProviders(target);
    if providers.InvalidData? {
      return InvalidData;
    }
    var i := ChildIndex(target.children, CPUS);
    if i.None? {
      return InvalidData;
    }
    var cpus := target.children[i.value];
    var cells := CpuCells(cpus);
    if cells.InvalidData? {
      return InvalidData;
    }
    var edited := EditCpuNodes(cpus.children, cells.value, base, providers.value);
    if edited.InvalidData? {
      return InvalidData;
    }
    var whole := target.(children := target.children[i.value := cpus.(children := edited.value)]);
    r := GraftParkingReservation(Disable(whole), base);
  }

  /// The checks of `graft_spin_table` on the live side.
  method CheckLive(liveDtb: bytes) returns (r: Result<Option<u64>>)
    ensures r == LiveContract(liveDtb)
  {
    hide ContractTree, SpinTableContract, GraftParking, ReserveMapRanges, MapReserves, ParseHeader;
    var live := ReadContractTree(liveDtb);
    if live.InvalidData? {
      return InvalidData;
    }
    var contract := SpinTableContract(live.value);
    if contract.InvalidData? {
      return InvalidData;
    }
    if contract.value.None? {
      return Ok(None);
    }
    var base := contract.value.value;
    ParsedHasHeader(liveDtb);
    if ParseHeader(liveDtb).value.bootCpuidPhys != 0 {
      return InvalidData;
    }
    var parked := GraftParkingReservation(live.value, base);
    var ranges := ReadReserveMapRanges(liveDtb);
    if parked.InvalidData? || ranges.InvalidData? {
      return InvalidData;
    }
    var valid := ValidateMap(ranges.value, base);
    return if valid.InvalidData? then InvalidData else Ok(Some(base));
  }

  lemma ParsedHasHeader(dtb: bytes)
    requires ContractTree(dtb).Ok?
    ensures ParseHeader(dtb).Ok?
  {
  }

  /// `graft_spin_table`.
  method GraftSpinTableBlob(dtb: bytes, liveDtb: bytes) returns (r: Result<bytes>)
    ensures r == GraftSpinTable(dtb, liveDtb)
  {
    hide LiveContract, ContractTree, CpuIds, GraftTarget, GraftMap, ParseHeader, BuildContractTree, IdSet;
    var contract := CheckLive(liveDtb);
    var live := ReadContractTree(liveDtb);
    if contract.InvalidData? || live.InvalidData? {
      return InvalidData;
    }
    if contract.value.None? {
      return Ok(dtb);
    }
    var base := contract.value.value;
    ContractBase(liveDtb);
    var liveCpus := CpuNodes(live.value);
    var target := ReadContractTree(dtb);
    if liveCpus.InvalidData? || target.InvalidData? {
      return InvalidData;
    }
    ParsedHasHeader(dtb);
    var header := ParseHeader(dtb).value;
    if header.bootCpuidPhys != 0 {
      return InvalidData;
    }
    var targetCpus := CpuNodes(target.value);
    if targetCpus.InvalidData? || liveCpus.value.Keys != targetCpus.value.Keys {
      return InvalidData;
    }
    var grafted := GraftTargetTree(target.value, base);
    var reserveMap := GraftReserveMap(dtb, base);
    if grafted.InvalidData? || reserveMap.InvalidData? {
      return InvalidData;
    }
    GraftedPrintable(dtb, base);
    return BuildContractTree(header, grafted.value, reserveMap.value);
  }

  lemma ContractBase(liveDtb: bytes)
    requires LiveContract(liveDtb).Ok? && LiveContract(liveDtb).value.Some?
    ensures ValidBase(LiveContract(liveDtb).value.value)
  {
  }

  lemma GraftedPrintable(dtb: bytes, base: u64)
    requires ValidBase(base) && ContractTree(dtb).Ok? && GraftTarget(ContractTree(dtb).value, base).Ok?
    ensures Printable(GraftTarget(ContractTree(dtb).value, base).value)
  {
    ParsedWf(dtb);
    ParsedPrintable(StructBlock(dtb).value, StringsBlock(dtb).value);
    hide ContractTree, GraftTarget, StructBlock, StringsBlock;
    GraftTargetGood(ContractTree(dtb).value, base);
  }

  /// The reservation map of the result.
  method GraftReserveMap(dtb: bytes, base: u64) returns (r: Result<bytes>)
    ensures r == GraftMap(dtb, base)
  {
    hide ReserveMap, ReserveMapRanges, MapReserves, AddToMap;
    var reserveMap := ReadReserveMap(dtb);
    var ranges := ReadReserveMapRanges(dtb);
    if reserveMap.InvalidData? || ranges.InvalidData? {
      return InvalidData;
    }
    var already := ValidateMap(ranges.value, base);
    if already.InvalidData? {
      return InvalidData;
    }
    if already.value {
      return reserveMap;
    }
    if |reserveMap.value| < 16 {
      return InvalidData;
    }
    return Ok(AddToMap(reserveMap.value, base));
  }
}
