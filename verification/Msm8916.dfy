/// One node of the devicetree as `pocketpreboot/src/msm8916.rs` rewrites it: its kind, the
/// properties it loses and those it gains. Every error is the one `InvalidData`.
module Msm8916 {
  import opened Bytes
  import opened Handoff
  import opened Tree

  const MAX_PREBOOT_DEPTH: nat := 32

  const ENABLE_METHOD: bytes := Ascii("enable-method")
  const CPU_RELEASE_ADDR: bytes := Ascii("cpu-release-addr")
  const STATUS: bytes := Ascii("status")
  const POWER_DOMAINS: bytes := Ascii("power-domains")
  const POWER_DOMAIN_NAMES: bytes := Ascii("power-domain-names")
  const CPU_IDLE_STATES: bytes := Ascii("cpu-idle-states")
  const ENTRY_METHOD: bytes := Ascii("entry-method")
  const COMPATIBLE: bytes := Ascii("compatible")
  const REG: bytes := Ascii("reg")
  const POWER_DOMAIN_CELLS: bytes := Ascii("#power-domain-cells")
  const PHANDLE: bytes := Ascii("phandle")
  const LINUX_PHANDLE: bytes := Ascii("linux,phandle")
  const SPIN_TABLE: bytes := Ascii("spin-table") + [0]

  /// `PATCH_NAMES`.
  const PATCH_NAMES: seq<bytes> := [ENABLE_METHOD, CPU_RELEASE_ADDR, STATUS, POWER_DOMAINS, POWER_DOMAIN_NAMES]

  lemma FirstBytes()
    ensures ENABLE_METHOD[0] == 'e' as int && POWER_DOMAINS[0] == 'p' as int && LINUX_PHANDLE[0] == 'l' as int
  {
  }

  /// The five names differ, and none is a name that decides what happens to a node.
  lemma NamesDiffer()
    ensures forall i, j :: 0 <= i < j < 5 ==> PATCH_NAMES[i] != PATCH_NAMES[j]
    ensures Untouched(COMPATIBLE) && Untouched(REG) && Untouched(POWER_DOMAIN_CELLS)
    ensures Untouched(PHANDLE) && Untouched(LINUX_PHANDLE)
    ensures forall n <- PATCH_NAMES :: n != CPU_IDLE_STATES && n != ENTRY_METHOD && |n| <= 18
  {
    FirstBytes();
    hide Bytes.Ascii;
  }

  lemma CpuNamesNulFree()
    ensures NulFree(ENABLE_METHOD) && NulFree(CPU_RELEASE_ADDR) && NulFree(STATUS)
  {
  }

  lemma DomainNamesNulFree()
    ensures NulFree(POWER_DOMAINS) && NulFree(POWER_DOMAIN_NAMES)
  {
  }

  lemma NamesNulFree()
    ensures forall n <- PATCH_NAMES :: NulFree(n)
  {
    CpuNamesNulFree();
    DomainNamesNulFree();
    hide Bytes.NulFree, Bytes.Ascii;
  }

  /// `basename_eq`: the name up to an '@'.
  predicate BasenameEq(name: bytes, basename: bytes) {
    basename <= name && (|name| == |basename| || name[|basename|] == '@' as int)
      && forall i :: 0 <= i < |basename| ==> name[i] != '@' as int
  }

  /// `stringlist_contains`: only items that end in NUL count.
  predicate ListHas(value: bytes, item: bytes) {
    value != [] && FindNul(value, 0).Some? &&
      var end := FindNul(value, 0).value;
      value[..end] == item || ListHas(value[end + 1..], item)
  }

  /// `is_psci_node`.
  predicate IsPsci(compatible: Option<bytes>) {
    compatible.Some? &&
      (ListHas(compatible.value, Ascii("arm,psci")) || ListHas(compatible.value, Ascii("arm,psci-0.2"))
       || ListHas(compatible.value, Ascii("arm,psci-1.0")))
  }

  /// `prop_u32` on a value: the first cell.
  function FirstCell(value: Option<bytes>): Option<u32> {
    if value.Some? && |value.value| >= 4 then Some(De32(value.value[..4])) else None
  }

  // Power domains.

  /// The tuples and the names, at the same indices, of the domains whose provider is not PSCI.
  datatype Domains = Domains(cells: bytes, names: bytes)

  /// The loop of `filtered_power_domains`; the fixed buffers are accounted for at the end.
  function FilterDomains(cells: bytes, names: Option<bytes>, providers: seq<Provider>): (r: Result<Domains>)
    ensures r.Ok? && names.None? ==> r.value.names == []
    ensures r.Ok? && names.Some? && r.value.cells != [] ==> r.value.names != []
    ensures r.Ok? && r.value.cells == [] ==> r.value.names == []
    decreases |cells|
  {
    if cells == [] then
      if names.Some? && names.value != [] then InvalidData else Ok(Domains([], []))
    else if |cells| < 4 then InvalidData
    else
      var provider := FindProvider(providers, De32(cells[..4]));
      if provider.None? then InvalidData
      else
        var n := 4 * (provider.value.cells + 1);
        if n > |cells| then InvalidData
        else if names.Some? && FindNul(names.value, 0).None? then InvalidData
        else
          var k := if names.Some? then FindNul(names.value, 0).value + 1 else 0;
          var rest :- FilterDomains(cells[n..], if names.Some? then Some(names.value[k..]) else None, providers);
          if provider.value.psci then Ok(rest)
          else Ok(Domains(cells[..n] + rest.cells, (if names.Some? then names.value[..k] else []) + rest.names))
  }

  /// `filtered_power_domains`, with its buffers of 256 and 512 bytes.
  function FilteredDomains(cells: Option<bytes>, names: Option<bytes>, providers: seq<Provider>): (r: Result<Domains>)
    ensures r.Ok? ==> |r.value.cells| <= 256 && |r.value.names| <= 512
    ensures r.Ok? && names.None? ==> r.value.names == []
    ensures r.Ok? && names.Some? && r.value.cells != [] ==> r.value.names != []
    ensures r.Ok? && r.value.cells == [] ==> r.value.names == []
  {
    if cells.None? then
      if names.Some? then InvalidData else Ok(Domains([], []))
    else if |cells.value| % 4 != 0 then InvalidData
    else
      var out :- FilterDomains(cells.value, names, providers);
      if |out.cells| > 256 || |out.names| > 512 then InvalidData else Ok(out)
  }

  /// What has been filtered, in front of what is still to come.
  function JoinDomains(cells: bytes, names: bytes, rest: Result<Domains>): Result<Domains> {
    if rest.Ok? then Ok(Domains(cells + rest.value.cells, names + rest.value.names)) else InvalidData
  }

  lemma JoinTwice(c: bytes, n: bytes, c': bytes, n': bytes, rest: Result<Domains>)
    ensures JoinDomains(c, n, JoinDomains(c', n', rest)) == JoinDomains(c + c', n + n', rest)
    ensures JoinDomains([], [], rest) == rest
  {
    if rest.Ok? {
      assert c + (c' + rest.value.cells) == c + c' + rest.value.cells;
      assert n + (n' + rest.value.names) == n + n' + rest.value.names;
      assert [] + rest.value.cells == rest.value.cells && [] + rest.value.names == rest.value.names;
    }
  }

  function Tail(names: Option<bytes>, offset: nat): Option<bytes>
    requires names.Some? ==> offset <= |names.value|
  {
    if names.Some? then Some(names.value[offset..]) else None
  }

  /// One tuple, as the function sees it.
  lemma FilterStep(cells: bytes, names: Option<bytes>, providers: seq<Provider>)
    requires |cells| >= 4
    ensures
      var provider, nul := FindProvider(providers, De32(cells[..4])), if names.Some? then FindNul(names.value, 0) else Some(0);
      FilterDomains(cells, names, providers) ==
      if provider.None? || 4 * (provider.value.cells + 1) > |cells| || nul.None? then InvalidData
      else
        var n, k := 4 * (provider.value.cells + 1), if names.Some? then nul.value + 1 else 0;
        JoinDomains(if provider.value.psci then [] else cells[..n],
                    if provider.value.psci || names.None? then [] else names.value[..k],
                    FilterDomains(cells[n..], Tail(names, k), providers))
  {
    hide FindProvider, Bytes.FindNul;
    var provider, nul := FindProvider(providers, De32(cells[..4])), if names.Some? then FindNul(names.value, 0) else Some(0);
    if provider.Some? && 4 * (provider.value.cells + 1) <= |cells| && nul.Some? {
      var k := if names.Some? then nul.value + 1 else 0;
      JoinTwice([], [], [], [], FilterDomains(cells[4 * (provider.value.cells + 1)..], Tail(names, k), providers));
    }
  }

  lemma FindNulTail(b: bytes, start: nat)
    requires start <= |b|
    ensures FindNul(b[start..], 0).None? <==> FindNul(b, start).None?
    ensures FindNul(b, start).Some? ==> FindNul(b[start..], 0) == Some(FindNul(b, start).value - start)
  {
    var tail := b[start..];
    assert forall i :: 0 <= i < |tail| ==> tail[i] == b[start + i];
    if FindNul(b, start).Some? {
      FindNulIs(tail, 0, FindNul(b, start).value - start);
    } else {
      assert forall i :: 0 <= i < |tail| ==> tail[i] != 0;
    }
  }

  lemma TailTail(b: bytes, i: nat, j: nat)
    requires i <= j <= |b|
    ensures b[i..][..j - i] == b[i..j] && b[i..][j - i..] == b[j..]
  {
  }

  /// The tuple that starts at `offset`, and the name that starts at `nameOffset`.
  lemma FilterAt(cells: bytes, names: Option<bytes>, providers: seq<Provider>, offset: nat, nameOffset: nat)
    requires offset + 4 <= |cells| && (names.Some? ==> nameOffset <= |names.value|)
    ensures
      var provider := FindProvider(providers, De32(cells[offset..offset + 4]));
      var nul := if names.Some? then FindNul(names.value, nameOffset) else Some(0);
      FilterDomains(cells[offset..], Tail(names, nameOffset), providers) ==
      if provider.None? || offset + 4 * (provider.value.cells + 1) > |cells| || nul.None? then InvalidData
      else
        var end, nameEnd := offset + 4 * (provider.value.cells + 1), if names.Some? then nul.value + 1 else 0;
        JoinDomains(if provider.value.psci then [] else cells[offset..end],
                    if provider.value.psci || names.None? then [] else names.value[nameOffset..nameEnd],
                    FilterDomains(cells[end..], Tail(names, nameEnd), providers))
  {
    hide FindProvider, Bytes.FindNul, FilterDomains, JoinDomains;
    FilterStep(cells[offset..], Tail(names, nameOffset), providers);
    TailTail(cells, offset, offset + 4);
    var provider := FindProvider(providers, De32(cells[offset..offset + 4]));
    if names.Some? {
      FindNulTail(names.value, nameOffset);
      if FindNul(names.value, nameOffset).Some? {
        TailTail(names.value, nameOffset, FindNul(names.value, nameOffset).value + 1);
      }
    }
    if provider.Some? && offset + 4 * (provider.value.cells + 1) <= |cells| {
      TailTail(cells, offset, offset + 4 * (provider.value.cells + 1));
    }
  }

  /// One turn of the loop: the ends of the tuple and of its name, and whether its provider is PSCI.
  method ReadTuple(cells: bytes, names: Option<bytes>, providers: seq<Provider>, offset: nat, nameOffset: nat)
    returns (r: Option<(nat, nat, bool)>)
    requires offset + 4 <= |cells| && (names.Some? ==> nameOffset <= |names.value|) && (names.None? ==> nameOffset == 0)
    ensures r.None? ==> FilterDomains(cells[offset..], Tail(names, nameOffset), providers) == InvalidData
    ensures r.Some? ==>
      var (end, nameEnd, psci) := r.value;
      && offset < end <= |cells| && (end - offset) % 4 == 0
      && (names.None? ==> nameEnd == 0) && (names.Some? ==> nameOffset <= nameEnd <= |names.value|)
      && FilterDomains(cells[offset..], Tail(names, nameOffset), providers)
         == JoinDomains(if psci then [] else cells[offset..end],
                        if psci || names.None? then [] else names.value[nameOffset..nameEnd],
                        FilterDomains(cells[end..], Tail(names, nameEnd), providers))
  {
    hide FindProvider, FilterDomains, JoinDomains, Bytes.De32, Tail;
    FilterAt(cells, names, providers, offset, nameOffset);
    var provider := FindProvider(providers, De32(cells[offset..offset + 4]));
    if provider.None? || offset + 4 * (provider.value.cells + 1) > |cells| {
      return None;
    }
    var nul := if names.Some? then FindNul(names.value, nameOffset) else Some(0);
    if nul.None? {
      return None;
    }
    return Some((offset + 4 * (provider.value.cells + 1), if names.Some? then nul.value + 1 else 0, provider.value.psci));
  }

  /// `filtered_power_domains`: the loop over the tuples, filling two fixed buffers.
  method FilterPowerDomains(cells: Option<bytes>, names: Option<bytes>, providers: seq<Provider>) returns (r: Result<Domains>)
    ensures r == FilteredDomains(cells, names, providers)
  {
    if cells.None? {
      return if names.Some? then InvalidData else Ok(Domains([], []));
    }
    if |cells.value| % 4 != 0 {
      return InvalidData;
    }
    r := FilterTuples(cells.value, names, providers);
  }

  method FilterTuples(cells: bytes, names: Option<bytes>, providers: seq<Provider>) returns (r: Result<Domains>)
    requires |cells| % 4 == 0
    ensures
      var all := FilterDomains(cells, names, providers);
      r == if all.Ok? && (|all.value.cells| > 256 || |all.value.names| > 512) then InvalidData else all
  {
    hide FilterDomains, JoinDomains, Tail;
    var domains := new byte[256](_ => 0);
    var domainNames := new byte[512](_ => 0);
    var domainsLen, namesLen, offset, nameOffset := 0, 0, 0, 0;
    ghost var all := FilterDomains(cells, names, providers);
    ghost var kept, keptNames: bytes := [], [];
    WholeTail(cells, names);
    JoinTwice([], [], [], [], all);
    while offset < |cells|
      invariant 0 <= offset <= |cells| && offset % 4 == 0 && 0 <= nameOffset
      invariant if names.Some? then nameOffset <= |names.value| else nameOffset == 0
      invariant 0 <= domainsLen <= 256 && 0 <= namesLen <= 512
      invariant domains.Length == 256 && domainNames.Length == 512 && domains != domainNames
      invariant kept == domains[..domainsLen] && keptNames == domainNames[..namesLen]
      invariant all == JoinDomains(kept, keptNames, FilterDomains(cells[offset..], Tail(names, nameOffset), providers))
    {
      var tuple := ReadTuple(cells, names, providers, offset, nameOffset);
      FilterFails(kept, keptNames);
      if tuple.None? {
        return InvalidData;
      }
      var (end, nameEnd, psci) := tuple.value;
      ghost var rest := FilterDomains(cells[end..], Tail(names, nameEnd), providers);
      ghost var keep := if psci then [] else cells[offset..end];
      ghost var keepNames := if psci || names.None? then [] else names.value[nameOffset..nameEnd];
      JoinTwice(kept, keptNames, keep, keepNames, rest);
      JoinLength(kept + keep, keptNames + keepNames, rest);
      EmptyConcat(kept);
      EmptyConcat(keptNames);
      if !psci {
        if domainsLen + (end - offset) > 256 {
          return InvalidData;
        }
        domainsLen := Append(domains, domainsLen, cells[offset..end]);
        if names.Some? {
          if namesLen + (nameEnd - nameOffset) > 512 {
            return InvalidData;
          }
          namesLen := Append(domainNames, namesLen, names.value[nameOffset..nameEnd]);
        }
      }
      kept, keptNames := kept + keep, keptNames + keepNames;
      offset, nameOffset := end, nameEnd;
    }
    FilterEnd(kept, keptNames, cells, names, nameOffset, providers);
    if names.Some? && nameOffset != |names.value| {
      return InvalidData;
    }
    return Ok(Domains(domains[..domainsLen], domainNames[..namesLen]));
  }

  lemma WholeTail(cells: bytes, names: Option<bytes>)
    ensures cells[0..] == cells && Tail(names, 0) == names
  {
    if names.Some? {
      assert names.value[0..] == names.value;
    }
  }

  lemma FilterFails(kept: bytes, keptNames: bytes)
    ensures JoinDomains(kept, keptNames, InvalidData) == InvalidData
  {
  }

  lemma JoinLength(kept: bytes, keptNames: bytes, rest: Result<Domains>)
    ensures
      var all := JoinDomains(kept, keptNames, rest);
      all.Ok? ==> |all.value.cells| >= |kept| && |all.value.names| >= |keptNames|
  {
  }

  lemma FilterEnd(kept: bytes, keptNames: bytes, cells: bytes, names: Option<bytes>, nameOffset: nat, providers: seq<Provider>)
    requires names.Some? ==> nameOffset <= |names.value|
    ensures JoinDomains(kept, keptNames, FilterDomains(cells[|cells|..], Tail(names, nameOffset), providers))
      == if names.Some? && nameOffset != |names.value| then InvalidData else Ok(Domains(kept, keptNames))
  {
    assert cells[|cells|..] == [];
    EmptyConcat(kept);
    EmptyConcat(keptNames);
  }

  method Append(buffer: array<byte>, length: nat, more: bytes) returns (end: nat)
    requires length + |more| <= buffer.Length
    modifies buffer
    ensures end == length + |more| && buffer[..end] == old(buffer[..length]) + more
  {
    forall i | 0 <= i < |more| {
      buffer[length + i] := more[i];
    }
    end := length + |more|;
    assert forall i :: 0 <= i < |more| ==> buffer[length + i] == more[i];
  }

  function Present(value: bytes): Option<bytes> { if value == [] then None else Some(value) }

  lemma ConsDomains(cells: bytes, n: nat, more: bytes, names: Option<bytes>, k: nat, moreNames: bytes)
    requires 4 <= n <= |cells|
    requires names.Some? ==> k <= |names.value| && k > 0 && names.value[k - 1] == 0
                             && FindNul(names.value, 0) == Some(k - 1)
    ensures
      var x := cells[..n] + more;
      x[..4] == cells[..4] && x[..n] == cells[..n] && x[n..] == more
    ensures names.Some? ==>
      var y := names.value[..k] + moreNames;
      FindNul(y, 0) == Some(k - 1) && y[..k] == names.value[..k] && y[k..] == moreNames
  {
    var x := cells[..n] + more;
    assert forall i :: 0 <= i < 4 ==> x[i] == cells[i];
    if names.Some? {
      var y := names.value[..k] + moreNames;
      assert forall i :: 0 <= i < k ==> y[i] == names.value[i];
      FindNulIs(y, 0, k - 1);
    }
  }

  /// Filtering what was filtered changes nothing.
  lemma {:induction false} FilterTwice(cells: bytes, names: Option<bytes>, providers: seq<Provider>)
    requires FilterDomains(cells, names, providers).Ok?
    ensures
      var d := FilterDomains(cells, names, providers).value;
      FilterDomains(d.cells, if names.Some? then Some(d.names) else None, providers) == Ok(d)
    decreases |cells|
  {
    if cells != [] {
      var provider := FindProvider(providers, De32(cells[..4])).value;
      var n := 4 * (provider.cells + 1);
      var k := if names.Some? then FindNul(names.value, 0).value + 1 else 0;
      var names' := if names.Some? then Some(names.value[k..]) else None;
      FilterTwice(cells[n..], names', providers);
      var rest := FilterDomains(cells[n..], names', providers).value;
      hide FindProvider;
      ConsDomains(cells, n, rest.cells, names, k, rest.names);
    }
  }

  lemma Fours(x: nat, y: nat)
    requires x % 4 == 0 && y % 4 == 0
    ensures (x + y) % 4 == 0
  {
  }

  lemma JoinAligned(cells: bytes, names: bytes, rest: Result<Domains>)
    requires |cells| % 4 == 0 && (rest.Ok? ==> |rest.value.cells| % 4 == 0)
    ensures
      var all := JoinDomains(cells, names, rest);
      all.Ok? ==> rest.Ok? && |all.value.cells| % 4 == 0
  {
    if rest.Ok? {
      Fours(|cells|, |rest.value.cells|);
    }
  }

  lemma {:induction false} FilteredAligned(cells: bytes, names: Option<bytes>, providers: seq<Provider>)
    requires FilterDomains(cells, names, providers).Ok?
    ensures |FilterDomains(cells, names, providers).value.cells| % 4 == 0
    decreases |cells|
  {
    if cells == [] {
      FilterNothing(names, providers);
    } else {
      FilterStep(cells, names, providers);
      hide FilterDomains, FindProvider, Bytes.FindNul, Bytes.De32, JoinDomains;
      var provider := FindProvider(providers, De32(cells[..4])).value;
      var n := 4 * (provider.cells + 1);
      var k := if names.Some? then FindNul(names.value, 0).value + 1 else 0;
      var rest := FilterDomains(cells[n..], Tail(names, k), providers);
      if rest.Ok? {
        FilteredAligned(cells[n..], Tail(names, k), providers);
      }
      assert |cells[..n]| == n && n % 4 == 0;
      JoinAligned(if provider.psci then [] else cells[..n],
                  if provider.psci || names.None? then [] else names.value[..k], rest);
    }
  }

  /// The same for the two properties of a node, where an empty one is left out.
  lemma FilteredTwice(cells: Option<bytes>, names: Option<bytes>, providers: seq<Provider>)
    requires FilteredDomains(cells, names, providers).Ok?
    ensures
      var d := FilteredDomains(cells, names, providers).value;
      FilteredDomains(Present(d.cells), Present(d.names), providers) == Ok(d)
  {
    hide FilterDomains;
    if cells.Some? {
      FilterTwice(cells.value, names, providers);
      FilteredAligned(cells.value, names, providers);
      FilterNothing(None, providers);
    }
  }

  lemma FilterNothing(names: Option<bytes>, providers: seq<Provider>)
    ensures FilterDomains([], names, providers) == if names.Some? && names.value != [] then InvalidData else Ok(Domains([], []))
  {
  }

  // The contexts of a walk.

  datatype NodeKind = RootNode | Cpus | Cpu | IdleStates | IdleState | Other

  datatype Context = Context(kind: NodeKind, disable: bool)

  const OTHER := Context(Other, false)

  /// `node_kind`.
  function KindOf(depth: nat, parent: NodeKind, name: bytes): NodeKind {
    if depth == 0 then
      if name == [] then RootNode else Other
    else if parent == RootNode && name == Ascii("cpus") then Cpus
    else if parent == Cpus && BasenameEq(name, Ascii("cpu")) then Cpu
    else if parent == Cpus && name == Ascii("idle-states") then IdleStates
    else if parent == IdleStates then IdleState
    else Other
  }

  function Top(stack: seq<Context>): Context { if stack == [] then OTHER else stack[|stack| - 1] }

  /// `should_skip_prop`.
  predicate Skips(c: Context, name: bytes) {
    || (c.disable && name == STATUS)
    || (c.kind == Cpu
        && (name == ENABLE_METHOD || name == CPU_RELEASE_ADDR || name == POWER_DOMAINS
            || name == POWER_DOMAIN_NAMES || name == CPU_IDLE_STATES))
    || (c.kind == IdleStates && name == ENTRY_METHOD)
  }

  /// What the patcher looks up in a node: the first property of each of these names.
  datatype Seen = Seen(compatible: Option<bytes>, domains: Option<bytes>, domainNames: Option<bytes>, reg: Option<bytes>)

  function ContextOf(stack: seq<Context>, name: bytes, seen: Seen): Context {
    var kind := KindOf(|stack|, Top(stack).kind, name);
    Context(kind, Top(stack).disable || IsPsci(seen.compatible) || kind == IdleState)
  }

  /// The power-domain providers, and the address of the spin table, which lies below 4 GiB.
  datatype Platform = Platform(providers: seq<Provider>, table: u32)

  /// `release_addr`.
  function ReleaseAddr(table: u32, cpu: u32): u64 {
    SlotAddress(table, cpu)
  }

  /// The properties that a CPU gains.
  function CpuProps(p: Platform, seen: Seen): Result<seq<Property>> {
    var d :- FilteredDomains(seen.domains, seen.domainNames, p.providers);
    if FirstCell(seen.reg).None? then InvalidData
    else
      Ok((if d.cells != [] then [Property(POWER_DOMAINS, d.cells)] else [])
         + (if d.names != [] then [Property(POWER_DOMAIN_NAMES, d.names)] else [])
         + [Property(ENABLE_METHOD, SPIN_TABLE),
            Property(CPU_RELEASE_ADDR, Be64(ReleaseAddr(p.table, FirstCell(seen.reg).value)))])
  }

  /// The properties that a node gains, in front of those it keeps.
  function Additions(p: Platform, c: Context, seen: Seen): Result<seq<Property>> {
    var cpu :- if c.kind == Cpu then CpuProps(p, seen) else Ok([]);
    Ok(cpu + (if c.disable then [Property(STATUS, DISABLED)] else []))
  }

  predicate Gained(c: Context, a: Property) { a.name in PATCH_NAMES && Skips(c, a.name) && |a.value| < U32_LIMIT }

  /// What a node gains is what it would lose.
  lemma AdditionsSkipped(p: Platform, c: Context, seen: Seen)
    requires Additions(p, c, seen).Ok?
    ensures forall a <- Additions(p, c, seen).value :: Gained(c, a)
  {
    hide Bytes.Ascii, FilteredDomains, Bytes.Be64;
  }

  // Property lists.

  /// The properties that a node keeps.
  function Kept(c: Context, props: seq<Property>): seq<Property> {
    if props == [] then []
    else if Skips(c, props[0].name) then Kept(c, props[1..])
    else [props[0]] + Kept(c, props[1..])
  }

  lemma {:induction false} KeptGet(c: Context, props: seq<Property>, name: bytes)
    ensures GetProp(Kept(c, props), name) == if Skips(c, name) then None else GetProp(props, name)
  {
    hide Skips;
    if props != [] {
      KeptGet(c, props[1..], name);
      var rest := Kept(c, props[1..]);
      assert ([props[0]] + rest)[1..] == rest;
    }
  }

  lemma {:induction false} GetAppend(xs: seq<Property>, ys: seq<Property>, name: bytes)
    ensures GetProp(xs + ys, name) == if GetProp(xs, name).Some? then GetProp(xs, name) else GetProp(ys, name)
  {
    if xs == [] {
      assert xs + ys == ys;
    } else {
      GetAppend(xs[1..], ys, name);
      assert (xs + ys)[1..] == xs[1..] + ys;
    }
  }

  lemma {:induction false} GetAbsent(props: seq<Property>, name: bytes)
    requires forall p <- props :: p.name != name
    ensures GetProp(props, name).None?
  {
    if props != [] {
      GetAbsent(props[1..], name);
    }
  }

  function SeenIn(props: seq<Property>): Seen {
    Seen(GetProp(props, COMPATIBLE), GetProp(props, POWER_DOMAINS), GetProp(props, POWER_DOMAIN_NAMES), GetProp(props, REG))
  }

  /// The name is not one that any node gains or loses.
  predicate Untouched(name: bytes) { name !in PATCH_NAMES && name != CPU_IDLE_STATES && name != ENTRY_METHOD }

  // The rewriting of a tree.

  function PatchNode(p: Platform, stack: seq<Context>, node: Node): (r: Result<Node>)
    ensures r.Ok? ==> r.value.name == node.name
    decreases node, 1
  {
    if |stack| >= MAX_PREBOOT_DEPTH then InvalidData
    else
      var seen := SeenIn(node.props);
      var c := ContextOf(stack, node.name, seen);
      var added :- Additions(p, c, seen);
      var children :- PatchForest(p, stack + [c], node.children);
      Ok(Node(node.name, added + Kept(c, node.props), children))
  }

  function PatchForest(p: Platform, stack: seq<Context>, nodes: seq<Node>): (r: Result<seq<Node>>)
    ensures r.Ok? ==> |r.value| == |nodes| && forall i :: 0 <= i < |nodes| ==> r.value[i].name == nodes[i].name
    decreases nodes, 0
  {
    if nodes == [] then Ok([])
    else
      var first :- PatchNode(p, stack, nodes[0]);
      var rest :- PatchForest(p, stack, nodes[1..]);
      Ok([first] + rest)
  }

  /// A node that gains nothing and loses nothing below.
  lemma {:induction false} PatchForestAt(p: Platform, stack: seq<Context>, nodes: seq<Node>, i: nat)
    requires i < |nodes| && PatchForest(p, stack, nodes).Ok?
    ensures PatchNode(p, stack, nodes[i]) == Ok(PatchForest(p, stack, nodes).value[i])
    decreases |nodes|
  {
    if i > 0 {
      PatchForestAt(p, stack, nodes[1..], i - 1);
    }
  }

  /// What a patched node looks like to a later lookup.
  lemma PatchedGet(p: Platform, c: Context, seen: Seen, props: seq<Property>, name: bytes)
    requires Additions(p, c, seen).Ok? && !Skips(c, name)
    ensures GetProp(Additions(p, c, seen).value + Kept(c, props), name) == GetProp(props, name)
  {
    hide Additions, Skips, Kept;
    var added := Additions(p, c, seen).value;
    AdditionsSkipped(p, c, seen);
    GetAbsent(added, name);
    GetAppend(added, Kept(c, props), name);
    KeptGet(c, props, name);
  }
}
