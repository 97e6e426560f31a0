/// PSCI in a destination tree, `src/kexec.rs`: power-domain providers, the filtering of a
/// CPU's power domains, and the disabling of PSCI nodes and idle states.
module Psci {
  import opened Bytes
  import opened Handoff
  import opened Tree
  import opened Dtb
  import opened Reserved
  import opened Nodes

  const PROP_ENTRY_METHOD: bytes := Ascii("entry-method")
  const PROP_SUSPEND_PARAM: bytes := Ascii("arm,psci-suspend-param")
  const PROP_POWER_DOMAIN_CELLS: bytes := Ascii("#power-domain-cells")
  const PROP_PHANDLE: bytes := Ascii("phandle")
  const PROP_LINUX_PHANDLE: bytes := Ascii("linux,phandle")
  const PROP_POWER_DOMAINS: bytes := Ascii("power-domains")
  const PROP_POWER_DOMAIN_NAMES: bytes := Ascii("power-domain-names")
  /// `is_psci`.
  predicate IsPsci(node: Node) {
    Compatible(node, Ascii("arm,psci")) || Compatible(node, Ascii("arm,psci-0.2")) || Compatible(node, Ascii("arm,psci-1.0"))
  }

  /// A PSCI idle state, which `disable_psci` removes from its parent.
  predicate IsIdle(node: Node) {
    Get(node, PROP_ENTRY_METHOD) == Some(Ascii("psci") + [0]) || Get(node, PROP_SUSPEND_PARAM).Some?
  }

  // Disabling.

  function DisabledProps(node: Node): seq<Property> {
    if IsPsci(node) then SetProp(node.props, PROP_STATUS, DISABLED) else node.props
  }

  /// `disable_psci`.
  function Disable(node: Node): (r: Node)
    ensures r.name == node.name && r.props == DisabledProps(node)
    decreases node, 1
  {
    Node(node.name, DisabledProps(node), DisableForest(node.children))
  }

  function DisableForest(nodes: seq<Node>): seq<Node>
    decreases nodes, 0
  {
    if nodes == [] then []
    else if IsIdle(nodes[0]) then DisableForest(nodes[1..])
    else [Disable(nodes[0])] + DisableForest(nodes[1..])
  }

  /// Disabling changes nothing but the status of a PSCI node.
  lemma DisabledGet(node: Node, name: bytes)
    ensures GetProp(DisabledProps(node), name) ==
      if IsPsci(node) && name == PROP_STATUS then Some(DISABLED) else Get(node, name)
  {
    GetSetProp(node.props, PROP_STATUS, DISABLED, name);
  }

  lemma StatusIsNot()
    ensures PROP_STATUS != PROP_COMPATIBLE && PROP_STATUS != PROP_ENTRY_METHOD && PROP_STATUS != PROP_SUSPEND_PARAM
    ensures PROP_STATUS != PROP_POWER_DOMAIN_CELLS && PROP_STATUS != PROP_PHANDLE && PROP_STATUS != PROP_LINUX_PHANDLE
  {
    assert |PROP_STATUS| == 6;
  }

  lemma DisabledKind(node: Node, node': Node)
    requires node'.props == DisabledProps(node)
    ensures IsPsci(node') == IsPsci(node) && IsIdle(node') == IsIdle(node)
  {
    hide HasItem;
    StatusIsNot();
    DisabledGet(node, PROP_COMPATIBLE);
    DisabledGet(node, PROP_ENTRY_METHOD);
    DisabledGet(node, PROP_SUSPEND_PARAM);
  }

  /// Disabling twice is disabling once.
  lemma {:induction false} DisableTwice(node: Node)
    ensures Disable(Disable(node)) == Disable(node)
    decreases node, 1
  {
    hide IsPsci, IsIdle;
    var node' := Disable(node);
    DisabledKind(node, node');
    if IsPsci(node) {
      DisabledGet(node, PROP_STATUS);
      SetSameProp(node'.props, PROP_STATUS, DISABLED);
    }
    DisableForestTwice(node.children);
  }

  lemma {:induction false} DisableForestTwice(nodes: seq<Node>)
    ensures DisableForest(DisableForest(nodes)) == DisableForest(nodes)
    decreases nodes, 0
  {
    hide IsPsci, IsIdle;
    if nodes != [] {
      DisableForestTwice(nodes[1..]);
      if !IsIdle(nodes[0]) {
        DisabledKind(nodes[0], Disable(nodes[0]));
        DisableTwice(nodes[0]);
        assert DisableForest(nodes)[1..] == DisableForest(nodes[1..]);
      }
    }
  }

  lemma {:induction false} DisableForestAppend(xs: seq<Node>, ys: seq<Node>)
    ensures DisableForest(xs + ys) == DisableForest(xs) + DisableForest(ys)
    decreases |xs|
  {
    hide IsIdle, Disable;
    if xs == [] {
      assert xs + ys == ys;
    } else {
      DisableForestAppend(xs[1..], ys);
      assert (xs + ys)[1..] == xs[1..] + ys && (xs + ys)[0] == xs[0];
      assert [Disable(xs[0])] + (DisableForest(xs[1..]) + DisableForest(ys)) == [Disable(xs[0])] + DisableForest(xs[1..]) + DisableForest(ys);
    }
  }

  // Power-domain providers.

  function PhandleOf(node: Node): Option<bytes> {
    var phandle := Get(node, PROP_PHANDLE);
    if phandle.Some? then phandle else Get(node, PROP_LINUX_PHANDLE)
  }

  /// The provider that this node declares, if it declares one.
  function OwnProvider(node: Node, psci: bool): Result<seq<Provider>> {
    var cells, phandle := Get(node, PROP_POWER_DOMAIN_CELLS), PhandleOf(node);
    if cells.None? || phandle.None? then Ok([])
    else
      var handle :- PropertyU32(phandle.value);
      if handle == 0 || handle == 0xffff_ffff then InvalidData
      else
        var count :- PropertyU32(cells.value);
        Ok([Provider(handle, count, psci)])
  }

  function Both<T>(x: Result<seq<T>>, y: Result<seq<T>>): Result<seq<T>> {
    if x.Ok? && y.Ok? then Ok(x.value + y.value) else InvalidData
  }

  /// Every provider at or below this node, in document order.
  function ListProviders(node: Node, psciParent: bool): Result<seq<Provider>>
    decreases node, 1
  {
    var psci := psciParent || IsPsci(node);
    Both(OwnProvider(node, psci), ListForestProviders(node.children, psci))
  }

  function ListForestProviders(nodes: seq<Node>, psci: bool): Result<seq<Provider>>
    decreases nodes, 0
  {
    if nodes == [] then Ok([])
    else Both(ListProviders(nodes[0], psci), ListForestProviders(nodes[1..], psci))
  }

  predicate Distinct(providers: seq<Provider>) {
    forall i, j :: 0 <= i < j < |providers| ==> providers[i].phandle != providers[j].phandle
  }

  /// `power_domain_providers`: a phandle that is declared twice is an error.
  function Providers(root: Node): Result<seq<Provider>> {
    var providers :- ListProviders(root, false);
    if Distinct(providers) then Ok(providers) else InvalidData
  }

  /// The providers that survive the removal of idle states.
  function KeptProviders(node: Node, psciParent: bool): Result<seq<Provider>>
    decreases node, 1
  {
    var psci := psciParent || IsPsci(node);
    Both(OwnProvider(node, psci), KeptForestProviders(node.children, psci))
  }

  function KeptForestProviders(nodes: seq<Node>, psci: bool): Result<seq<Provider>>
    decreases nodes, 0
  {
    if nodes == [] then Ok([])
    else if IsIdle(nodes[0]) then KeptForestProviders(nodes[1..], psci)
    else Both(KeptProviders(nodes[0], psci), KeptForestProviders(nodes[1..], psci))
  }

  lemma DisabledOwnProvider(node: Node, node': Node, psci: bool)
    requires node'.props == DisabledProps(node)
    ensures OwnProvider(node', psci) == OwnProvider(node, psci)
  {
    hide IsPsci, PropertyU32;
    StatusIsNot();
    DisabledGet(node, PROP_POWER_DOMAIN_CELLS);
    DisabledGet(node, PROP_PHANDLE);
    DisabledGet(node, PROP_LINUX_PHANDLE);
  }

  lemma {:induction false} DisabledProviders(node: Node, psciParent: bool)
    ensures ListProviders(Disable(node), psciParent) == KeptProviders(node, psciParent)
    decreases node, 1
  {
    hide IsPsci, IsIdle, OwnProvider;
    DisabledKind(node, Disable(node));
    DisabledOwnProvider(node, Disable(node), psciParent || IsPsci(node));
    DisabledForestProviders(node.children, psciParent || IsPsci(node));
  }

  lemma {:induction false} DisabledForestProviders(nodes: seq<Node>, psci: bool)
    ensures ListForestProviders(DisableForest(nodes), psci) == KeptForestProviders(nodes, psci)
    decreases nodes, 0
  {
    hide IsPsci, IsIdle, OwnProvider;
    if nodes != [] {
      DisabledForestProviders(nodes[1..], psci);
      if !IsIdle(nodes[0]) {
        DisabledProviders(nodes[0], psci);
        assert DisableForest(nodes)[1..] == DisableForest(nodes[1..]);
      }
    }
  }

  ghost predicate Within(kept: seq<Provider>, all: seq<Provider>) {
    Distinct(kept) && forall p <- kept :: p in all
  }

  lemma DistinctParts(x: seq<Provider>, y: seq<Provider>)
    requires Distinct(x + y)
    ensures Distinct(x) && Distinct(y) && forall p <- x, q <- y :: p.phandle != q.phandle
  {
    var all := x + y;
    assert forall i :: 0 <= i < |x| ==> all[i] == x[i];
    assert forall i :: 0 <= i < |y| ==> all[|x| + i] == y[i];
    forall p <- x, q <- y ensures p.phandle != q.phandle {
      var i :| 0 <= i < |x| && x[i] == p;
      var j :| 0 <= j < |y| && y[j] == q;
      assert all[i].phandle != all[|x| + j].phandle;
    }
  }

  lemma DistinctConcat(x: seq<Provider>, y: seq<Provider>)
    requires Distinct(x) && Distinct(y) && forall p <- x, q <- y :: p.phandle != q.phandle
    ensures Distinct(x + y)
  {
    var all := x + y;
    forall i, j | 0 <= i < j < |all| ensures all[i].phandle != all[j].phandle {
      if i < |x| <= j {
        assert all[i] in x && all[j] in y;
      }
    }
  }

  lemma WithinConcat(k0: seq<Provider>, k1: seq<Provider>, a0: seq<Provider>, a1: seq<Provider>)
    requires Distinct(a0 + a1)
    requires Distinct(a0) ==> Within(k0, a0)
    requires Distinct(a1) ==> Within(k1, a1)
    ensures Within(k0 + k1, a0 + a1) && Within(k1, a0 + a1)
  {
    hide Distinct;
    DistinctParts(a0, a1);
    DistinctConcat(k0, k1);
  }

  lemma WithinSelf(all: seq<Provider>)
    ensures Distinct(all) ==> Within(all, all)
  {
  }

  /// Surviving providers are providers, and still have distinct phandles.
  lemma {:induction false} KeptWithin(node: Node, psciParent: bool)
    requires ListProviders(node, psciParent).Ok?
    ensures KeptProviders(node, psciParent).Ok?
    ensures
      var kept, all := KeptProviders(node, psciParent).value, ListProviders(node, psciParent).value;
      Distinct(all) ==> Within(kept, all)
    decreases node, 1
  {
    hide IsPsci, OwnProvider, Within, Distinct;
    var psci := psciParent || IsPsci(node);
    KeptForestWithin(node.children, psci);
    var own := OwnProvider(node, psci).value;
    var kept, all := KeptForestProviders(node.children, psci).value, ListForestProviders(node.children, psci).value;
    WithinSelf(own);
    if Distinct(own + all) {
      WithinConcat(own, kept, own, all);
    }
  }

  lemma {:induction false} KeptForestWithin(nodes: seq<Node>, psci: bool)
    requires ListForestProviders(nodes, psci).Ok?
    ensures KeptForestProviders(nodes, psci).Ok?
    ensures
      var kept, all := KeptForestProviders(nodes, psci).value, ListForestProviders(nodes, psci).value;
      Distinct(all) ==> Within(kept, all)
    decreases nodes, 0
  {
    hide IsPsci, IsIdle, Within, Distinct;
    if nodes == [] {
      WithinSelf([]);
    } else {
      KeptForestWithin(nodes[1..], psci);
      KeptWithin(nodes[0], psci);
      var a0, a1 := ListProviders(nodes[0], psci).value, ListForestProviders(nodes[1..], psci).value;
      var k0, k1 := KeptProviders(nodes[0], psci).value, KeptForestProviders(nodes[1..], psci).value;
      if Distinct(a0 + a1) {
        WithinConcat(k0, k1, a0, a1);
      }
    }
  }

  /// A phandle found among survivors is found among all, and names the same provider.
  lemma FindWithin(kept: seq<Provider>, all: seq<Provider>, phandle: u32)
    requires Distinct(all) && Within(kept, all)
    ensures FindProvider(kept, phandle).Some? ==> FindProvider(kept, phandle) == FindProvider(all, phandle)
  {
    var k, a := FindProvider(kept, phandle), FindProvider(all, phandle);
    if k.Some? {
      assert k.value in all;
      assert a.Some?;
      var i :| 0 <= i < |all| && all[i] == k.value;
      var j :| 0 <= j < |all| && all[j] == a.value;
    }
  }

  // Filtering one CPU's power domains.

  datatype Tuple = Tuple(bytes: bytes, keep: bool)

  /// The provider tuples of a `power-domains` value.
  function Tuples(domains: bytes, providers: seq<Provider>): Result<seq<Tuple>> {
    if domains == [] then Ok([])
    else if |domains| < 4 then InvalidData
    else
      match FindProvider(providers, De32(domains[..4]))
      case None => InvalidData
      case Some(provider) =>
        var n := (provider.cells + 1) * 4;
        if n > |domains| then InvalidData
        else
          var rest :- Tuples(domains[n..], providers);
          Ok([Tuple(domains[..n], !provider.psci)] + rest)
  }

  function Retained(tuples: seq<Tuple>): bytes {
    if tuples == [] then []
    else if tuples[0].keep then tuples[0].bytes + Retained(tuples[1..])
    else Retained(tuples[1..])
  }

  function Kept(tuples: seq<Tuple>): seq<Tuple> {
    if tuples == [] then []
    else if tuples[0].keep then [tuples[0]] + Kept(tuples[1..])
    else Kept(tuples[1..])
  }

  function KeptNames(names: seq<bytes>, tuples: seq<Tuple>): seq<bytes>
    requires |names| == |tuples|
  {
    if names == [] then []
    else if tuples[0].keep then [names[0]] + KeptNames(names[1..], tuples[1..])
    else KeptNames(names[1..], tuples[1..])
  }

  /// The retained names, when the node has any.
  function RetainedNames(value: Option<bytes>, tuples: seq<Tuple>): Result<Option<bytes>> {
    if value.None? then Ok(None)
    else
      var v := value.value;
      if v == [] || v[|v| - 1] != 0 then InvalidData
      else
        var names := Items(v[..|v| - 1]);
        if |names| != |tuples| then InvalidData else Ok(Some(JoinNames(KeptNames(names, tuples))))
  }

  function SetDomains(cpu: Node, retained: bytes, names: Option<bytes>): Node {
    if retained == [] then Remove(Remove(cpu, PROP_POWER_DOMAINS), PROP_POWER_DOMAIN_NAMES)
    else if names.None? then Set(cpu, PROP_POWER_DOMAINS, retained)
    else Set(Set(cpu, PROP_POWER_DOMAINS, retained), PROP_POWER_DOMAIN_NAMES, names.value)
  }

  /// `remove_psci_cpu_domains`.
  function RemoveDomains(cpu: Node, providers: seq<Provider>): Result<Node> {
    match Get(cpu, PROP_POWER_DOMAINS)
    case None => Ok(cpu)
    case Some(domains) =>
      if |domains| % 4 != 0 then InvalidData
      else
        var tuples :- Tuples(domains, providers);
        var names :- RetainedNames(Get(cpu, PROP_POWER_DOMAIN_NAMES), tuples);
        Ok(SetDomains(cpu, Retained(tuples), names))
  }

  // Filtering again changes nothing, as long as the providers are still there.

  ghost predicate Found(tuples: seq<Tuple>, providers: seq<Provider>) {
    forall t <- tuples :: |t.bytes| >= 4 && FindProvider(providers, De32(t.bytes[..4])).Some?
  }

  ghost predicate Consistent(providers: seq<Provider>, fewer: seq<Provider>) {
    forall phandle: u32 :: FindProvider(fewer, phandle).Some? ==> FindProvider(fewer, phandle) == FindProvider(providers, phandle)
  }

  lemma NoTuples(providers: seq<Provider>, fewer: seq<Provider>)
    ensures Found([], fewer) && Tuples([], fewer) == Ok([]) && Tuples([], providers) == Ok([])
    ensures Retained([]) == [] && Kept([]) == []
  {
  }

  lemma MultiplesOfFour(x: nat, y: nat)
    requires x % 4 == 0 && y % 4 == 0
    ensures (x + y) % 4 == 0
  {
  }

  lemma {:induction false} TuplesAgain(domains: bytes, providers: seq<Provider>, fewer: seq<Provider>)
    requires Consistent(providers, fewer) && Tuples(domains, providers).Ok? && |domains| % 4 == 0
    ensures
      var tuples := Tuples(domains, providers).value;
      && |Retained(tuples)| % 4 == 0 && |Retained(tuples)| <= |domains|
      && (Retained(tuples) == [] <==> Kept(tuples) == [])
      && Tuples(Retained(tuples), fewer) == if Found(Kept(tuples), fewer) then Ok(Kept(tuples)) else InvalidData
    decreases |domains|
  {
    hide *;
    NoTuples(providers, fewer);
    if domains != [] {
      TupleHead(domains, providers);
      var phandle := De32(domains[..4]);
      var n := (FindProvider(providers, phandle).value.cells + 1) * 4;
      var tuples := Tuples(domains, providers).value;
      TuplesAgain(domains[n..], providers, fewer);
      KeptCons(tuples);
      if tuples[0].keep {
        MultiplesOfFour(n, |Retained(tuples[1..])|);
        TupleAgain(tuples[0], Retained(tuples[1..]), Kept(tuples[1..]), n, phandle, providers, fewer);
      }
    }
  }

  lemma KeptCons(tuples: seq<Tuple>)
    requires tuples != []
    ensures Kept(tuples) == if tuples[0].keep then [tuples[0]] + Kept(tuples[1..]) else Kept(tuples[1..])
    ensures Retained(tuples) == if tuples[0].keep then tuples[0].bytes + Retained(tuples[1..]) else Retained(tuples[1..])
  {
  }

  /// The first provider tuple of a list that reads.
  lemma TupleHead(domains: bytes, providers: seq<Provider>)
    requires domains != [] && |domains| % 4 == 0 && Tuples(domains, providers).Ok?
    ensures FindProvider(providers, De32(domains[..4])).Some?
    ensures
      var provider := FindProvider(providers, De32(domains[..4])).value;
      var n, tuples := (provider.cells + 1) * 4, Tuples(domains, providers).value;
      && 4 <= n <= |domains| && |domains[n..]| % 4 == 0 && n % 4 == 0 && tuples != []
      && tuples[0] == Tuple(domains[..n], !provider.psci) && |tuples[0].bytes| == n
      && tuples[0].bytes[..4] == domains[..4]
      && Tuples(domains[n..], providers) == Ok(tuples[1..])
  {
    hide Bytes.De32, FindProvider;
    var provider := FindProvider(providers, De32(domains[..4])).value;
    var n := (provider.cells + 1) * 4;
    FourApart(|domains|, provider.cells + 1);
    assert domains[..n][..4] == domains[..4];
    var rest := Tuples(domains[n..], providers).value;
    assert ([Tuple(domains[..n], !provider.psci)] + rest)[1..] == rest;
  }

  lemma FourApart(length: nat, cells: nat)
    requires length % 4 == 0 && cells * 4 <= length
    ensures (length - cells * 4) % 4 == 0 && (cells * 4) % 4 == 0
  {
  }

  /// One retained tuple in front of the others.
  lemma TupleAgain(first: Tuple, retained: bytes, kept: seq<Tuple>, n: nat, phandle: u32,
                   providers: seq<Provider>, fewer: seq<Provider>)
    requires Consistent(providers, fewer) && first.keep && |first.bytes| == n >= 4
    requires De32(first.bytes[..4]) == phandle && FindProvider(providers, phandle).Some?
    requires n == (FindProvider(providers, phandle).value.cells + 1) * 4 && !FindProvider(providers, phandle).value.psci
    requires Tuples(retained, fewer) == if Found(kept, fewer) then Ok(kept) else InvalidData
    ensures Tuples(first.bytes + retained, fewer) ==
      if Found([first] + kept, fewer) then Ok([first] + kept) else InvalidData
  {
    hide Bytes.De32;
    var all := first.bytes + retained;
    assert all[..4] == first.bytes[..4] && all[..n] == first.bytes && all[n..] == retained;
    assert Found([first] + kept, fewer) <==> FindProvider(fewer, phandle).Some? && Found(kept, fewer) by {
      assert forall t <- [first] + kept :: t == first || t in kept;
      assert first in [first] + kept && forall t <- kept :: t in [first] + kept;
    }
  }

  lemma {:induction false} KeptNamesLaws(names: seq<bytes>, tuples: seq<Tuple>)
    requires |names| == |tuples|
    ensures |KeptNames(names, tuples)| == |Kept(tuples)|
    ensures forall n <- KeptNames(names, tuples) :: n in names
    ensures |JoinNames(KeptNames(names, tuples))| <= |JoinNames(names)|
  {
    if names != [] {
      KeptNamesLaws(names[1..], tuples[1..]);
      var rest := KeptNames(names[1..], tuples[1..]);
      if tuples[0].keep {
        assert ([names[0]] + rest)[1..] == rest;
      }
    }
  }

  lemma {:induction false} KeptAll(names: seq<bytes>, tuples: seq<Tuple>)
    requires |names| == |tuples| && forall t <- tuples :: t.keep
    ensures KeptNames(names, tuples) == names && Kept(tuples) == tuples
  {
    if names != [] {
      KeptAll(names[1..], tuples[1..]);
    }
  }

  lemma {:induction false} KeptKeep(tuples: seq<Tuple>)
    ensures forall t <- Kept(tuples) :: t.keep
    ensures Retained(Kept(tuples)) == Retained(tuples)
  {
    if tuples != [] {
      KeptKeep(tuples[1..]);
      if tuples[0].keep {
        assert Kept(tuples)[1..] == Kept(tuples[1..]);
      }
    }
  }

  /// The retained names match the retained tuples.
  lemma NamesAgain(value: Option<bytes>, tuples: seq<Tuple>)
    requires RetainedNames(value, tuples).Ok? && Kept(tuples) != []
    ensures RetainedNames(RetainedNames(value, tuples).value, Kept(tuples)) == RetainedNames(value, tuples)
    ensures value.Some? ==> |RetainedNames(value, tuples).value.value| <= |value.value|
  {
    if value.Some? {
      var v := value.value;
      var names := Items(v[..|v| - 1]);
      KeptNamesLaws(names, tuples);
      ItemsNulFree(v[..|v| - 1]);
      ItemsAre(v[..|v| - 1]);
      var kept := KeptNames(names, tuples);
      ItemsJoined(kept);
      KeptKeep(tuples);
      KeptAll(kept, Kept(tuples));
    }
  }

  /// The tuples that stay on this CPU all refer to providers among `fewer`.
  ghost predicate DomainsFound(cpu: Node, providers: seq<Provider>, fewer: seq<Provider>) {
    var domains := Get(cpu, PROP_POWER_DOMAINS);
    domains.Some? && Tuples(domains.value, providers).Ok? ==> Found(Kept(Tuples(domains.value, providers).value), fewer)
  }

  lemma DomainNamesDiffer()
    ensures PROP_POWER_DOMAINS != PROP_POWER_DOMAIN_NAMES
  {
    assert |PROP_POWER_DOMAINS| != |PROP_POWER_DOMAIN_NAMES|;
  }

  lemma SetDomainsGet(cpu: Node, retained: bytes, names: Option<bytes>, other: bytes)
    ensures Get(SetDomains(cpu, retained, names), other) ==
      if retained == [] then (if other == PROP_POWER_DOMAINS || other == PROP_POWER_DOMAIN_NAMES then None else Get(cpu, other))
      else if other == PROP_POWER_DOMAIN_NAMES && names.Some? then names
      else if other == PROP_POWER_DOMAINS then Some(retained)
      else Get(cpu, other)
  {
    hide GetProp, SetProp, RemoveProp;
    DomainNamesDiffer();
    var r := Remove(cpu, PROP_POWER_DOMAINS);
    GetRemoveProp(cpu.props, PROP_POWER_DOMAINS, other);
    GetRemoveProp(r.props, PROP_POWER_DOMAIN_NAMES, other);
    var s := Set(cpu, PROP_POWER_DOMAINS, retained);
    GetSetProp(cpu.props, PROP_POWER_DOMAINS, retained, other);
    if names.Some? {
      GetSetProp(s.props, PROP_POWER_DOMAIN_NAMES, names.value, other);
    }
  }

  /// A second filtering leaves the node alone if its remaining providers are known, and fails otherwise.
  lemma RemoveDomainsAgain(cpu: Node, providers: seq<Provider>, fewer: seq<Provider>)
    requires RemoveDomains(cpu, providers).Ok? && Consistent(providers, fewer)
    ensures
      var cpu' := RemoveDomains(cpu, providers).value;
      RemoveDomains(cpu', fewer) == if DomainsFound(cpu, providers, fewer) then Ok(cpu') else InvalidData
  {
    hide GetProp, SetProp, RemoveProp, Tuples, RetainedNames, Consistent;
    var domains := Get(cpu, PROP_POWER_DOMAINS);
    if domains.Some? {
      var tuples := Tuples(domains.value, providers).value;
      var names := RetainedNames(Get(cpu, PROP_POWER_DOMAIN_NAMES), tuples).value;
      var retained, cpu' := Retained(tuples), SetDomains(cpu, Retained(tuples), names);
      TuplesAgain(domains.value, providers, fewer);
      SetDomainsGet(cpu, retained, names, PROP_POWER_DOMAINS);
      SetDomainsGet(cpu, retained, names, PROP_POWER_DOMAIN_NAMES);
      DomainNamesDiffer();
      if retained != [] {
        NamesAgain(Get(cpu, PROP_POWER_DOMAIN_NAMES), tuples);
        NamesOption(Get(cpu, PROP_POWER_DOMAIN_NAMES), tuples);
        KeptKeep(tuples);
        SetDomainsSame(cpu', retained, names);
      }
    }
  }

  lemma NamesOption(value: Option<bytes>, tuples: seq<Tuple>)
    requires RetainedNames(value, tuples).Ok?
    ensures value.Some? <==> RetainedNames(value, tuples).value.Some?
  {
  }

  lemma SetDomainsSame(cpu: Node, retained: bytes, names: Option<bytes>)
    requires retained != [] && Get(cpu, PROP_POWER_DOMAINS) == Some(retained)
    requires names.Some? ==> Get(cpu, PROP_POWER_DOMAIN_NAMES) == names
    ensures SetDomains(cpu, retained, names) == cpu
  {
    SetSameProp(cpu.props, PROP_POWER_DOMAINS, retained);
    if names.Some? {
      SetSameProp(cpu.props, PROP_POWER_DOMAIN_NAMES, names.value);
    }
  }

  lemma DomainPropsNulFree()
    ensures NulFree(PROP_POWER_DOMAINS) && NulFree(PROP_POWER_DOMAIN_NAMES)
  {
  }

  lemma {:induction false} GetGood(props: seq<Property>, name: bytes)
    requires GoodProps(props) && GetProp(props, name).Some?
    ensures |GetProp(props, name).value| < U32_LIMIT
  {
    GoodTail(props);
    if props[0].name != name {
      GetGood(props[1..], name);
    }
  }

  /// Filtering keeps property names unique and values printable.
  lemma RemoveDomainsGood(cpu: Node, providers: seq<Provider>)
    requires RemoveDomains(cpu, providers).Ok? && GoodProps(cpu.props)
    ensures GoodProps(RemoveDomains(cpu, providers).value.props)
  {
    DomainPropsNulFree();
    hide GetProp, SetProp, RemoveProp, Tuples, RetainedNames, GoodProps, Bytes.Ascii, Bytes.NulFree;
    var domains := Get(cpu, PROP_POWER_DOMAINS);
    if domains.Some? {
      var value := Get(cpu, PROP_POWER_DOMAIN_NAMES);
      var tuples := Tuples(domains.value, providers).value;
      var names := RetainedNames(value, tuples).value;
      ConsistentSelf(providers);
      TuplesAgain(domains.value, providers, providers);
      GetGood(cpu.props, PROP_POWER_DOMAINS);
      RemovePropGood(cpu.props, PROP_POWER_DOMAINS);
      RemovePropGood(RemoveProp(cpu.props, PROP_POWER_DOMAINS), PROP_POWER_DOMAIN_NAMES);
      SetPropGood(cpu.props, PROP_POWER_DOMAINS, Retained(tuples));
      if names.Some? && Retained(tuples) != [] {
        NamesOption(value, tuples);
        GetGood(cpu.props, PROP_POWER_DOMAIN_NAMES);
        NamesAgain(value, tuples);
        SetPropGood(SetProp(cpu.props, PROP_POWER_DOMAINS, Retained(tuples)), PROP_POWER_DOMAIN_NAMES, names.value);
      }
    }
  }

  lemma ConsistentSelf(providers: seq<Provider>)
    ensures Consistent(providers, providers)
  {
  }
}
