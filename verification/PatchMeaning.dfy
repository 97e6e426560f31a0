/// What `patch_fdt` of `pocketpreboot/src/msm8916.rs` makes of a devicetree, node by node: in paths and names,
/// without the contexts of its token loop.
module PatchMeaning {
  import opened Bytes
  import opened Handoff
  import opened Tree
  import opened Dtb
  import opened WordMeaning
  import opened DomainMeaning
  import opened Msm8916
  import opened Msm8916Blob

  // Nodes and where they are.

  /// The nodes on the way down, the ends included.
  function Walk(node: Node, path: seq<nat>): (nodes: Option<seq<Node>>)
    ensures nodes.Some? ==> nodes.value != [] && nodes.value[0] == node
    decreases |path|
  {
    if path == [] then Some([node])
    else if path[0] >= |node.children| then None
    else
      var rest := Walk(node.children[path[0]], path[1..]);
      if rest.None? then None else Some([node] + rest.value)
  }

  function Last(nodes: seq<Node>): Node
    requires nodes != []
  {
    nodes[|nodes| - 1]
  }

  /// A node of the PSCI firmware interface.
  ghost predicate IsFirmware(node: Node) {
    var compatible := Get(node, Ascii("compatible"));
    compatible.Some? && (HasText(compatible.value, Ascii("arm,psci")) || HasText(compatible.value, Ascii("arm,psci-0.2"))
                         || HasText(compatible.value, Ascii("arm,psci-1.0")))
  }

  /// /cpus, with or without more below.
  predicate BelowCpus(nodes: seq<Node>) { |nodes| >= 2 && nodes[0].name == [] && nodes[1].name == Ascii("cpus") }

  /// A CPU: /cpus/cpu or /cpus/cpu@...
  predicate IsCore(nodes: seq<Node>) {
    |nodes| == 3 && BelowCpus(nodes) && (nodes[2].name == Ascii("cpu") || Ascii("cpu@") <= nodes[2].name)
  }

  predicate IsIdleStates(nodes: seq<Node>) { |nodes| == 3 && BelowCpus(nodes) && nodes[2].name == Ascii("idle-states") }

  /// A child of /cpus/idle-states, or a node below one.
  predicate InIdleState(nodes: seq<Node>) { |nodes| >= 4 && IsIdleStates(nodes[..3]) }

  ghost predicate UnderFirmware(nodes: seq<Node>) { exists n <- nodes :: IsFirmware(n) }

  /// Nodes that get status "disabled".
  ghost predicate IsDisabled(nodes: seq<Node>) { UnderFirmware(nodes) || InIdleState(nodes) }

  /// The properties that a node loses, or gets anew.
  ghost predicate Loses(nodes: seq<Node>, name: bytes) {
    || (IsDisabled(nodes) && name == Ascii("status"))
    || (IsCore(nodes)
        && (name == Ascii("enable-method") || name == Ascii("cpu-release-addr") || name == Ascii("cpu-idle-states")
            || name == Ascii("power-domains") || name == Ascii("power-domain-names")))
    || (IsIdleStates(nodes) && name == Ascii("entry-method"))
  }

  /// The other properties, in their order.
  ghost function Others(nodes: seq<Node>, props: seq<Property>): seq<Property> {
    if props == [] then []
    else (if Loses(nodes, props[0].name) then [] else [props[0]]) + Others(nodes, props[1..])
  }

  /// The properties of a CPU: its slot is at 0x400 + 0x80 * n of the table.
  ghost predicate CoreGains(added: seq<Property>, cpu: Node, table: u32, d: Domains) {
    var reg := Get(cpu, Ascii("reg"));
    && reg.Some? && |reg.value| >= 4
    && added ==
       (if d.cells == [] then [] else [Property(Ascii("power-domains"), d.cells)])
       + (if d.names == [] then [] else [Property(Ascii("power-domain-names"), d.names)])
       + [Property(Ascii("enable-method"), Ascii("spin-table") + [0]),
          Property(Ascii("cpu-release-addr"), Be64(table + 0x400 + De32(reg.value[..4]) * 0x80))]
  }

  /// The properties that come first in the patched node.
  ghost predicate Gains(nodes: seq<Node>, added: seq<Property>, p: Platform)
    requires nodes != []
  {
    var status := if IsDisabled(nodes) then [Property(Ascii("status"), Ascii("disabled") + [0])] else [];
    if IsCore(nodes) then
      exists core: seq<Property>, d: Domains ::
        DomainsAre(Last(nodes), d, p.providers) && CoreGains(core, Last(nodes), p.table, d) && added == core + status
    else added == status
  }

  /// The patched node.
  ghost predicate NodeIs(now: Node, nodes: seq<Node>, p: Platform)
    requires nodes != []
  {
    && now.name == Last(nodes).name && |now.children| == |Last(nodes).children|
    && exists added: seq<Property> :: Gains(nodes, added, p) && now.props == added + Others(nodes, Last(nodes).props)
  }

  // The contexts say the same.

  lemma FirmwareTexts()
    ensures NulFree(Ascii("arm,psci")) && NulFree(Ascii("arm,psci-0.2")) && NulFree(Ascii("arm,psci-1.0"))
  {
  }

  lemma FirmwareMeaning(node: Node)
    ensures Msm8916.IsPsci(Get(node, COMPATIBLE)) <==> IsFirmware(node)
  {
    FirmwareTexts();
    var compatible := Get(node, Ascii("compatible"));
    if compatible.Some? {
      ListMeaning(compatible.value, Ascii("arm,psci"));
      ListMeaning(compatible.value, Ascii("arm,psci-0.2"));
      ListMeaning(compatible.value, Ascii("arm,psci-1.0"));
    }
    hide Bytes.Ascii, GetProp, ListHas, HasText;
  }

  lemma CpuText()
    ensures Ascii("cpu") == [0x63, 0x70, 0x75] && Ascii("cpu@") == [0x63, 0x70, 0x75, 0x40]
    ensures |Ascii("idle-states")| == 11 && Ascii("idle-states")[0] == 0x69
  {
  }

  lemma CpuNameMeaning(name: bytes)
    ensures BasenameEq(name, Ascii("cpu")) <==> name == Ascii("cpu") || Ascii("cpu@") <= name
  {
    CpuText();
    hide Bytes.Ascii;
  }

  /// The context of the last of these nodes.
  ghost function ContextIs(nodes: seq<Node>): Context
    requires nodes != []
  {
    Context(
      if |nodes| == 1 then (if nodes[0].name == [] then RootNode else Other)
      else if |nodes| == 2 && BelowCpus(nodes) then Cpus
      else if IsCore(nodes) then Cpu
      else if IsIdleStates(nodes) then IdleStates
      else if |nodes| == 4 && InIdleState(nodes) then IdleState
      else Other,
      IsDisabled(nodes))
  }

  ghost predicate StackIs(stack: seq<Context>, above: seq<Node>) {
    |stack| == |above| && forall i :: 0 <= i < |stack| ==> stack[i] == ContextIs(above[..i + 1])
  }

  lemma DisabledStep(above: seq<Node>, node: Node)
    ensures IsDisabled(above + [node]) <==>
      (above != [] && IsDisabled(above)) || IsFirmware(node) || (|above| == 3 && IsIdleStates(above))
  {
    hide IsFirmware, Bytes.Ascii;
    var nodes := above + [node];
    assert forall n :: n in nodes <==> n in above || n == node;
    if |nodes| >= 4 {
      assert nodes[..3] == above[..3];
    }
    assert |above| == 3 ==> above[..3] == above;
  }

  lemma ContextMeaning(stack: seq<Context>, above: seq<Node>, node: Node)
    requires StackIs(stack, above)
    ensures ContextOf(stack, node.name, SeenIn(node.props)) == ContextIs(above + [node])
    ensures StackIs(stack + [ContextIs(above + [node])], above + [node])
  {
    hide Bytes.Ascii, GetProp, IsFirmware, Msm8916.IsPsci, BasenameEq, IsDisabled;
    CpuText();
    CpuNameMeaning(node.name);
    FirmwareMeaning(node);
    DisabledStep(above, node);
    var nodes := above + [node];
    if above != [] {
      assert above[..|above|] == above && stack[|stack| - 1] == ContextIs(above);
      assert |above| == 3 ==> nodes[..3] == above;
    }
    forall i | 0 <= i <= |stack| ensures (stack + [ContextIs(nodes)])[i] == ContextIs(nodes[..i + 1]) {
      if i < |stack| {
        assert nodes[..i + 1] == above[..i + 1];
      } else {
        assert nodes[..i + 1] == nodes;
      }
    }
  }

  // The power domains that are left.

  /// The names of the tuples, one for each.
  ghost predicate NamesLeft(value: Option<bytes>, left: bytes, count: nat, keep: seq<bool>, names: seq<bytes>, names': seq<bytes>) {
    if value.None? then left == []
    else
      && |names| == count && value.value == Flat(WithNuls(names)) && (forall n <- names :: NulFree(n))
      && KeptInOrder(names', names, keep) && left == Flat(WithNuls(names'))
  }

  lemma NulsCons(head: bytes, rest: seq<bytes>)
    ensures WithNuls([head] + rest) == [head + [0]] + WithNuls(rest)
  {
  }

  lemma NamesCons(value: Option<bytes>, rest: Option<bytes>, left: bytes, count: nat, k: bool, keep: seq<bool>,
                  names: seq<bytes>, names': seq<bytes>, head: bytes)
    requires NamesLeft(rest, left, count, keep, names, names')
    requires value.None? <==> rest.None?
    requires value.Some? ==> value.value == head + [0] + rest.value && NulFree(head)
    ensures value.Some? ==>
      NamesLeft(value, (if k then head + [0] else []) + left, count + 1, [k] + keep, [head] + names, (if k then [head] else []) + names')
  {
    hide Flat, WithNuls, KeptInOrder;
    if value.Some? {
      KeptCons(head, k, names', names, keep);
      NulsCons(head, names);
      NulsCons(head, names');
      FlatCons(head + [0], WithNuls(names));
      FlatCons(head + [0], WithNuls(names'));
      EmptyConcat(names');
      EmptyConcat(left);
    }
  }

  lemma NothingLeft()
    ensures NamesLeft(Some([]), [], 0, [], [], []) && NamesLeft(None, [], 0, [], [], []) && AreTuples([], [], [])
    ensures WithNuls([]) == [] && Flat([]) == [] && KeptInOrder([], [], [])
  {
    assert WithNuls([]) == [];
  }

  lemma NamesOfNone(left: bytes, count: nat, keep: seq<bool>, names: seq<bytes>, names': seq<bytes>)
    ensures NamesLeft(None, left, count, keep, names, names') <==> left == []
  {
  }

  lemma NoTuples(providers: seq<Provider>)
    ensures AreTuples([], [], providers)
  {
  }

  /// Tuple by tuple and name by name, which power domains are left.
  lemma {:induction false} FilterMeaning(cells: bytes, names: Option<bytes>, providers: seq<Provider>)
    returns (was: seq<bytes>, keep: seq<bool>, now: seq<bytes>, texts: seq<bytes>, texts': seq<bytes>)
    requires FilterDomains(cells, names, providers).Ok?
    ensures Flat(was) == cells && AreTuples(was, keep, providers) && |keep| == |was|
    ensures KeptInOrder(now, was, keep) && Flat(now) == FilterDomains(cells, names, providers).value.cells
    ensures NamesLeft(names, FilterDomains(cells, names, providers).value.names, |was|, keep, texts, texts')
    decreases |cells|
  {
    hide *;
    NothingLeft();
    NoTuples(providers);
    if cells == [] {
      FilterNil(names, providers);
      was, keep, now, texts, texts' := [], [], [], [], [];
    } else {
      FilterStep(cells, names, providers);
      var p := FindProvider(providers, De32(cells[..4])).value;
      var n := 4 * (p.cells + 1);
      var k := if names.Some? then FindNul(names.value, 0).value + 1 else 0;
      var rest := if names.Some? then Some(names.value[k..]) else None;
      var was', keep', now', ts, ts' := FilterMeaning(cells[n..], rest, providers);
      var head, text := cells[..n], if names.Some? then names.value[..k - 1] else [];
      was, keep, now := [head] + was', [!p.psci] + keep', (if !p.psci then [head] else []) + now';
      texts, texts' := [text] + ts, (if !p.psci then [text] else []) + ts';
      KeptCons(head, !p.psci, now', was', keep');
      FlatCons(head, was');
      FlatCons(head, now');
      TuplesCons(head, !p.psci, was', keep', providers);
      EmptyConcat(now');
      EmptyConcat(FilterDomains(cells[n..], rest, providers).value.names);
      assert cells == head + cells[n..];
      if names.Some? {
        FirstText(names.value, k - 1);
        NamesCons(names, rest, FilterDomains(cells[n..], rest, providers).value.names, |was'|, !p.psci, keep', ts, ts', text);
      } else {
        NamesOfNone(FilterDomains(cells, names, providers).value.names, |was|, keep, texts, texts');
        NamesOfNone(FilterDomains(cells[n..], rest, providers).value.names, |was'|, keep', ts, ts');
      }
    }
  }

  lemma FirstText(value: bytes, end: nat)
    requires FindNul(value, 0) == Some(end)
    ensures end < |value| && value == value[..end] + [0] + value[end + 1..]
    ensures NulFree(value[..end]) && value[..end + 1] == value[..end] + [0]
  {
    hide *;
    SplitAtNul(value, end);
    FrontIsNulFree(value[..end]);
  }

  lemma FrontIsNulFree(front: bytes)
    requires forall i :: 0 <= i < |front| ==> front[i] != 0
    ensures NulFree(front)
  {
  }

  lemma SplitAtNul(value: bytes, end: nat)
    requires end < |value| && value[end] == 0
    ensures value == value[..end] + [0] + value[end + 1..] && value[..end + 1] == value[..end] + [0]
  {
  }

  lemma FilterNil(names: Option<bytes>, providers: seq<Provider>)
    requires FilterDomains([], names, providers).Ok?
    ensures FilterDomains([], names, providers).value == Domains([], []) && (names.Some? ==> names.value == [])
  {
  }

  lemma FilterStep(cells: bytes, names: Option<bytes>, providers: seq<Provider>)
    requires cells != [] && FilterDomains(cells, names, providers).Ok?
    ensures |cells| >= 4 && FindProvider(providers, De32(cells[..4])).Some?
    ensures names.Some? ==> FindNul(names.value, 0).Some?
    ensures
      var p := FindProvider(providers, De32(cells[..4])).value;
      var n := 4 * (p.cells + 1);
      var k := if names.Some? then FindNul(names.value, 0).value + 1 else 0;
      && n <= |cells| && (names.Some? ==> k <= |names.value|) && IsTuple(cells[..n], !p.psci, providers)
      && var rest := FilterDomains(cells[n..], if names.Some? then Some(names.value[k..]) else None, providers);
      && rest.Ok?
      && FilterDomains(cells, names, providers).value ==
         if p.psci then rest.value
         else Domains(cells[..n] + rest.value.cells, (if names.Some? then names.value[..k] else []) + rest.value.names)
  {
    hide Bytes.De32;
    var n := 4 * (FindProvider(providers, De32(cells[..4])).value.cells + 1);
    assert cells[..n][..4] == cells[..4];
  }

  /// The other way round: when the values split like this, they are accepted, and this is what is left.
  lemma {:induction false} FilterReturns(cells: bytes, names: Option<bytes>, providers: seq<Provider>,
                                         was: seq<bytes>, keep: seq<bool>, now: seq<bytes>, texts: seq<bytes>, texts': seq<bytes>, left: bytes)
    requires Flat(was) == cells && AreTuples(was, keep, providers) && KeptInOrder(now, was, keep)
    requires NamesLeft(names, left, |was|, keep, texts, texts')
    ensures FilterDomains(cells, names, providers) == Ok(Domains(Flat(now), left))
    decreases |was|
  {
    hide *;
    NothingLeft();
    if was == [] {
      FilterOfNone(names, providers, now, keep, texts, texts', left);
    } else {
      var now' := KeptRest(now, was, keep);
      FlatCons(was[0], was[1..]);
      assert was == [was[0]] + was[1..];
      var p := TupleRest(was, keep, providers);
      EmptyConcat(now');
      if names.Some? {
        NamesAre(names.value, left, |was|, keep, texts, texts');
        var ts' := KeptRest(texts', texts, keep);
        var rest := Flat(WithNuls(texts[1..]));
        NulsCons(texts[0], texts[1..]);
        assert texts == [texts[0]] + texts[1..];
        FlatCons(texts[0] + [0], WithNuls(texts[1..]));
        TextsRest(rest, |was| - 1, keep[1..], texts[1..], ts');
        FilterReturns(Flat(was[1..]), Some(rest), providers, was[1..], keep[1..], now', texts[1..], ts', Flat(WithNuls(ts')));
        NulsCons(texts[0], ts');
        FlatCons(texts[0] + [0], WithNuls(ts'));
        FlatCons(was[0], now');
        EmptyConcat(ts');
        FrontNul(texts[0], rest);
        FilterFront(was[0], Flat(was[1..]), names, Some(rest), texts[0], providers, p);
      } else {
        NamesOfNone(left, |was|, keep, texts, texts');
        NamesOfNone([], |was| - 1, keep[1..], texts, texts');
        FilterReturns(Flat(was[1..]), None, providers, was[1..], keep[1..], now', texts, texts', []);
        FlatCons(was[0], now');
        FilterFront(was[0], Flat(was[1..]), None, None, [], providers, p);
      }
    }
  }

  lemma FilterOfNone(names: Option<bytes>, providers: seq<Provider>, now: seq<bytes>, keep: seq<bool>,
                     texts: seq<bytes>, texts': seq<bytes>, left: bytes)
    requires KeptInOrder(now, [], keep) && NamesLeft(names, left, 0, keep, texts, texts')
    ensures now == [] && Flat(now) == [] && FilterDomains([], names, providers) == Ok(Domains([], left))
  {
    assert names.Some? ==> texts == [] && texts' == [] && WithNuls([]) == [];
  }

  lemma TupleRest(was: seq<bytes>, keep: seq<bool>, providers: seq<Provider>) returns (p: Provider)
    requires AreTuples(was, keep, providers) && was != []
    ensures |keep| == |was| && AreTuples(was[1..], keep[1..], providers)
    ensures |was[0]| >= 4 && FindProvider(providers, De32(was[0][..4])) == Some(p)
    ensures |was[0]| == 4 + 4 * p.cells && keep[0] == !p.psci
  {
    hide Bytes.De32;
    assert IsTuple(was[0], keep[0], providers);
    p :| p in providers && p.phandle == De32(was[0][..4]) && |was[0]| == 4 + 4 * p.cells && keep[0] == !p.psci
      && FindProvider(providers, p.phandle) == Some(p);
    forall i | 0 <= i < |was[1..]| ensures IsTuple(was[1..][i], keep[1..][i], providers) {
      assert IsTuple(was[i + 1], keep[i + 1], providers);
    }
  }

  lemma NamesAre(value: bytes, left: bytes, count: nat, keep: seq<bool>, names: seq<bytes>, names': seq<bytes>)
    requires NamesLeft(Some(value), left, count, keep, names, names')
    ensures |names| == count && value == Flat(WithNuls(names)) && KeptInOrder(names', names, keep) && left == Flat(WithNuls(names'))
    ensures forall n <- names :: NulFree(n)
  {
    hide Flat, KeptInOrder, WithNuls;
  }

  lemma TextsRest(rest: bytes, count: nat, keep: seq<bool>, names: seq<bytes>, names': seq<bytes>)
    requires rest == Flat(WithNuls(names)) && |names| == count && KeptInOrder(names', names, keep) && forall n <- names :: NulFree(n)
    ensures NamesLeft(Some(rest), Flat(WithNuls(names')), count, keep, names, names')
  {
    hide Flat, KeptInOrder, WithNuls;
  }

  lemma FrontNul(text: bytes, rest: bytes)
    requires NulFree(text)
    ensures FindNul(text + [0] + rest, 0) == Some(|text|)
    ensures (text + [0] + rest)[|text| + 1..] == rest && (text + [0] + rest)[..|text| + 1] == text + [0]
  {
    FindNulIs(text + [0] + rest, 0, |text|);
  }

  lemma FilterFront(head: bytes, cells: bytes, names: Option<bytes>, rest: Option<bytes>, text: bytes, providers: seq<Provider>, p: Provider)
    requires |head| >= 4 && FindProvider(providers, De32(head[..4])) == Some(p) && |head| == 4 + 4 * p.cells
    requires names.Some? <==> rest.Some?
    requires names.Some? ==> names.value == text + [0] + rest.value && FindNul(names.value, 0) == Some(|text|)
    requires names.Some? ==> names.value[|text| + 1..] == rest.value && names.value[..|text| + 1] == text + [0]
    requires FilterDomains(cells, rest, providers).Ok?
    ensures FilterDomains(head + cells, names, providers) ==
      var d := FilterDomains(cells, rest, providers).value;
      Ok(if p.psci then d else Domains(head + d.cells, (if names.Some? then text + [0] else []) + d.names))
  {
    hide Bytes.De32, FindNul;
    assert (head + cells)[..4] == head[..4] && (head + cells)[..|head|] == head && (head + cells)[|head|..] == cells;
  }

  /// The power domains that a CPU keeps: within the limits of the fixed buffers, by tuple and by name.
  ghost predicate DomainsAre(cpu: Node, d: Domains, providers: seq<Provider>) {
    var cells, names := Get(cpu, Ascii("power-domains")), Get(cpu, Ascii("power-domain-names"));
    if cells.None? then names.None? && d == Domains([], [])
    else
      && |d.cells| <= 256 && |d.names| <= 512
      && exists was: seq<bytes>, keep: seq<bool>, now: seq<bytes>, texts: seq<bytes>, texts': seq<bytes> ::
           && Flat(was) == cells.value && AreTuples(was, keep, providers) && KeptInOrder(now, was, keep) && Flat(now) == d.cells
           && NamesLeft(names, d.names, |was|, keep, texts, texts')
  }

  lemma DomainsMeaning(cpu: Node, providers: seq<Provider>)
    requires FilteredDomains(Get(cpu, POWER_DOMAINS), Get(cpu, POWER_DOMAIN_NAMES), providers).Ok?
    ensures DomainsAre(cpu, FilteredDomains(Get(cpu, POWER_DOMAINS), Get(cpu, POWER_DOMAIN_NAMES), providers).value, providers)
  {
    hide Bytes.Ascii, GetProp, FilterDomains, Flat, AreTuples, KeptInOrder, NamesLeft;
    var cells := Get(cpu, POWER_DOMAINS);
    if cells.Some? {
      var was, keep, now, texts, texts' := FilterMeaning(cells.value, Get(cpu, POWER_DOMAIN_NAMES), providers);
    }
  }

  // The tree.

  lemma {:induction false} KeptMeaning(nodes: seq<Node>, props: seq<Property>)
    requires nodes != []
    ensures Kept(ContextIs(nodes), props) == Others(nodes, props)
  {
    if props != [] {
      LosesMeaning(nodes, props[0].name);
      hide Skips, Loses, ContextIs;
      KeptMeaning(nodes, props[1..]);
      EmptyConcat(Others(nodes, props[1..]));
    }
  }

  lemma LosesMeaning(nodes: seq<Node>, name: bytes)
    requires nodes != []
    ensures Skips(ContextIs(nodes), name) <==> Loses(nodes, name)
  {
    CpuText();
    hide Bytes.Ascii, IsDisabled;
  }

  lemma CoreMeaning(p: Platform, node: Node)
    ensures CpuProps(p, SeenIn(node.props)).Ok? ==>
      exists d: Domains :: DomainsAre(node, d, p.providers) && CoreGains(CpuProps(p, SeenIn(node.props)).value, node, p.table, d)
  {
    hide Bytes.Ascii, Bytes.Be64, Bytes.De32, GetProp, FilteredDomains, DomainsAre;
    var domains := FilteredDomains(Get(node, Ascii("power-domains")), Get(node, Ascii("power-domain-names")), p.providers);
    if domains.Ok? {
      DomainsMeaning(node, p.providers);
    }
  }

  lemma AddedMeaning(p: Platform, nodes: seq<Node>)
    requires nodes != [] && Additions(p, ContextIs(nodes), SeenIn(Last(nodes).props)).Ok?
    ensures Gains(nodes, Additions(p, ContextIs(nodes), SeenIn(Last(nodes).props)).value, p)
  {
    CoreMeaning(p, Last(nodes));
    CpuText();
    hide Bytes.Ascii, CpuProps, SeenIn, CoreGains, FilteredDomains, GetProp, IsDisabled;
    var none: seq<Property> := [];
    assert forall x: seq<Property> :: none + x == x;
  }

  /// What is rewritten at a path, below nodes that are already there.
  lemma {:induction false} PatchedBelow(p: Platform, stack: seq<Context>, above: seq<Node>, node: Node, path: seq<nat>)
    requires StackIs(stack, above) && PatchNode(p, stack, node).Ok?
    ensures Walk(PatchNode(p, stack, node).value, path).Some? <==> Walk(node, path).Some?
    ensures Walk(node, path).Some? ==>
      NodeIs(Last(Walk(PatchNode(p, stack, node).value, path).value), above + Walk(node, path).value, p)
    decreases |path|
  {
    hide Additions, Kept, Others, StackIs, ContextOf, ContextIs, Gains, SeenIn;
    var nodes, now := above + [node], PatchNode(p, stack, node).value;
    assert Last(nodes) == node;
    ContextMeaning(stack, above, node);
    AddedMeaning(p, nodes);
    KeptMeaning(nodes, node.props);
    if path == [] {
      assert Walk(node, path) == Some([node]) && Walk(now, path) == Some([now]);
    } else if path[0] < |node.children| {
      PatchedChild(p, stack + [ContextIs(nodes)], node.children, path[0]);
      var child := node.children[path[0]];
      PatchedBelow(p, stack + [ContextIs(nodes)], nodes, child, path[1..]);
      if Walk(child, path[1..]).Some? {
        var below := Walk(child, path[1..]).value;
        assert above + ([node] + below) == nodes + below;
      }
    }
  }

  lemma {:induction false} PatchedChild(p: Platform, stack: seq<Context>, nodes: seq<Node>, i: nat)
    requires PatchForest(p, stack, nodes).Ok? && i < |nodes|
    ensures PatchNode(p, stack, nodes[i]) == Ok(PatchForest(p, stack, nodes).value[i])
    decreases |nodes|
  {
    hide PatchNode;
    var rest := PatchForest(p, stack, nodes[1..]).value;
    assert PatchForest(p, stack, nodes).value == [PatchNode(p, stack, nodes[0]).value] + rest;
    if i > 0 {
      PatchedChild(p, stack, nodes[1..], i - 1);
    }
  }

  /// The patched tree, node by node.
  lemma PatchedTreeMeaning(t: Node, table: u32, path: seq<nat>)
    requires PatchTree(t, table).Ok?
    ensures VisitNode(t, false, 0, []).Ok?
    ensures Walk(PatchTree(t, table).value, path).Some? <==> Walk(t, path).Some?
    ensures Walk(t, path).Some? ==>
      NodeIs(Last(Walk(PatchTree(t, table).value, path).value), Walk(t, path).value, Platform(VisitNode(t, false, 0, []).value, table))
  {
    hide PatchNode, VisitNode, NodeIs;
    var p := Platform(VisitNode(t, false, 0, []).value, table);
    NoStack();
    PatchedBelow(p, [], [], t, path);
    if Walk(t, path).Some? {
      assert [] + Walk(t, path).value == Walk(t, path).value;
    }
  }

  lemma NoStack()
    ensures StackIs([], [])
  {
  }

  // When a tree is accepted.

  /// The power domains of a CPU split into tuples and names, and what is left fits the buffers.
  ghost predicate DomainsGood(cpu: Node, providers: seq<Provider>) { exists d: Domains :: DomainsAre(cpu, d, providers) }

  lemma DomainsReturn(cpu: Node, providers: seq<Provider>)
    ensures FilteredDomains(Get(cpu, POWER_DOMAINS), Get(cpu, POWER_DOMAIN_NAMES), providers).Ok? <==> DomainsGood(cpu, providers)
  {
    hide Bytes.Ascii, GetProp, FilterDomains, Flat, AreTuples, KeptInOrder, NamesLeft;
    var cells, names := Get(cpu, POWER_DOMAINS), Get(cpu, POWER_DOMAIN_NAMES);
    var out := FilteredDomains(cells, names, providers);
    if out.Ok? {
      DomainsMeaning(cpu, providers);
    }
    if DomainsGood(cpu, providers) && cells.Some? {
      var d: Domains :| DomainsAre(cpu, d, providers);
      var was: seq<bytes>, keep: seq<bool>, now: seq<bytes>, texts: seq<bytes>, texts': seq<bytes> :|
        Flat(was) == cells.value && AreTuples(was, keep, providers) && KeptInOrder(now, was, keep) && Flat(now) == d.cells
        && NamesLeft(names, d.names, |was|, keep, texts, texts');
      FilterReturns(cells.value, names, providers, was, keep, now, texts, texts', d.names);
      WholeCells(was, keep, providers);
    }
  }

  lemma {:induction false} WholeCells(was: seq<bytes>, keep: seq<bool>, providers: seq<Provider>)
    requires AreTuples(was, keep, providers)
    ensures |Flat(was)| % 4 == 0
  {
    hide AreTuples;
    if was != [] {
      var p := TupleRest(was, keep, providers);
      WholeCells(was[1..], keep[1..], providers);
      FourMore(|was[0]|, p.cells, |Flat(was[1..])|);
    }
  }

  lemma FourMore(n: nat, cells: nat, rest: nat)
    requires n == 4 + 4 * cells && rest % 4 == 0
    ensures (n + rest) % 4 == 0
  {
  }

  /// A CPU that can be patched: it has a number, and its power domains can be filtered.
  ghost predicate CoreGood(cpu: Node, providers: seq<Provider>) {
    var reg := Get(cpu, Ascii("reg"));
    reg.Some? && |reg.value| >= 4 && DomainsGood(cpu, providers)
  }

  /// Every node below `node`, itself included, can be patched.
  ghost predicate AllGood(above: seq<Node>, node: Node, providers: seq<Provider>) {
    forall path: seq<nat> :: Walk(node, path).Some? ==> NodeGood(above + Walk(node, path).value, providers)
  }

  ghost predicate NodeGood(nodes: seq<Node>, providers: seq<Provider>)
    requires nodes != []
  {
    |nodes| <= 32 && (IsCore(nodes) ==> CoreGood(Last(nodes), providers))
  }

  lemma AdditionsReturn(p: Platform, nodes: seq<Node>)
    requires nodes != []
    ensures Additions(p, ContextIs(nodes), SeenIn(Last(nodes).props)).Ok? <==> (IsCore(nodes) ==> CoreGood(Last(nodes), p.providers))
  {
    DomainsReturn(Last(nodes), p.providers);
    CpuText();
    hide Bytes.Ascii, FilteredDomains, GetProp, IsDisabled, DomainsGood, Bytes.De32, Bytes.Be64;
  }

  lemma AllGoodStep(above: seq<Node>, node: Node, providers: seq<Provider>)
    ensures AllGood(above, node, providers) <==>
      NodeGood(above + [node], providers) && forall child <- node.children :: AllGood(above + [node], child, providers)
  {
    hide NodeGood;
    var nodes := above + [node];
    if AllGood(above, node, providers) {
      assert Walk(node, []) == Some([node]);
      forall child <- node.children, path: seq<nat> | Walk(child, path).Some? ensures NodeGood(nodes + Walk(child, path).value, providers) {
        var i :| 0 <= i < |node.children| && node.children[i] == child;
        assert ([i] + path)[1..] == path;
        assert Walk(node, [i] + path).Some?;
        assert above + Walk(node, [i] + path).value == nodes + Walk(child, path).value;
      }
    }
    if NodeGood(nodes, providers) && forall child <- node.children :: AllGood(nodes, child, providers) {
      forall path: seq<nat> | Walk(node, path).Some? ensures NodeGood(above + Walk(node, path).value, providers) {
        if path != [] {
          var child := node.children[path[0]];
          assert child in node.children && Walk(child, path[1..]).Some?;
          assert above + Walk(node, path).value == nodes + Walk(child, path[1..]).value;
        }
      }
    }
  }

  lemma {:induction false} NodeReturns(p: Platform, stack: seq<Context>, above: seq<Node>, node: Node)
    requires StackIs(stack, above)
    ensures PatchNode(p, stack, node).Ok? <==> AllGood(above, node, p.providers)
    decreases node, 1
  {
    hide Additions, StackIs, ContextOf, ContextIs, SeenIn, AllGood, CoreGood, IsCore, Kept, PatchForest;
    var nodes := above + [node];
    assert Last(nodes) == node && |stack| == |above| by { StackLength(stack, above); }
    ContextMeaning(stack, above, node);
    AdditionsReturn(p, nodes);
    AllGoodStep(above, node, p.providers);
    ForestReturns(p, stack + [ContextIs(nodes)], nodes, node.children);
  }

  lemma StackLength(stack: seq<Context>, above: seq<Node>)
    requires StackIs(stack, above)
    ensures |stack| == |above|
  {
    hide ContextIs;
  }

  lemma {:induction false} ForestReturns(p: Platform, stack: seq<Context>, above: seq<Node>, nodes: seq<Node>)
    requires StackIs(stack, above)
    ensures PatchForest(p, stack, nodes).Ok? <==> forall child <- nodes :: AllGood(above, child, p.providers)
    decreases nodes, 0
  {
    hide PatchNode, StackIs, AllGood;
    if nodes != [] {
      NodeReturns(p, stack, above, nodes[0]);
      ForestReturns(p, stack, above, nodes[1..]);
      assert forall child :: child in nodes <==> child == nodes[0] || child in nodes[1..];
    }
  }

  /// A tree whose providers can be listed is accepted exactly when it is not too deep and its CPUs are good.
  lemma PatchedTreeReturns(t: Node, table: u32)
    requires VisitNode(t, false, 0, []).Ok?
    ensures PatchTree(t, table).Ok? <==> AllGood([], t, VisitNode(t, false, 0, []).value)
  {
    hide PatchNode, VisitNode, AllGood;
    NoStack();
    NodeReturns(Platform(VisitNode(t, false, 0, []).value, table), [], [], t);
  }
}
