/// What the reader of `pocketpreboot/src/msm8916.rs` accepts as a spin-table reservation and as the CPUs.
module ReaderMeaning {
  import opened Bytes
  import opened Tree
  import opened Msm8916
  import opened Msm8916Blob
  import opened Msm8916Cpus
  import opened PrebootFdt
  import opened Paths
  import opened WordMeaning
  import opened PatchMeaning
  import opened VisitMeaning

  /// The value starts with this text and a NUL.
  predicate Says(value: Option<bytes>, text: bytes) {
    value.Some? && |text| < |value.value| && value.value[..|text|] == text && value.value[|text|] == 0
  }

  predicate HasNul(value: Option<bytes>) { value.Some? && exists i :: 0 <= i < |value.value| && value.value[i] == 0 }

  lemma SaysMeaning(value: Option<bytes>, text: bytes)
    requires NulFree(text)
    ensures Cstr(value) == Some(text) <==> Says(value, text)
    ensures Cstr(value).Some? <==> HasNul(value)
  {
    if Says(value, text) {
      assert forall i :: 0 <= i < |text| ==> value.value[i] == text[i];
    }
  }

  /// No readable status, or "okay" or "ok".
  predicate StatusIsGood(node: Node) {
    var status := Get(node, Ascii("status"));
    HasNul(status) ==> Says(status, Ascii("okay")) || Says(status, Ascii("ok"))
  }

  lemma Texts()
    ensures NulFree(Ascii("okay")) && NulFree(Ascii("ok")) && NulFree(Ascii("cpu")) && NulFree(Ascii("spin-table"))
    ensures NulFree(Ascii("psci")) && |Ascii("psci")| == 4 && |Ascii("spin-table")| == 10
  {
  }

  lemma AccTexts()
    ensures NulFree(Ascii("pocketboot,msm8916-acc")) && |Ascii("pocketboot,msm8916-acc")| == 22
  {
  }

  lemma ControllerText()
    ensures NulFree(Ascii("qcom,msm8916-acc"))
  {
  }

  lemma TableText()
    ensures NulFree(Ascii("pocketboot,spin-table-v1"))
  {
  }

  lemma StatusMeaning(node: Node)
    ensures StatusAllows(Get(node, STATUS)) <==> StatusIsGood(node)
  {
    Texts();
    SaysMeaning(Get(node, STATUS), Ascii("okay"));
    SaysMeaning(Get(node, STATUS), Ascii("ok"));
    hide Bytes.Ascii, GetProp, Cstr, Says, HasNul;
  }

  lemma ChildMeaning(t: Node, name: bytes)
    ensures LookupPath(t, [name]) == Child(t, name)
  {
    FirstNamed(t.children, name);
  }

  lemma {:induction false} FirstNamed(nodes: seq<Node>, name: bytes)
    ensures LookupIn(nodes, [name]) ==
      if ChildIndex(nodes, name).None? then None else Some(nodes[ChildIndex(nodes, name).value])
  {
    if nodes != [] {
      FirstNamed(nodes[1..], name);
    }
  }

  // The reservation.

  ghost predicate HasCompatible(node: Node, text: bytes) {
    var compatible := Get(node, Ascii("compatible"));
    compatible.Some? && HasText(compatible.value, text)
  }

  lemma CompatibleMeaning(node: Node, text: bytes)
    requires NulFree(text)
    ensures HasCompatible(node, text) <==> Get(node, COMPATIBLE).Some? && ListHas(Get(node, COMPATIBLE).value, text)
  {
    if Get(node, COMPATIBLE).Some? {
      ListMeaning(Get(node, COMPATIBLE).value, text);
    }
    hide Bytes.Ascii, GetProp, ListHas, HasText;
  }

  /// A child of /reserved-memory that is meant to be the table, ...
  ghost predicate MeansTable(node: Node) {
    node.name == Ascii("spin-table") || Ascii("spin-table@") <= node.name || HasCompatible(node, Ascii("pocketboot,spin-table-v1"))
  }

  /// ... and is one: a page below 4 GiB that nobody else may map.
  ghost predicate TableIs(node: Node, address: nat) {
    var reg := Get(node, Ascii("reg"));
    && HasCompatible(node, Ascii("pocketboot,spin-table-v1"))
    && Get(node, Ascii("no-map")) == Some([]) && Get(node, Ascii("reusable")).None? && StatusIsGood(node)
    && reg.Some? && |reg.value| == 16 && De64(reg.value[..8]) == address && De64(reg.value[8..]) == 0x1000
    && 0 < address <= 0xffff_f000 && address % 0x1000 == 0
  }

  lemma BasenameMeaning(name: bytes)
    ensures BasenameEq(name, Ascii("spin-table")) <==> name == Ascii("spin-table") || Ascii("spin-table@") <= name
  {
    SpinTexts();
    hide Bytes.Ascii;
  }

  lemma SpinTexts()
    ensures Ascii("spin-table@") == Ascii("spin-table") + [0x40] && |Ascii("spin-table")| == 10
    ensures forall i :: 0 <= i < 10 ==> Ascii("spin-table")[i] != 0x40
  {
  }

  lemma MeansMeaning(node: Node)
    ensures LooksLikeTable(node) <==> MeansTable(node)
  {
    TableText();
    BasenameMeaning(node.name);
    CompatibleMeaning(node, Ascii("pocketboot,spin-table-v1"));
    hide Bytes.Ascii, GetProp, ListHas, BasenameEq, HasCompatible;
  }

  lemma AddressMeaning(node: Node, address: u32)
    ensures TableAddress(node) == Ok(address) <==> TableIs(node, address)
  {
    TableText();
    CompatibleMeaning(node, Ascii("pocketboot,spin-table-v1"));
    StatusMeaning(node);
    hide Bytes.Ascii, GetProp, ListHas, HasCompatible, StatusIsGood, StatusAllows, Bytes.De64;
  }

  /// Exactly one of the nodes is meant, and is the table.
  ghost predicate OneTable(nodes: seq<Node>, address: nat) {
    exists k :: 0 <= k < |nodes| && MeansTable(nodes[k]) && TableIs(nodes[k], address)
      && forall j :: 0 <= j < |nodes| && j != k ==> !MeansTable(nodes[j])
  }

  ghost predicate NoTable(nodes: seq<Node>) { forall j :: 0 <= j < |nodes| ==> !MeansTable(nodes[j]) }

  lemma OneTableTail(nodes: seq<Node>, address: nat)
    requires nodes != []
    ensures OneTable(nodes, address) <==>
      if MeansTable(nodes[0]) then TableIs(nodes[0], address) && NoTable(nodes[1..]) else OneTable(nodes[1..], address)
    ensures NoTable(nodes) <==> !MeansTable(nodes[0]) && NoTable(nodes[1..])
  {
    hide MeansTable, TableIs;
    var rest := nodes[1..];
    assert forall j :: 0 < j < |nodes| ==> rest[j - 1] == nodes[j];
    if OneTable(nodes, address) {
      var k :| 0 <= k < |nodes| && MeansTable(nodes[k]) && TableIs(nodes[k], address)
        && forall j :: 0 <= j < |nodes| && j != k ==> !MeansTable(nodes[j]);
      if k > 0 {
        assert rest[k - 1] == nodes[k];
      }
    }
    if !MeansTable(nodes[0]) && OneTable(rest, address) {
      var k :| 0 <= k < |rest| && MeansTable(rest[k]) && TableIs(rest[k], address)
        && forall j :: 0 <= j < |rest| && j != k ==> !MeansTable(rest[j]);
      assert nodes[k + 1] == rest[k];
    }
  }

  lemma {:induction false} AmongMeaning(nodes: seq<Node>, found: Option<u32>, address: u32)
    ensures TableAmong(nodes, found) == Ok(address) <==>
      if found.None? then OneTable(nodes, address) else found.value == address && NoTable(nodes)
    decreases |nodes|
  {
    hide LooksLikeTable, MeansTable, TableIs, TableAddress, OneTable, NoTable;
    if nodes == [] {
      NoNodes(address);
    } else {
      MeansMeaning(nodes[0]);
      AddressMeaning(nodes[0], address);
      OneTableTail(nodes, address);
      AmongMeaning(nodes[1..], found, address);
      if TableAddress(nodes[0]).Ok? {
        AmongMeaning(nodes[1..], Some(TableAddress(nodes[0]).value), address);
      }
    }
  }

  lemma NoNodes(address: nat)
    ensures NoTable([]) && !OneTable([], address)
  {
  }

  /// /reserved-memory has two cells each, is one-to-one, and holds the table.
  ghost predicate TreeTable(t: Node, address: nat) {
    var reserved := Child(t, Ascii("reserved-memory"));
    && t.name == [] && reserved.Some?
    && Cell(Get(reserved.value, Ascii("#address-cells"))) == Some(2) && Cell(Get(reserved.value, Ascii("#size-cells"))) == Some(2)
    && Get(reserved.value, Ascii("ranges")) == Some([]) && OneTable(reserved.value.children, address)
  }

  /// `find_spin_table` finds the table of the tree, and nothing when there is none.
  lemma FindMeaning(t: Node, address: u32)
    ensures FindSpinTable(t) == Ok(address) <==> TreeTable(t, address)
  {
    ChildMeaning(t, RESERVED_MEMORY);
    hide Bytes.Ascii, GetProp, OneTable, LookupPath, Child, TableAmong, Bytes.De32;
    if Child(t, RESERVED_MEMORY).Some? {
      AmongMeaning(Child(t, RESERVED_MEMORY).value.children, None, address);
    }
  }

  // Phandles.

  /// The first node of the tree in document order comes before the second: it is above it, or in an earlier branch.
  predicate Earlier(p: seq<nat>, q: seq<nat>)
    decreases |p|
  {
    q != [] && (p == [] || p[0] < q[0] || (p[0] == q[0] && Earlier(p[1..], q[1..])))
  }

  predicate HandleAt(t: Node, path: seq<nat>, phandle: u32) {
    Walk(t, path).Some? && Handle(Last(Walk(t, path).value)) == Some(phandle)
  }

  /// The first node in document order with this phandle is at the path.
  ghost predicate FirstHandle(t: Node, phandle: u32, path: seq<nat>) {
    HandleAt(t, path, phandle) && forall q: seq<nat> :: Earlier(q, path) ==> !HandleAt(t, q, phandle)
  }

  lemma WalkStep(t: Node, path: seq<nat>, phandle: u32)
    ensures path == [] ==> (HandleAt(t, path, phandle) <==> Handle(t) == Some(phandle))
    ensures path != [] ==> (HandleAt(t, path, phandle) <==>
              path[0] < |t.children| && HandleAt(t.children[path[0]], path[1..], phandle))
  {
    hide Handle;
    if path != [] && path[0] < |t.children| && Walk(t.children[path[0]], path[1..]).Some? {
      var rest := Walk(t.children[path[0]], path[1..]).value;
      assert Last([t] + rest) == Last(rest);
    }
  }

  lemma HandleMeaning(n: Node)
    ensures PhandleOf(Get(n, PHANDLE), Get(n, LINUX_PHANDLE)) == Handle(n)
  {
    hide Bytes.Ascii, GetProp, Bytes.De32;
  }

  /// The search finds the first node, and nothing when no node has the phandle.
  lemma {:induction false} PhandleMeaning(t: Node, phandle: u32) returns (path: seq<nat>)
    ensures FindPhandle(t, phandle).Some? ==>
      FirstHandle(t, phandle, path) && Walk(t, path).Some? && Last(Walk(t, path).value) == FindPhandle(t, phandle).value
    ensures FindPhandle(t, phandle).None? ==> forall q: seq<nat> :: !HandleAt(t, q, phandle)
    decreases t, 1
  {
    hide Handle, HandleAt, Walk, PhandleOf;
    HandleMeaning(t);
    path := [];
    forall q: seq<nat> ensures Earlier(q, []) ==> false {
    }
    if Handle(t) == Some(phandle) {
      WalkStep(t, [], phandle);
      NoWalk(t);
    } else {
      var k, below := PhandleAmong(t.children, phandle);
      forall q: seq<nat>
        ensures HandleAt(t, q, phandle) <==> q != [] && q[0] < |t.children| && HandleAt(t.children[q[0]], q[1..], phandle)
      {
        WalkStep(t, q, phandle);
      }
      if FindPhandle(t, phandle).Some? {
        path := [k] + below;
        assert path[1..] == below;
        WalkLast(t, k, below);
      }
    }
  }

  lemma NoWalk(t: Node)
    ensures Walk(t, []) == Some([t])
  {
  }

  lemma WalkLast(t: Node, k: nat, below: seq<nat>)
    requires k < |t.children| && Walk(t.children[k], below).Some?
    ensures Walk(t, [k] + below).Some? && Last(Walk(t, [k] + below).value) == Last(Walk(t.children[k], below).value)
  {
    assert ([k] + below)[1..] == below;
  }

  lemma {:induction false} PhandleAmong(nodes: seq<Node>, phandle: u32) returns (k: nat, below: seq<nat>)
    ensures FindPhandleIn(nodes, phandle).Some? ==>
      && k < |nodes| && FirstHandle(nodes[k], phandle, below) && Walk(nodes[k], below).Some?
      && Last(Walk(nodes[k], below).value) == FindPhandleIn(nodes, phandle).value
      && forall j, q: seq<nat> :: 0 <= j < k ==> !HandleAt(nodes[j], q, phandle)
    ensures FindPhandleIn(nodes, phandle).None? ==> forall j, q: seq<nat> :: 0 <= j < |nodes| ==> !HandleAt(nodes[j], q, phandle)
    decreases nodes, 0
  {
    hide HandleAt, Walk, FirstHandle, FindPhandle;
    k, below := 0, [];
    if nodes != [] {
      below := PhandleMeaning(nodes[0], phandle);
      if FindPhandle(nodes[0], phandle).None? {
        k, below := PhandleAmong(nodes[1..], phandle);
        assert forall j :: 0 < j < |nodes| ==> nodes[j] == nodes[1..][j - 1];
        k := k + 1;
      }
    }
  }

  // The CPUs.

  ghost predicate IsCounted(node: Node) {
    (node.name == Ascii("cpu") || Ascii("cpu@") <= node.name) && Says(Get(node, Ascii("device_type")), Ascii("cpu"))
  }

  /// The power controller of a CPU that is off: the first node with the phandle in `qcom,acc`.
  ghost predicate ControllerIs(t: Node, node: Node, c: CpuInfo) {
    var handle := Cell(Get(node, Ascii("qcom,acc")));
    && handle.Some?
    && exists path: seq<nat> :: FirstHandle(t, handle.value, path)
         && var acc := Last(Walk(t, path).value);
         && HasCompatible(acc, Ascii("qcom,msm8916-acc"))
         && var reg := Get(acc, Ascii("reg"));
         && reg.Some? && |reg.value| == 8 && De32(reg.value[4..]) >= 0x18
         && De32(reg.value[..4]) == 0x0b08_8000 + c.reg * 0x1_0000 == c.accBase
  }

  /// The CPU that this node describes: it waits in the table of the tree, or it is off.
  ghost predicate CpuIs(t: Node, node: Node, c: CpuInfo, mode: CpuBootMode) {
    var reg, method' := Get(node, Ascii("reg")), Get(node, Ascii("enable-method"));
    && HasCompatible(node, Ascii("arm,cortex-a53")) && StatusIsGood(node)
    && reg.Some? && |reg.value| == 4 && De32(reg.value) == c.reg < 4
    && (if mode == Resident then Says(method', Ascii("spin-table"))
        else Says(method', Ascii("psci")) || Says(method', Ascii("pocketboot,msm8916-acc")))
    && PlaceIs(t, node, c, mode)
  }

  /// Where the CPU waits, or what turns it on.
  ghost predicate PlaceIs(t: Node, node: Node, c: CpuInfo, mode: CpuBootMode) {
    var release := Get(node, Ascii("cpu-release-addr"));
    if mode == Resident then
      && c.accBase == 0 && release.Some? && |release.value| == 8
      && exists a: u32 :: TreeTable(t, a) && De64(release.value) == a + 0x400 + c.reg * 0x80
    else ControllerIs(t, node, c)
  }

  lemma ControllerMeaning(t: Node, node: Node, c: CpuInfo)
    requires c.reg < 4
    ensures AccBase(t, node, c.reg) == Ok(c.accBase) <==> ControllerIs(t, node, c)
  {
    var handle := FirstCell(Get(node, QCOM_ACC));
    ControllerText();
    if handle.Some? {
      var path := PhandleMeaning(t, handle.value);
      forall p: seq<nat> ensures FirstHandle(t, handle.value, p) ==> FindPhandle(t, handle.value).Some? && p == path {
        if FirstHandle(t, handle.value, p) && FindPhandle(t, handle.value).Some? {
          OnlyFirst(t, handle.value, p, path);
        }
      }
      if FindPhandle(t, handle.value).Some? {
        var acc := FindPhandle(t, handle.value).value;
        CompatibleMeaning(acc, Ascii("qcom,msm8916-acc"));
        if Get(acc, REG).Some? && |Get(acc, REG).value| == 8 {
          assert Get(acc, REG).value[4..8] == Get(acc, REG).value[4..];
        }
      }
    }
    hide Bytes.Ascii, GetProp, Bytes.De32, FirstHandle, Walk, FindPhandle, ListHas, HasCompatible;
  }

  lemma OnlyFirst(t: Node, phandle: u32, p: seq<nat>, q: seq<nat>)
    requires FirstHandle(t, phandle, p) && FirstHandle(t, phandle, q)
    ensures p == q
  {
    EarlierTotal(p, q);
  }

  lemma {:induction false} EarlierTotal(p: seq<nat>, q: seq<nat>)
    ensures p == q || Earlier(p, q) || Earlier(q, p)
    decreases |p|
  {
    if p != [] && q != [] && p[0] == q[0] {
      EarlierTotal(p[1..], q[1..]);
      assert p == [p[0]] + p[1..] && q == [q[0]] + q[1..];
    }
  }

  lemma MethodMeaning(node: Node)
    ensures
      var method', mode := Get(node, Ascii("enable-method")), ModeOf(Get(node, ENABLE_METHOD));
      && (mode == Some(Resident) <==> Says(method', Ascii("spin-table")))
      && (mode == Some(Cold) <==> Says(method', Ascii("psci")) || Says(method', Ascii("pocketboot,msm8916-acc")))
  {
    var method' := Get(node, ENABLE_METHOD);
    Texts();
    AccTexts();
    SaysMeaning(method', Ascii("spin-table"));
    SaysMeaning(method', Ascii("psci"));
    SaysMeaning(method', Ascii("pocketboot,msm8916-acc"));
    hide Bytes.Ascii, GetProp, Cstr, Says, HasNul;
  }

  lemma BaseMeaning(t: Node, node: Node, c: CpuInfo, mode: CpuBootMode)
    requires c.reg < 4
    ensures BaseOf(t, node, c.reg, mode) == Ok(c.accBase) <==> PlaceIs(t, node, c, mode)
  {
    hide Bytes.Ascii, GetProp, AccBase, ControllerIs, TreeTable, FindSpinTable, Bytes.De64;
    ControllerMeaning(t, node, c);
    forall a: u32 ensures FindSpinTable(t) == Ok(a) <==> TreeTable(t, a) {
      FindMeaning(t, a);
    }
  }

  /// One CPU more.
  ghost predicate Adds(t: Node, node: Node, list: CpuList, more: CpuList) {
    && |more.cpus| == |list.cpus| + 1 <= 4 && more.cpus[..|list.cpus|] == list.cpus
    && (list.cpus != [] ==> more.mode == list.mode)
    && (forall c <- list.cpus :: c.reg != more.cpus[|list.cpus|].reg)
    && CpuIs(t, node, more.cpus[|list.cpus|], more.mode)
  }

  lemma PartsMeaning(t: Node, node: Node)
    ensures HasCompatible(node, Ascii("arm,cortex-a53")) <==>
      Get(node, COMPATIBLE).Some? && ListHas(Get(node, COMPATIBLE).value, Ascii("arm,cortex-a53"))
    ensures StatusAllows(Get(node, STATUS)) <==> StatusIsGood(node)
    ensures
      var method', mode := Get(node, Ascii("enable-method")), ModeOf(Get(node, ENABLE_METHOD));
      && (mode == Some(Resident) <==> Says(method', Ascii("spin-table")))
      && (mode == Some(Cold) <==> Says(method', Ascii("psci")) || Says(method', Ascii("pocketboot,msm8916-acc")))
    ensures forall c: CpuInfo, mode: CpuBootMode :: c.reg < 4 ==>
              (BaseOf(t, node, c.reg, mode) == Ok(c.accBase) <==> PlaceIs(t, node, c, mode))
  {
    hide Bytes.Ascii, GetProp, BaseOf, PlaceIs, ListHas, HasCompatible, StatusIsGood, StatusAllows, Msm8916Cpus.ModeOf, Says;
    CortexText();
    CompatibleMeaning(node, Ascii("arm,cortex-a53"));
    StatusMeaning(node);
    MethodMeaning(node);
    forall c: CpuInfo, mode: CpuBootMode | c.reg < 4
      ensures BaseOf(t, node, c.reg, mode) == Ok(c.accBase) <==> PlaceIs(t, node, c, mode)
    {
      BaseMeaning(t, node, c, mode);
    }
  }

  lemma CortexText()
    ensures NulFree(Ascii("arm,cortex-a53"))
  {
  }

  lemma AddMeaning(t: Node, node: Node, list: CpuList, more: CpuList)
    ensures AddCpu(t, node, list) == Ok(more) <==> Adds(t, node, list, more)
  {
    hide *;
    if AddCpu(t, node, list) == Ok(more) {
      AddedIs(t, node, list, more);
    }
    if Adds(t, node, list, more) {
      IsAdded(t, node, list, more);
    }
  }

  lemma AddedIs(t: Node, node: Node, list: CpuList, more: CpuList)
    requires AddCpu(t, node, list) == Ok(more)
    ensures Adds(t, node, list, more)
  {
    hide Bytes.Ascii, GetProp, BaseOf, PlaceIs, ListHas, HasCompatible, StatusIsGood, StatusAllows, Msm8916Cpus.ModeOf, Says, Bytes.De32;
    PartsMeaning(t, node);
    var c := more.cpus[|list.cpus|];
    assert BaseOf(t, node, c.reg, more.mode) == Ok(c.accBase);
  }

  lemma IsAdded(t: Node, node: Node, list: CpuList, more: CpuList)
    requires Adds(t, node, list, more)
    ensures AddCpu(t, node, list) == Ok(more)
  {
    hide Bytes.Ascii, GetProp, BaseOf, PlaceIs, ListHas, HasCompatible, StatusIsGood, StatusAllows, Msm8916Cpus.ModeOf, Says, Bytes.De32;
    PartsMeaning(t, node);
    var c := more.cpus[|list.cpus|];
    assert BaseOf(t, node, c.reg, more.mode) == Ok(c.accBase);
    assert more.cpus == list.cpus + [c];
  }

  predicate NamesCpu(node: Node) { node.name == Ascii("cpu") || Ascii("cpu@") <= node.name }

  /// How many of the first `i` nodes are CPUs.
  ghost function CpusBefore(nodes: seq<Node>, i: nat): (n: nat)
    requires i <= |nodes|
    ensures n <= i
  {
    if i == 0 then 0 else CpusBefore(nodes, i - 1) + if IsCounted(nodes[i - 1]) then 1 else 0
  }

  /// The CPUs among the nodes come behind those of the list, in their order, and no number repeats.
  ghost predicate AmongIs(t: Node, nodes: seq<Node>, list: CpuList, out: CpuList) {
    var n := |list.cpus|;
    && |out.cpus| == n + CpusBefore(nodes, |nodes|) && out.cpus[..n] == list.cpus
    && (CpusBefore(nodes, |nodes|) > 0 ==> |out.cpus| <= 4)
    && (n > 0 || CpusBefore(nodes, |nodes|) == 0 ==> out.mode == list.mode)
    && (forall i :: 0 <= i < |nodes| && NamesCpu(nodes[i]) ==> HasNul(Get(nodes[i], Ascii("device_type"))))
    && (forall i :: 0 <= i < |nodes| && IsCounted(nodes[i]) ==>
          var k := n + CpusBefore(nodes, i);
          k < |out.cpus| && CpuIs(t, nodes[i], out.cpus[k], out.mode))
    && (forall i, j :: 0 <= i < j < |out.cpus| && n <= j ==> out.cpus[i].reg != out.cpus[j].reg)
  }

  lemma {:induction false} CountTail(nodes: seq<Node>, i: nat)
    requires 0 < i <= |nodes|
    ensures CpusBefore(nodes, i) == CpusBefore(nodes[1..], i - 1) + if IsCounted(nodes[0]) then 1 else 0
  {
    hide IsCounted;
    if i > 1 {
      CountTail(nodes, i - 1);
    }
  }

  lemma CountTails(nodes: seq<Node>)
    requires nodes != []
    ensures forall i :: 0 < i <= |nodes| ==>
              CpusBefore(nodes, i) == CpusBefore(nodes[1..], i - 1) + if IsCounted(nodes[0]) then 1 else 0
    ensures CpusBefore(nodes, 0) == 0
    ensures forall i :: 0 < i < |nodes| ==> nodes[i] == nodes[1..][i - 1]
  {
    forall i | 0 < i <= |nodes| ensures
      CpusBefore(nodes, i) == CpusBefore(nodes[1..], i - 1) + if IsCounted(nodes[0]) then 1 else 0
    {
      CountTail(nodes, i);
    }
  }

  lemma NotCounted(t: Node, nodes: seq<Node>, list: CpuList, out: CpuList)
    requires nodes != [] && !IsCounted(nodes[0])
    ensures AmongIs(t, nodes, list, out) <==>
      (NamesCpu(nodes[0]) ==> HasNul(Get(nodes[0], Ascii("device_type")))) && AmongIs(t, nodes[1..], list, out)
  {
    hide IsCounted, CpuIs, NamesCpu, HasNul, CpusBefore, Bytes.Ascii, GetProp;
    CountTails(nodes);
    var rest := nodes[1..];
    assert forall i :: 0 <= i < |rest| ==> rest[i] == nodes[i + 1];
  }

  lemma FirstCounted(t: Node, nodes: seq<Node>, list: CpuList, more: CpuList, out: CpuList)
    requires nodes != [] && IsCounted(nodes[0]) && Adds(t, nodes[0], list, more) && AmongIs(t, nodes[1..], more, out)
    ensures AmongIs(t, nodes, list, out)
  {
    hide IsCounted, CpuIs, NamesCpu, HasNul, CpusBefore, Bytes.Ascii, GetProp;
    CountedNul(nodes[0]);
    var n := |list.cpus|;
    assert out.cpus[..n] == out.cpus[..n + 1][..n];
    assert out.cpus[n] == more.cpus[n];
    StillDistinct(list.cpus, out.cpus);
    CountTails(nodes);
    forall i | 0 <= i < |nodes| && IsCounted(nodes[i])
      ensures n + CpusBefore(nodes, i) < |out.cpus| && CpuIs(t, nodes[i], out.cpus[n + CpusBefore(nodes, i)], out.mode)
    {
      CountedAt(t, nodes, list, more, out, i);
    }
    forall i | 0 <= i < |nodes| && NamesCpu(nodes[i]) ensures HasNul(Get(nodes[i], Ascii("device_type"))) {
      if i > 0 {
        assert nodes[i] == nodes[1..][i - 1];
      }
    }
  }

  lemma CountedAt(t: Node, nodes: seq<Node>, list: CpuList, more: CpuList, out: CpuList, i: nat)
    requires nodes != [] && IsCounted(nodes[0]) && Adds(t, nodes[0], list, more) && AmongIs(t, nodes[1..], more, out)
    requires i < |nodes| && IsCounted(nodes[i])
    ensures
      var k := |list.cpus| + CpusBefore(nodes, i);
      k < |out.cpus| && CpuIs(t, nodes[i], out.cpus[k], out.mode)
  {
    hide IsCounted, CpuIs, NamesCpu, HasNul, CpusBefore, Bytes.Ascii, GetProp;
    CountTails(nodes);
    var n := |list.cpus|;
    if i == 0 {
      assert out.cpus[n] == out.cpus[..n + 1][n];
    } else {
      assert nodes[i] == nodes[1..][i - 1];
    }
  }

  lemma StillDistinct(was: seq<CpuInfo>, now: seq<CpuInfo>)
    requires |was| < |now| && now[..|was|] == was && forall c <- was :: c.reg != now[|was|].reg
    requires forall i, j :: 0 <= i < j < |now| && |was| < j ==> now[i].reg != now[j].reg
    ensures forall i, j :: 0 <= i < j < |now| && |was| <= j ==> now[i].reg != now[j].reg
  {
    assert forall i :: 0 <= i < |was| ==> was[i] in was && was[i] == now[i];
  }

  lemma CountedNul(node: Node)
    requires IsCounted(node)
    ensures NamesCpu(node) && HasNul(Get(node, Ascii("device_type")))
  {
  }

  lemma CountedFirst(t: Node, nodes: seq<Node>, list: CpuList, out: CpuList) returns (more: CpuList)
    requires nodes != [] && IsCounted(nodes[0]) && AmongIs(t, nodes, list, out)
    ensures Adds(t, nodes[0], list, more) && AmongIs(t, nodes[1..], more, out)
  {
    hide IsCounted, CpuIs, NamesCpu, HasNul, CpusBefore, Bytes.Ascii, GetProp;
    CountTails(nodes);
    var n, rest := |list.cpus|, nodes[1..];
    assert forall i :: 0 <= i < |rest| ==> rest[i] == nodes[i + 1];
    more := CpuList(out.cpus[..n + 1], out.mode);
    assert more.cpus[..n] == out.cpus[..n];
    forall c | c in list.cpus ensures c.reg != more.cpus[n].reg {
      var i :| 0 <= i < n && list.cpus[i] == c;
      assert out.cpus[..n][i] == out.cpus[i];
    }
  }

  lemma {:induction false} CpusMeaning(t: Node, nodes: seq<Node>, list: CpuList, out: CpuList)
    ensures CpusAmong(t, nodes, list) == Ok(out) <==> AmongIs(t, nodes, list, out)
    decreases |nodes|
  {
    if nodes == [] {
      NobodyAmong(t, list, out);
    } else {
      CountedMeaning(nodes[0]);
      hide IsCounted, Msm8916Cpus.IsCounted, NamesCpu, IsCpuName, Adds, AmongIs, HasNul, AddCpu, Cstr, Bytes.Ascii, GetProp;
      var node, rest := nodes[0], nodes[1..];
      CpusMeaning(t, rest, list, out);
      if !IsCounted(node) {
        NotCounted(t, nodes, list, out);
      } else {
        if AddCpu(t, node, list).Ok? && CpusAmong(t, rest, AddCpu(t, node, list).value) == Ok(out) {
          var more := AddCpu(t, node, list).value;
          AddMeaning(t, node, list, more);
          CpusMeaning(t, rest, more, out);
          FirstCounted(t, nodes, list, more, out);
        }
        if AmongIs(t, nodes, list, out) {
          var more := CountedFirst(t, nodes, list, out);
          AddMeaning(t, node, list, more);
          CpusMeaning(t, rest, more, out);
        }
      }
    }
  }

  lemma NobodyAmong(t: Node, list: CpuList, out: CpuList)
    ensures AmongIs(t, [], list, out) <==> out == list
  {
    if AmongIs(t, [], list, out) {
      assert out.cpus[..|list.cpus|] == out.cpus;
    }
  }

  lemma CountedMeaning(node: Node)
    ensures IsCpuName(node) <==> NamesCpu(node)
    ensures Cstr(Get(node, DEVICE_TYPE)).Some? <==> HasNul(Get(node, Ascii("device_type")))
    ensures Msm8916Cpus.IsCounted(node) <==> IsCounted(node)
    ensures IsCounted(node) ==> NamesCpu(node) && HasNul(Get(node, Ascii("device_type")))
  {
    Texts();
    CpuNameMeaning(node.name);
    SaysMeaning(Get(node, DEVICE_TYPE), Ascii("cpu"));
    if IsCounted(node) {
      CountedNul(node);
    }
    hide Bytes.Ascii, GetProp, Cstr, Says, HasNul, BasenameEq;
  }

  /// The four CPUs of the tree, in the order of their nodes.
  ghost predicate TreeCpus(t: Node, out: CpuList) {
    var cpus := Child(t, Ascii("cpus"));
    && t.name == [] && cpus.Some?
    && Cell(Get(cpus.value, Ascii("#address-cells"))) == Some(1) && Cell(Get(cpus.value, Ascii("#size-cells"))) == Some(0)
    && |out.cpus| == 4 && AmongIs(t, cpus.value.children, CpuList([], Cold), out)
  }

  /// `collect_cpus` lists the CPUs of the tree, and nothing when there are not four good ones.
  lemma CollectMeaning(t: Node, out: CpuList)
    ensures CollectCpus(t) == Ok(out) <==> TreeCpus(t, out)
  {
    ChildMeaning(t, CPUS);
    hide Bytes.Ascii, GetProp, AmongIs, LookupPath, Child, CpusAmong, Bytes.De32;
    if Child(t, CPUS).Some? {
      CpusMeaning(t, Child(t, CPUS).value.children, CpuList([], Cold), out);
    }
  }

  // After the patch.

  /// No PSCI node is the reservation, or above it, ...
  ghost predicate TableFree(t: Node) {
    var reserved := Child(t, Ascii("reserved-memory"));
    && !IsFirmware(t) && reserved.Some? && !IsFirmware(reserved.value)
    && forall n <- reserved.value.children :: MeansTable(n) ==> !IsFirmware(n)
  }

  /// ... and none is a CPU, or above one.
  ghost predicate CpusFree(t: Node) {
    var cpus := Child(t, Ascii("cpus"));
    && !IsFirmware(t) && cpus.Some? && !IsFirmware(cpus.value)
    && forall n <- cpus.value.children :: IsCounted(n) ==> !IsFirmware(n)
  }

  lemma SparedMeaning(t: Node)
    ensures TableSpared(t) <==> TableFree(t)
    ensures CpusSpared(t) <==> CpusFree(t)
  {
    hide Bytes.Ascii, IsFirmware, Msm8916.IsPsci, LookupPath, Child, LooksLikeTable, MeansTable, IsCounted, Msm8916Cpus.IsCounted;
    ChildMeaning(t, RESERVED_MEMORY);
    ChildMeaning(t, CPUS);
    forall n: Node ensures Psci(n) <==> IsFirmware(n) {
      FirmwareMeaning(n);
    }
    forall n: Node ensures LooksLikeTable(n) <==> MeansTable(n) {
      MeansMeaning(n);
    }
    forall n: Node ensures Msm8916Cpus.IsCounted(n) <==> IsCounted(n) {
      CountedMeaning(n);
    }
  }

  /// The next stage finds the same CPUs in the patched tree, now waiting in the table, exactly when PSCI
  /// covers neither them nor the table; otherwise it finds none.
  lemma ResidentMeaning(t: Node, table: u32, was: CpuList, out: CpuList)
    requires TreeTable(t, table) && TreeCpus(t, was) && PatchTree(t, table).Ok?
    ensures TreeCpus(PatchTree(t, table).value, out) <==>
      && TableFree(t) && CpusFree(t) && out.mode == Resident && |out.cpus| == |was.cpus|
      && forall i :: 0 <= i < |was.cpus| ==> out.cpus[i] == CpuInfo(was.cpus[i].reg, 0)
  {
    hide TreeTable, TreeCpus, TableFree, CpusFree, FindSpinTable, CollectCpus, TableSpared, CpusSpared, PatchNode, VisitNode;
    FindMeaning(t, table);
    CollectMeaning(t, was);
    ResidentAfterPatch(t, Platform(VisitNode(t, false, 0, []).value, table));
    SparedMeaning(t);
    CollectMeaning(PatchTree(t, table).value, out);
    if |out.cpus| == |was.cpus| && forall i :: 0 <= i < |was.cpus| ==> out.cpus[i] == CpuInfo(was.cpus[i].reg, 0) {
      assert out.cpus == AsResident(was.cpus);
    }
  }
}
