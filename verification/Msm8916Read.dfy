/// `find_spin_table` and `collect_cpus` of `pocketpreboot/src/msm8916.rs` on the bytes of a structure block,
/// proved to read what `Msm8916Cpus` reads off the tree, and what they find in a patched blob.
module Msm8916Read {
  import opened Bytes
  import opened Tokens
  import opened Tree
  import opened Dtb
  import opened Msm8916
  import opened Msm8916Stream
  import opened Msm8916Blob
  import opened Msm8916Cpus
  import opened PrebootFdt

  // One node.

  /// A node's encoding starts at `offset`, before `tail`.
  ghost predicate Stands(b: bytes, strings: bytes, offset: nat, n: Node, tail: seq<Event>) {
    At(b, strings, offset, Events(n) + tail) && TokenAt(b, offset).Some? && TokenAt(b, offset).value.0.Begin?
  }

  lemma EncodedStands(b: bytes, strings: bytes, offset: nat, n: Node) returns (tail: seq<Event>)
    requires Encodes(b, strings, offset, n)
    ensures Stands(b, strings, offset, n, tail)
  {
    hide Events, TokenAt, EventsFrom;
    var evs := EventsFrom(b, strings, offset).value;
    tail := evs[|Events(n)|..];
    assert evs == Events(n) + tail;
  }

  /// `node_name` and `node_content_start`.
  method ReadName(b: bytes, strings: bytes, offset: nat, ghost n: Node, ghost tail: seq<Event>)
    returns (r: Option<(bytes, nat)>)
    ensures Stands(b, strings, offset, n, tail) ==>
      r.Some? && r.value.0 == n.name && At(b, strings, r.value.1, Content(n.props, n.children, tail))
  {
    hide TokenAt, At, Events, Content;
    if Stands(b, strings, offset, n, tail) {
      AtStep(b, strings, offset, Events(n) + tail);
      NodeInside(n, tail);
    }
    var read := ReadToken(b, offset);
    if read.Failed? || !read.value.0.BeginAt? {
      return None;
    }
    return Some((read.value.0.name, read.value.1));
  }

  /// `prop`, behind the name of a node.
  method ReadProp(b: bytes, strings: bytes, start: nat, name: bytes, ghost n: Node, ghost tail: seq<Event>)
    returns (r: Option<bytes>)
    ensures At(b, strings, start, Content(n.props, n.children, tail)) ==> r == Get(n, name)
  {
    hide At, Content, TokensFrom, Lookup, GetProp;
    if At(b, strings, start, Content(n.props, n.children, tail)) {
      LookupIsGet(b, strings, start, n, tail, name);
    }
    r := LookupProp(b, strings, start, name);
  }

  // The spin-table reservation.

  /// One child of /reserved-memory.
  method ReadCandidate(b: bytes, strings: bytes, offset: nat, ghost n: Node, ghost tail: seq<Event>)
    returns (looks: bool, address: Result<u32>)
    ensures Stands(b, strings, offset, n, tail) ==> looks == LooksLikeTable(n) && (looks ==> address == TableAddress(n))
  {
    hide Stands, At, GetProp, BasenameEq, ListHas, Bytes.Ascii, Content, StatusAllows, Bytes.De64;
    var head := ReadName(b, strings, offset, n, tail);
    if head.None? {
      return false, InvalidData;
    }
    var (name, start) := head.value;
    var compatible := ReadProp(b, strings, start, COMPATIBLE, n, tail);
    if !BasenameEq(name, Ascii("spin-table")) && !(compatible.Some? && ListHas(compatible.value, SPIN_TABLE_COMPATIBLE)) {
      return false, InvalidData;
    }
    looks := true;
    var noMap := ReadProp(b, strings, start, NO_MAP, n, tail);
    var reusable := ReadProp(b, strings, start, REUSABLE, n, tail);
    var status := ReadProp(b, strings, start, STATUS, n, tail);
    var reg := ReadProp(b, strings, start, REG, n, tail);
    if compatible.None? || !ListHas(compatible.value, SPIN_TABLE_COMPATIBLE) || noMap != Some([]) || reusable.Some?
       || !StatusAllows(status) || reg.None? || |reg.value| != 16 {
      return looks, InvalidData;
    }
    var base, size := De64(reg.value[..8]), De64(reg.value[8..]);
    if base == 0 || size != SPIN_TABLE_SIZE || base % SPIN_TABLE_SIZE != 0 || base + size > U32_LIMIT {
      return looks, InvalidData;
    }
    return looks, Ok(base);
  }

  lemma TableStep(nodes: seq<Node>, found: Option<u32>)
    ensures TableAmong(nodes, found) ==
      if nodes == [] then if found.None? then InvalidData else Ok(found.value)
      else if !LooksLikeTable(nodes[0]) then TableAmong(nodes[1..], found)
      else if found.Some? || TableAddress(nodes[0]).InvalidData? then InvalidData
      else TableAmong(nodes[1..], Some(TableAddress(nodes[0]).value))
  {
    hide LooksLikeTable, TableAddress;
  }

  lemma OneComponent(name: bytes)
    requires PlainName(name)
    ensures Components([SLASH] + name, 1) == Some([name]) && [SLASH] + name != [SLASH]
  {
    var components := [name];
    assert components[1..] == [] && JoinPath(components) == [SLASH] + name + [];
    ComponentsOfJoined([], components);
    assert [] + JoinPath(components) == [SLASH] + name;
  }

  lemma PlainPaths()
    ensures PlainName(RESERVED_MEMORY) && PlainName(CPUS)
  {
  }

  /// The reader knows this tree: the block encodes it, and no node is deeper than 32.
  ghost predicate Knows(b: bytes, strings: bytes, t: Node) {
    At(b, strings, 0, Events(t)) && t.name == [] && FitsDepth(t, READER_DEPTH)
  }

  /// `find_path` for a child of the root.
  method FindChild(b: bytes, strings: bytes, name: bytes, ghost t: Node) returns (r: Option<nat>)
    requires PlainName(name)
    ensures Knows(b, strings, t) ==>
      var found := LookupPath(t, [name]);
      if found.Some? then r.Some? && Encodes(b, strings, r.value, found.value) else r.None?
  {
    hide At, Events, FitsDepth, Encodes, TokenAt, Components, LookupPath;
    OneComponent(name);
    var found := FindPath(b, [SLASH] + name, strings, t);
    assert ([SLASH] + name)[0] == SLASH;
    r := if found.Found? then Some(found.value) else None;
  }

  /// `find_spin_table`.
  method ReadSpinTable(b: bytes, strings: bytes, ghost t: Node) returns (r: Result<u32>)
    ensures Knows(b, strings, t) ==> r == FindSpinTable(t)
  {
    PlainPaths();
    hide At, Events, FitsDepth, Encodes, TokenAt, LookupPath, GetProp, Content, Stands, LooksLikeTable, TableAddress, Bytes.Ascii,
      PlainName, FirstCell, TableAmong;
    ghost var known := Knows(b, strings, t);
    var offset := FindChild(b, strings, RESERVED_MEMORY, t);
    if offset.None? {
      return InvalidData;
    }
    ghost var n, tail := t, [];
    if known {
      n := LookupPath(t, [RESERVED_MEMORY]).value;
      tail := EncodedStands(b, strings, offset.value, n);
    }
    var head := ReadName(b, strings, offset.value, n, tail);
    if head.None? {
      return InvalidData;
    }
    var start := head.value.1;
    var addressCells := ReadProp(b, strings, start, ADDRESS_CELLS, n, tail);
    var sizeCells := ReadProp(b, strings, start, SIZE_CELLS, n, tail);
    var ranges := ReadProp(b, strings, start, RANGES, n, tail);
    if FirstCell(addressCells) != Some(2) || FirstCell(sizeCells) != Some(2) || ranges != Some([]) {
      return InvalidData;
    }
    assert known ==> FindSpinTable(t) == TableAmong(n.children, None);
    var children := new Subnodes(b, start);
    ghost var props, nodes := n.props, n.children;
    var found: Option<u32> := None;
    while true
      invariant !children.done
      invariant known ==>
        && At(b, strings, children.cursor, Content(props, nodes, tail))
        && FindSpinTable(t) == TableAmong(nodes, found)
      decreases |b| - children.cursor
    {
      TableStep(nodes, found);
      var next := children.Next(strings, props, nodes, tail);
      if next.None? {
        return if found.None? then InvalidData else Ok(found.value);
      }
      if next.value.Failed? {
        return InvalidData;
      }
      ghost var child, behind := NewNode([]), [];
      if known {
        child, behind := nodes[0], Content([], nodes[1..], tail);
        StandsAt(b, strings, next.value.value, child, behind);
      }
      var looks, address := ReadCandidate(b, strings, next.value.value, child, behind);
      if looks {
        if found.Some? || address.InvalidData? {
          return InvalidData;
        }
        found := Some(address.value);
      }
      props, nodes := [], if nodes == [] then [] else nodes[1..];
    }
  }

  lemma StandsAt(b: bytes, strings: bytes, offset: nat, n: Node, tail: seq<Event>)
    requires At(b, strings, offset, Events(n) + tail) && Encodes(b, strings, offset, n)
    ensures Stands(b, strings, offset, n, tail)
  {
  }

  // A node by its phandle.

  /// The events from the first node with this phandle on.
  function PhandleEvents(evs: seq<Event>, phandle: u32): Option<seq<Event>> {
    if evs == [] then None
    else if evs[0].Open? && PhandleOf(LookupEvents(evs[1..], PHANDLE), LookupEvents(evs[1..], LINUX_PHANDLE)) == Some(phandle)
    then Some(evs)
    else PhandleEvents(evs[1..], phandle)
  }

  /// The search has found this node.
  predicate HitsPhandle(s: Option<seq<Event>>, n: Node) { s.Some? && Events(n) <= s.value }

  lemma PhandleStep(e: Event, rest: seq<Event>, phandle: u32)
    requires !e.Open? || PhandleOf(LookupEvents(rest, PHANDLE), LookupEvents(rest, LINUX_PHANDLE)) != Some(phandle)
    ensures PhandleEvents([e] + rest, phandle) == PhandleEvents(rest, phandle)
  {
    hide PhandleOf, LookupEvents, Bytes.Ascii;
    assert ([e] + rest)[1..] == rest;
  }

  lemma {:induction false} PhandleProps(props: seq<Property>, rest: seq<Event>, phandle: u32)
    ensures PhandleEvents(PropEvents(props) + rest, phandle) == PhandleEvents(rest, phandle)
    decreases |props|
  {
    hide PhandleEvents;
    if props == [] {
      assert PropEvents(props) + rest == rest;
    } else {
      var more := PropEvents(props[1..]) + rest;
      assert PropEvents(props) + rest == [Attr(props[0].name, props[0].value)] + more;
      PhandleStep(Attr(props[0].name, props[0].value), more, phandle);
      PhandleProps(props[1..], rest, phandle);
    }
  }

  lemma {:induction false} PhandleNode(n: Node, rest: seq<Event>, phandle: u32)
    ensures
      var s, found := PhandleEvents(Events(n) + rest, phandle), FindPhandle(n, phandle);
      if found.Some? then HitsPhandle(s, found.value) else s == PhandleEvents(rest, phandle)
    decreases n, 1
  {
    var tail := [Close] + rest;
    var content := PropEvents(n.props) + (ForestEvents(n.children) + tail);
    EventsThen(n, rest);
    ForestThen(n.children, rest);
    LookupInNode(n.props, ForestEvents(n.children) + tail, PHANDLE);
    LookupInNode(n.props, ForestEvents(n.children) + tail, LINUX_PHANDLE);
    if PhandleOf(Get(n, PHANDLE), Get(n, LINUX_PHANDLE)) == Some(phandle) {
      hide Events, PhandleOf, Bytes.Ascii, GetProp, LookupEvents;
      assert ([Open(n.name)] + content)[1..] == content;
      assert PhandleEvents(Events(n) + rest, phandle) == Some(Events(n) + rest);
    } else {
      hide Events, PhandleOf, PhandleEvents, PropEvents, ForestEvents, LookupEvents, GetProp, HitsPhandle;
      PhandleStep(Open(n.name), content, phandle);
      PhandleProps(n.props, ForestEvents(n.children) + tail, phandle);
      PhandleForest(n.children, tail, phandle);
      PhandleStep(Close, rest, phandle);
    }
  }

  lemma {:induction false} PhandleForest(nodes: seq<Node>, rest: seq<Event>, phandle: u32)
    ensures
      var s, found := PhandleEvents(ForestEvents(nodes) + rest, phandle), FindPhandleIn(nodes, phandle);
      if found.Some? then HitsPhandle(s, found.value) else s == PhandleEvents(rest, phandle)
    decreases nodes, 0
  {
    hide PhandleEvents, FindPhandle, Events, HitsPhandle;
    if nodes == [] {
      assert ForestEvents(nodes) + rest == rest;
    } else {
      assert ForestEvents(nodes) + rest == Events(nodes[0]) + (ForestEvents(nodes[1..]) + rest);
      PhandleNode(nodes[0], ForestEvents(nodes[1..]) + rest, phandle);
      PhandleForest(nodes[1..], rest, phandle);
    }
  }

  /// The lookups of the code behind a begin token.
  lemma LookupHere(b: bytes, strings: bytes, start: nat, evs: seq<Event>, name: bytes)
    requires At(b, strings, start, evs)
    ensures TokensFrom(b, start).Some? && Lookup(strings, TokensFrom(b, start).value, name) == LookupEvents(evs, name)
  {
    hide TokensFrom, Resolve, Lookup, LookupEvents;
    LookupSimulates(strings, TokensFrom(b, start).value, name);
  }

  /// `find_phandle`: the first node of the tree, in document order, with this phandle.
  method ReadPhandle(b: bytes, strings: bytes, phandle: u32, ghost t: Node) returns (r: Option<nat>)
    ensures At(b, strings, 0, Events(t)) ==>
      var found := FindPhandle(t, phandle);
      if found.Some? then r.Some? && Encodes(b, strings, r.value, found.value) else r.None?
  {
    hide TokenAt, At, Events, PhandleEvents, FindPhandle, Encodes, EventsFrom, PhandleOf, Lookup, LookupEvents, TokensFrom, Bytes.Ascii;
    ghost var known, evs := At(b, strings, 0, Events(t)), Events(t);
    ghost var result := PhandleEvents(evs, phandle);
    if known {
      PhandleNode(t, [], phandle);
      assert Events(t) + [] == Events(t);
      PhandleEnds(phandle);
    }
    var cursor := 0;
    while true
      invariant known ==> At(b, strings, cursor, evs) && PhandleEvents(evs, phandle) == result
      decreases |b| - cursor
    {
      if known {
        AtStep(b, strings, cursor, evs);
        PhandleHead(evs, phandle);
      }
      var start := cursor;
      var read := ReadToken(b, cursor);
      if read.Failed? {
        return None;
      }
      cursor := read.value.1;
      match read.value.0 {
        case BeginAt(_) =>
          if known {
            LookupHere(b, strings, cursor, evs[1..], PHANDLE);
            LookupHere(b, strings, cursor, evs[1..], LINUX_PHANDLE);
          }
          var own := LookupProp(b, strings, cursor, PHANDLE);
          var linux := LookupProp(b, strings, cursor, LINUX_PHANDLE);
          if PhandleOf(own, linux) == Some(phandle) {
            if known {
              HitEncodes(b, strings, start, evs, FindPhandle(t, phandle));
            }
            return Some(start);
          }
          evs := if known then evs[1..] else evs;
        case EndAt =>
          evs := if known then evs[1..] else evs;
        case PropAt =>
          evs := if known then evs[1..] else evs;
        case NopAt =>
        case FinAt =>
          return None;
      }
    }
  }

  lemma PhandleEnds(phandle: u32)
    ensures PhandleEvents([], phandle) == None
  {
  }

  lemma PhandleHead(evs: seq<Event>, phandle: u32)
    ensures evs == [] ==> PhandleEvents(evs, phandle) == None
    ensures evs != [] ==>
      var here := PhandleOf(LookupEvents(evs[1..], PHANDLE), LookupEvents(evs[1..], LINUX_PHANDLE)) == Some(phandle);
      PhandleEvents(evs, phandle) == if evs[0].Open? && here then Some(evs) else PhandleEvents(evs[1..], phandle)
  {
    hide PhandleOf, LookupEvents, Bytes.Ascii;
  }

  // The CPUs.

  /// The controller of a cold CPU.
  method ReadAcc(b: bytes, strings: bytes, start: nat, reg: u32, ghost t: Node, ghost n: Node, ghost tail: seq<Event>)
    returns (r: Result<nat>)
    ensures Knows(b, strings, t) && At(b, strings, start, Content(n.props, n.children, tail)) ==> r == AccBase(t, n, reg)
  {
    hide At, Events, FitsDepth, Encodes, FindPhandle, GetProp, Content, Stands, Bytes.Ascii, Bytes.De32, FirstCell, ListHas;
    ghost var known := Knows(b, strings, t) && At(b, strings, start, Content(n.props, n.children, tail));
    var accPhandle := ReadProp(b, strings, start, QCOM_ACC, n, tail);
    var phandle := FirstCell(accPhandle);
    if phandle.None? {
      return InvalidData;
    }
    var offset := ReadPhandle(b, strings, phandle.value, t);
    if offset.None? {
      return InvalidData;
    }
    ghost var acc, behind := t, [];
    if known {
      acc := FindPhandle(t, phandle.value).value;
      behind := EncodedStands(b, strings, offset.value, acc);
    }
    var head := ReadName(b, strings, offset.value, acc, behind);
    if head.None? {
      return InvalidData;
    }
    var accReg := ReadProp(b, strings, head.value.1, REG, acc, behind);
    var compatible := ReadProp(b, strings, head.value.1, COMPATIBLE, acc, behind);
    if accReg.None? || |accReg.value| != 8 || De32(accReg.value[4..8]) < 0x18 {
      return InvalidData;
    }
    var base := De32(accReg.value[..4]);
    if base != 0x0b088000 + reg * 0x10000 || compatible.None? || !ListHas(compatible.value, Ascii("qcom,msm8916-acc")) {
      return InvalidData;
    }
    return Ok(base);
  }

  /// One node under /cpus that is counted.
  method ReadCpu(b: bytes, strings: bytes, start: nat, list: CpuList, ghost t: Node, ghost n: Node, ghost tail: seq<Event>)
    returns (r: Result<CpuList>)
    ensures Knows(b, strings, t) && At(b, strings, start, Content(n.props, n.children, tail)) ==> r == AddCpu(t, n, list)
  {
    hide At, Knows, GetProp, Content, Bytes.Ascii, Bytes.De32, Bytes.De64, ListHas, ModeOf, StatusAllows, AccBase, FindSpinTable;
    var compatible := ReadProp(b, strings, start, COMPATIBLE, n, tail);
    var reg := ReadProp(b, strings, start, REG, n, tail);
    var enableMethod := ReadProp(b, strings, start, ENABLE_METHOD, n, tail);
    var status := ReadProp(b, strings, start, STATUS, n, tail);
    var mode := ModeOf(enableMethod);
    if compatible.None? || !ListHas(compatible.value, Ascii("arm,cortex-a53")) || reg.None? || |reg.value| != 4 || mode.None? {
      return InvalidData;
    }
    if list.cpus != [] && list.mode != mode.value {
      return InvalidData;
    }
    var number := De32(reg.value);
    if number >= MAX_CPUS || (exists c <- list.cpus :: c.reg == number) || !StatusAllows(status) {
      return InvalidData;
    }
    var accBase := 0;
    if mode.value == Resident {
      var release := ReadProp(b, strings, start, CPU_RELEASE_ADDR, n, tail);
      if release.None? || |release.value| != 8 {
        return InvalidData;
      }
      var table := ReadSpinTable(b, strings, t);
      if table.InvalidData? || De64(release.value) != ReleaseAddr(table.value, number) {
        return InvalidData;
      }
    } else {
      var base := ReadAcc(b, strings, start, number, t, n, tail);
      if base.InvalidData? {
        return InvalidData;
      }
      accBase := base.value;
    }
    if |list.cpus| >= MAX_CPUS {
      return InvalidData;
    }
    return Ok(CpuList(list.cpus + [CpuInfo(number, accBase)], mode.value));
  }

  lemma CpusStep(t: Node, nodes: seq<Node>, list: CpuList)
    ensures CpusAmong(t, nodes, list) ==
      if nodes == [] then Ok(list)
      else if !IsCpuName(nodes[0]) then CpusAmong(t, nodes[1..], list)
      else if Cstr(Get(nodes[0], DEVICE_TYPE)).None? then InvalidData
      else if Cstr(Get(nodes[0], DEVICE_TYPE)) != Some(Ascii("cpu")) then CpusAmong(t, nodes[1..], list)
      else if AddCpu(t, nodes[0], list).InvalidData? then InvalidData
      else CpusAmong(t, nodes[1..], AddCpu(t, nodes[0], list).value)
  {
    hide IsCpuName, Cstr, AddCpu, GetProp, Bytes.Ascii;
  }

  /// `collect_cpus`.
  method ReadCpus(b: bytes, strings: bytes, ghost t: Node) returns (r: Result<CpuList>)
    ensures Knows(b, strings, t) ==> r == CollectCpus(t)
  {
    PlainPaths();
    hide At, Events, FitsDepth, Encodes, TokenAt, LookupPath, GetProp, Content, Stands, Bytes.Ascii, PlainName, FirstCell,
      CpusAmong, AddCpu, Cstr, BasenameEq;
    ghost var known := Knows(b, strings, t);
    var offset := FindChild(b, strings, CPUS, t);
    if offset.None? {
      return InvalidData;
    }
    ghost var n, tail := t, [];
    if known {
      n := LookupPath(t, [CPUS]).value;
      tail := EncodedStands(b, strings, offset.value, n);
    }
    var head := ReadName(b, strings, offset.value, n, tail);
    if head.None? {
      return InvalidData;
    }
    var start := head.value.1;
    var addressCells := ReadProp(b, strings, start, ADDRESS_CELLS, n, tail);
    var sizeCells := ReadProp(b, strings, start, SIZE_CELLS, n, tail);
    if FirstCell(addressCells) != Some(1) || FirstCell(sizeCells) != Some(0) {
      return InvalidData;
    }
    var children := new Subnodes(b, start);
    ghost var props, nodes := n.props, n.children;
    var list := CpuList([], Cold);
    ghost var all := CpusAmong(t, n.children, list);
    assert known ==> CollectCpus(t) == if all.Ok? && |all.value.cpus| == MAX_CPUS then all else InvalidData;
    while true
      invariant !children.done
      invariant known ==> At(b, strings, children.cursor, Content(props, nodes, tail)) && all == CpusAmong(t, nodes, list)
      decreases |b| - children.cursor
    {
      CpusStep(t, nodes, list);
      var next := children.Next(strings, props, nodes, tail);
      if next.None? {
        return if |list.cpus| != MAX_CPUS then InvalidData else Ok(list);
      }
      if next.value.Failed? {
        return InvalidData;
      }
      ghost var child, behind := NewNode([]), [];
      if known {
        child, behind := nodes[0], Content([], nodes[1..], tail);
        StandsAt(b, strings, next.value.value, child, behind);
      }
      var name := ReadName(b, strings, next.value.value, child, behind);
      if name.None? {
        return InvalidData;
      }
      if BasenameEq(name.value.0, Ascii("cpu")) {
        var deviceType := ReadProp(b, strings, name.value.1, DEVICE_TYPE, child, behind);
        if Cstr(deviceType).None? {
          return InvalidData;
        }
        if Cstr(deviceType) == Some(Ascii("cpu")) {
          var more := ReadCpu(b, strings, name.value.1, list, t, child, behind);
          if more.InvalidData? {
            return InvalidData;
          }
          list := more.value;
        }
      }
      props, nodes := [], if nodes == [] then [] else nodes[1..];
    }
  }

  // What a second stage reads from a patched blob.

  /// A node that is patched is not nested too deep for the reader, before and after.
  lemma {:induction false} PatchFits(p: Platform, stack: seq<Context>, n: Node)
    requires PatchNode(p, stack, n).Ok?
    ensures |stack| < READER_DEPTH && FitsDepth(PatchNode(p, stack, n).value, READER_DEPTH - |stack|)
    decreases n, 1
  {
    hide Additions, ContextOf, Kept, SeenIn, PatchForest;
    var c := ContextOf(stack, n.name, SeenIn(n.props));
    PatchForestFits(p, stack + [c], n.children);
  }

  lemma {:induction false} PatchForestFits(p: Platform, stack: seq<Context>, nodes: seq<Node>)
    requires PatchForest(p, stack, nodes).Ok? && |stack| <= READER_DEPTH
    ensures ForestFitsDepth(PatchForest(p, stack, nodes).value, READER_DEPTH - |stack|)
    decreases nodes, 0
  {
    hide PatchNode, FitsDepth;
    if nodes != [] {
      PatchFits(p, stack, nodes[0]);
      PatchForestFits(p, stack, nodes[1..]);
      var first, rest := PatchNode(p, stack, nodes[0]).value, PatchForest(p, stack, nodes[1..]).value;
      assert ([first] + rest)[1..] == rest;
    }
  }

  /// The patched blob has a tree that the reader knows, and the reader finds the same four CPUs in it,
  /// resident, exactly when no PSCI node is, or is an ancestor of, a CPU or the reservation.
  lemma ResidentInPatchedBlob(dtb: bytes, t: Node, capacity: nat, table: u32)
    requires Denotes(dtb, t) && PatchedFdt(dtb, t, capacity, table).Ok?
    requires FindSpinTable(t) == Ok(table) && CollectCpus(t).Ok?
    ensures PatchTree(t, table).Ok? && ReadBlocks(PatchedFdt(dtb, t, capacity, table).value).Ok?
    ensures
      var b, t' := ReadBlocks(PatchedFdt(dtb, t, capacity, table).value).value, PatchTree(t, table).value;
      && Knows(b.structure, b.strings, t')
      && CollectCpus(t') ==
         if TableSpared(t) && CpusSpared(t) then Ok(CpuList(AsResident(CollectCpus(t).value.cpus), Resident)) else InvalidData
  {
    hide *;
    PatchedFdtMeaning(dtb, t, capacity, table);
    var p := PlatformOf(t, table);
    PatchFits(p, [], t);
    TableRoot(t);
    DenotesKnows(PatchedFdt(dtb, t, capacity, table).value, PatchTree(t, table).value);
    ResidentAfterPatch(t, p);
  }

  lemma PlatformOf(t: Node, table: u32) returns (p: Platform)
    requires PatchTree(t, table).Ok?
    ensures p.table == table && PatchTree(t, table) == PatchNode(p, [], t)
  {
    hide VisitNode, PatchNode;
    p := Platform(VisitNode(t, false, 0, []).value, table);
  }

  lemma TableRoot(t: Node)
    requires FindSpinTable(t).Ok?
    ensures t.name == []
  {
    hide LookupPath, TwoCells, TableAmong;
  }

  lemma DenotesKnows(dtb: bytes, t: Node)
    requires Denotes(dtb, t) && t.name == [] && FitsDepth(t, READER_DEPTH)
    ensures ReadBlocks(dtb).Ok?
    ensures Knows(ReadBlocks(dtb).value.structure, ReadBlocks(dtb).value.strings, t)
  {
    hide ReadBlocks, At, Events, TokenAt, FitsDepth;
  }

  /// `patch_fdt`, and then `collect_cpus` on its output, as the next stage does.
  method PatchAndCollect(dtb: bytes, capacity: nat, table: u32, ghost t: Node) returns (r: Result<CpuList>)
    ensures Denotes(dtb, t) && PatchedFdt(dtb, t, capacity, table).Ok? && FindSpinTable(t) == Ok(table) && CollectCpus(t).Ok? ==>
      r == if TableSpared(t) && CpusSpared(t) then Ok(CpuList(AsResident(CollectCpus(t).value.cpus), Resident)) else InvalidData
  {
    hide CollectCpus, FindSpinTable, PatchedFdt, TableSpared, CpusSpared, PatchTree, Knows, Denotes, ReadBlocks, AsResident;
    ghost var known := Denotes(dtb, t) && PatchedFdt(dtb, t, capacity, table).Ok? && FindSpinTable(t) == Ok(table) && CollectCpus(t).Ok?;
    var patched := PatchFdt(dtb, capacity, table, t);
    if patched.InvalidData? {
      return InvalidData;
    }
    if known {
      ResidentInPatchedBlob(dtb, t, capacity, table);
    }
    var blocks := ReadBlocks(patched.value);
    if blocks.InvalidData? {
      return InvalidData;
    }
    r := ReadCpus(blocks.value.structure, blocks.value.strings, if known then PatchTree(t, table).value else t);
  }
}
