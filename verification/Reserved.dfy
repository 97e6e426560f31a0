/// `reserved_ranges` of `src/kexec.rs`: the physical ranges a devicetree blob reserves,
/// read in one pass over the token stream, and the reading of the same ranges off the tree.
module Reserved {
  import opened Bytes
  import opened Tokens
  import opened Tree
  import opened Dtb
  import opened Contract

  const PROP_ADDRESS_CELLS: bytes := Ascii("#address-cells")
  const PROP_SIZE_CELLS: bytes := Ascii("#size-cells")
  const PROP_REG: bytes := Ascii("reg")
  const PROP_STATUS: bytes := Ascii("status")
  const RESERVED_MEMORY: bytes := Ascii("reserved-memory")

  /// `property_u32`.
  function PropertyU32(value: bytes): Result<u32> {
    if |value| == 4 then Ok(De32(value)) else InvalidData
  }

  /// `property_status_enabled`: one trailing NUL is ignored.
  function StatusEnabled(value: bytes): bool {
    var text := if |value| > 0 && value[|value| - 1] == 0 then value[..|value| - 1] else value;
    text == Ascii("ok") || text == Ascii("okay")
  }

  /// `decode_cells` on one or two cells.
  function DecodeCells(cells: bytes): nat
    requires |cells| == 4 || |cells| == 8
  {
    if |cells| == 4 then De32(cells) else De64(cells)
  }

  /// The tuples of a `reg` value; zero-sized ones are dropped.
  function DecodeTuples(reg: bytes, addressBytes: nat, tupleBytes: nat): (ranges: Result<seq<Range>>)
    requires (addressBytes == 4 || addressBytes == 8)
    requires tupleBytes == addressBytes + 4 || tupleBytes == addressBytes + 8
    requires Whole(reg, tupleBytes)
    ensures ranges.Ok? ==> forall r <- ranges.value :: r.start < r.end < U64_LIMIT
  {
    if reg == [] then Ok([])
    else
      assert |reg| >= tupleBytes && Whole(reg[tupleBytes..], tupleBytes) by { WholeNext(reg, tupleBytes); }
      var address, size := DecodeCells(reg[..addressBytes]), DecodeCells(reg[addressBytes..tupleBytes]);
      if size == 0 then DecodeTuples(reg[tupleBytes..], addressBytes, tupleBytes)
      else if address + size >= U64_LIMIT then InvalidData
      else
        var rest :- DecodeTuples(reg[tupleBytes..], addressBytes, tupleBytes);
        Ok([Range(address, address + size)] + rest)
  }

  /// A whole number of tuples.
  predicate Whole(reg: bytes, tupleBytes: nat)
    requires tupleBytes > 0
  {
    |reg| % tupleBytes == 0
  }

  lemma WholeNext(reg: bytes, tupleBytes: nat)
    requires (tupleBytes == 8 || tupleBytes == 12 || tupleBytes == 16) && reg != [] && Whole(reg, tupleBytes)
    ensures |reg| >= tupleBytes && Whole(reg[tupleBytes..], tupleBytes)
  {
    if tupleBytes == 8 {
    } else if tupleBytes == 12 {
    }
  }

  /// `decode_reg_ranges`.
  function DecodeReg(reg: bytes, addressCells: u32, sizeCells: u32): (ranges: Result<seq<Range>>)
    ensures ranges.Ok? ==> forall r <- ranges.value :: r.start < r.end < U64_LIMIT
  {
    if !(1 <= addressCells <= 2) || !(1 <= sizeCells <= 2) then InvalidData
    else
      var tupleBytes := (addressCells + sizeCells) * 4;
      if !Whole(reg, tupleBytes) then InvalidData
      else DecodeTuples(reg, addressCells * 4, tupleBytes)
  }

  // The one-pass scanner.

  datatype ReservedChild = ReservedChild(enabled: bool, reg: Option<bytes>)

  datatype Scan = Scan(
    stack: seq<bytes>,
    rootAddressCells: u32,
    rootSizeCells: u32,
    addressCells: Option<u32>,
    sizeCells: Option<u32>,
    child: Option<ReservedChild>,
    ranges: seq<Range>)

  const SCAN_START := Scan([], 2, 1, None, None, None, [])

  predicate IsRoot(stack: seq<bytes>) { |stack| == 1 && stack[0] == [] }

  predicate IsReservedMemory(stack: seq<bytes>) {
    |stack| == 2 && stack[0] == [] && stack[1] == RESERVED_MEMORY
  }

  predicate IsReservedMemoryChild(stack: seq<bytes>) {
    |stack| == 3 && stack[0] == [] && stack[1] == RESERVED_MEMORY
  }

  function OrElse(x: Option<u32>, default: u32): u32 { if x.Some? then x.value else default }

  function ChildRanges(child: ReservedChild, addressCells: u32, sizeCells: u32): Result<seq<Range>> {
    if child.enabled && child.reg.Some? then DecodeReg(child.reg.value, addressCells, sizeCells) else Ok([])
  }

  function ScanOpen(s: Scan, name: bytes): Scan {
    var stack := s.stack + [name];
    s.(stack := stack, child := if IsReservedMemoryChild(stack) then Some(ReservedChild(true, None)) else s.child)
  }

  function ScanClose(s: Scan): Result<Scan> {
    if s.stack == [] then InvalidData
    else if IsReservedMemoryChild(s.stack) then
      if s.child.None? then InvalidData
      else
        var found :- ChildRanges(s.child.value, OrElse(s.addressCells, s.rootAddressCells),
                                 OrElse(s.sizeCells, s.rootSizeCells));
        Ok(s.(stack := s.stack[..|s.stack| - 1], child := None, ranges := s.ranges + found))
    else Ok(s.(stack := s.stack[..|s.stack| - 1]))
  }

  function ChildAttr(child: ReservedChild, name: bytes, value: bytes): ReservedChild {
    if name == PROP_REG then child.(reg := Some(value))
    else if name == PROP_STATUS then child.(enabled := StatusEnabled(value))
    else child
  }

  function ScanAttr(s: Scan, name: bytes, value: bytes): Result<Scan> {
    if IsRoot(s.stack) then
      if name == PROP_ADDRESS_CELLS then
        var cells :- PropertyU32(value);
        Ok(s.(rootAddressCells := cells))
      else if name == PROP_SIZE_CELLS then
        var cells :- PropertyU32(value);
        Ok(s.(rootSizeCells := cells))
      else Ok(s)
    else if IsReservedMemory(s.stack) then
      if name == PROP_ADDRESS_CELLS then
        var cells :- PropertyU32(value);
        Ok(s.(addressCells := Some(cells)))
      else if name == PROP_SIZE_CELLS then
        var cells :- PropertyU32(value);
        Ok(s.(sizeCells := Some(cells)))
      else Ok(s)
    else if IsReservedMemoryChild(s.stack) then
      if s.child.None? then InvalidData
      else Ok(s.(child := Some(ChildAttr(s.child.value, name, value))))
    else Ok(s)
  }

  /// The token loop of `reserved_memory_node_ranges`, as a function of the events to come.
  function ScanEvents(s: Scan, evs: seq<Event>): Result<seq<Range>>
    decreases |evs|
  {
    if evs == [] then
      if s.stack == [] then Ok(s.ranges) else InvalidData
    else
      match evs[0]
      case Open(name) => ScanEvents(ScanOpen(s, name), evs[1..])
      case Close =>
        var s' :- ScanClose(s);
        ScanEvents(s', evs[1..])
      case Attr(name, value) =>
        var s' :- ScanAttr(s, name, value);
        ScanEvents(s', evs[1..])
  }

  /// What is left to do once the scanner stands at `cursor`.
  function ScanRest(structure: bytes, strings: bytes, cursor: nat, s: Scan): Result<seq<Range>> {
    match EventsFrom(structure, strings, cursor)
    case None => InvalidData
    case Some(evs) => ScanEvents(s, evs)
  }

  lemma TuplesStep(reg: bytes, addressBytes: nat, tupleBytes: nat)
    requires addressBytes == 4 || addressBytes == 8
    requires tupleBytes == addressBytes + 4 || tupleBytes == addressBytes + 8
    requires reg != [] && Whole(reg, tupleBytes)
    ensures |reg| >= tupleBytes && Whole(reg[tupleBytes..], tupleBytes)
    ensures
      var address, size := DecodeCells(reg[..addressBytes]), DecodeCells(reg[addressBytes..tupleBytes]);
      var rest := DecodeTuples(reg[tupleBytes..], addressBytes, tupleBytes);
      DecodeTuples(reg, addressBytes, tupleBytes) ==
      if size == 0 then rest
      else if address + size >= U64_LIMIT then InvalidData
      else JoinRanges([Range(address, address + size)], rest)
  {
    hide DecodeCells;
    WholeNext(reg, tupleBytes);
    hide Whole;
  }

  lemma NoTuplesLeft(addressBytes: nat, tupleBytes: nat, ranges: seq<Range>)
    requires addressBytes == 4 || addressBytes == 8
    requires tupleBytes == addressBytes + 4 || tupleBytes == addressBytes + 8
    ensures Whole([], tupleBytes) && JoinRanges(ranges, DecodeTuples([], addressBytes, tupleBytes)) == Ok(ranges)
  {
    EmptyConcat(ranges);
  }

  /// `decode_reg_ranges`.
  method ReadReg(reg: bytes, addressCells: u32, sizeCells: u32) returns (r: Result<seq<Range>>)
    ensures r == DecodeReg(reg, addressCells, sizeCells)
  {
    if !(1 <= addressCells <= 2) || !(1 <= sizeCells <= 2) {
      return InvalidData;
    }
    var tupleBytes, addressBytes := (addressCells + sizeCells) * 4, addressCells * 4;
    if !Whole(reg, tupleBytes) {
      return InvalidData;
    }
    hide DecodeCells, DecodeTuples, JoinRanges, Whole;
    var ranges: seq<Range> := [];
    var left := reg;
    JoinTwice([], Range(0, 0), DecodeTuples(reg, addressBytes, tupleBytes));
    while left != []
      invariant Whole(left, tupleBytes)
      invariant DecodeTuples(reg, addressBytes, tupleBytes) == JoinRanges(ranges, DecodeTuples(left, addressBytes, tupleBytes))
      decreases |left|
    {
      TuplesStep(left, addressBytes, tupleBytes);
      var address, size := DecodeCells(left[..addressBytes]), DecodeCells(left[addressBytes..tupleBytes]);
      left := left[tupleBytes..];
      if size == 0 {
        continue;
      }
      if address + size >= U64_LIMIT {
        JoinFails(ranges);
        return InvalidData;
      }
      var range := Range(address, address + size);
      JoinTwice(ranges, range, DecodeTuples(left, addressBytes, tupleBytes));
      ranges := ranges + [range];
    }
    NoTuplesLeft(addressBytes, tupleBytes, ranges);
    return Ok(ranges);
  }

  lemma JoinFails(ranges: seq<Range>)
    ensures JoinRanges(ranges, InvalidData) == InvalidData
  {
  }

  /// `reserved_memory_node_ranges`.
  method ReadNodeRanges(structure: bytes, strings: bytes) returns (r: Result<seq<Range>>)
    ensures r == ScanRest(structure, strings, 0, SCAN_START)
  {
    hide TokenAt, StringAt, EventsFrom, PropertyU32, DecodeReg, StatusEnabled;
    hide Bytes.Ascii;
    var cursor := 0;
    var stack: seq<bytes> := [];
    var rootAddressCells: u32, rootSizeCells: u32 := 2, 1;
    var reservedAddressCells: Option<u32>, reservedSizeCells: Option<u32> := None, None;
    var child: Option<ReservedChild> := None;
    var ranges: seq<Range> := [];
    while true
      invariant ScanRest(structure, strings, 0, SCAN_START) ==
        ScanRest(structure, strings, cursor,
          Scan(stack, rootAddressCells, rootSizeCells, reservedAddressCells, reservedSizeCells, child, ranges))
      decreases |structure| - cursor
    {
      var read := TokenAt(structure, cursor);
      EventsStep(structure, strings, cursor);
      if read.None? {
        return InvalidData;
      }
      var (token, next) := read.value;
      assert forall e: Event, evs: seq<Event> :: ([e] + evs)[1..] == evs;
      assert forall evs: seq<Event> :: [] + evs == evs;
      cursor := next;
      match token {
        case Begin(name, _) =>
          stack := stack + [name];
          if IsReservedMemoryChild(stack) {
            child := Some(ReservedChild(true, None));
          }
        case End =>
          if IsReservedMemoryChild(stack) {
            if child.None? {
              return InvalidData;
            }
            if child.value.enabled && child.value.reg.Some? {
              var found := ReadReg(child.value.reg.value, OrElse(reservedAddressCells, rootAddressCells),
                                   OrElse(reservedSizeCells, rootSizeCells));
              if found.InvalidData? {
                return InvalidData;
              }
              ranges := ranges + found.value;
            } else {
              assert ranges + [] == ranges;
            }
            child := None;
          }
          if stack == [] {
            return InvalidData;
          }
          stack := stack[..|stack| - 1];
        case Prop(nameoff, value, _) =>
          var at := StringAt(strings, nameoff);
          if at.None? {
            return InvalidData;
          }
          var name := at.value;
          if IsRoot(stack) {
            if name == PROP_ADDRESS_CELLS {
              rootAddressCells :- PropertyU32(value);
            } else if name == PROP_SIZE_CELLS {
              rootSizeCells :- PropertyU32(value);
            }
          } else if IsReservedMemory(stack) {
            if name == PROP_ADDRESS_CELLS {
              var cells :- PropertyU32(value);
              reservedAddressCells := Some(cells);
            } else if name == PROP_SIZE_CELLS {
              var cells :- PropertyU32(value);
              reservedSizeCells := Some(cells);
            }
          } else if IsReservedMemoryChild(stack) {
            if child.None? {
              return InvalidData;
            }
            if name == PROP_REG {
              child := Some(child.value.(reg := Some(value)));
            } else if name == PROP_STATUS {
              child := Some(child.value.(enabled := StatusEnabled(value)));
            }
          }
        case Nop =>
        case Fin =>
          if stack != [] {
            return InvalidData;
          }
          return Ok(ranges);
      }
    }
  }

  // The same ranges read off the tree.

  /// `ContractNode::cells`.
  function NodeCells(node: Node, name: bytes, default: u32): Result<u32> {
    match Get(node, name)
    case None => Ok(default)
    case Some(value) => PropertyU32(value)
  }

  /// `ContractNode::enabled`.
  function Enabled(node: Node): bool {
    match Get(node, PROP_STATUS)
    case None => true
    case Some(value) => StatusEnabled(value)
  }

  function ChildReserved(node: Node, addressCells: u32, sizeCells: u32): Result<seq<Range>> {
    ChildRanges(ReservedChild(Enabled(node), Get(node, PROP_REG)), addressCells, sizeCells)
  }

  function ForestReserved(nodes: seq<Node>, addressCells: u32, sizeCells: u32): Result<seq<Range>> {
    if nodes == [] then Ok([])
    else
      var first :- ChildReserved(nodes[0], addressCells, sizeCells);
      var rest :- ForestReserved(nodes[1..], addressCells, sizeCells);
      Ok(first + rest)
  }

  /// What the children of /reserved-memory reserve, decoded with that node's cell
  /// counts, or the root's where it has none.
  function TreeReserved(root: Node): Result<seq<Range>> {
    var rootAddress :- NodeCells(root, PROP_ADDRESS_CELLS, 2);
    var rootSize :- NodeCells(root, PROP_SIZE_CELLS, 1);
    match Child(root, RESERVED_MEMORY)
    case None => Ok([])
    case Some(reserved) =>
      var addressCells :- NodeCells(reserved, PROP_ADDRESS_CELLS, rootAddress);
      var sizeCells :- NodeCells(reserved, PROP_SIZE_CELLS, rootSize);
      ForestReserved(reserved.children, addressCells, sizeCells)
  }

  /// Only the root's own properties and its /reserved-memory child matter.
  lemma TreeReservedDepends(root: Node, root': Node)
    requires root'.props == root.props && Child(root', RESERVED_MEMORY) == Child(root, RESERVED_MEMORY)
    ensures TreeReserved(root') == TreeReserved(root)
  {
    hide ForestReserved, PropertyU32, Child;
  }

  // The scanner finds what the tree says.

  /// No node at or below this stack is the root, /reserved-memory or a child of it.
  predicate OffPath(stack: seq<bytes>) {
    |stack| >= 4 || (|stack| >= 2 && !(stack[0] == [] && stack[1] == RESERVED_MEMORY))
  }

  lemma {:induction false} ScanOffProps(s: Scan, props: seq<Property>, rest: seq<Event>)
    requires OffPath(s.stack)
    ensures ScanEvents(s, PropEvents(props) + rest) == ScanEvents(s, rest)
    decreases |props|
  {
    if props == [] {
      assert PropEvents(props) + rest == rest;
    } else {
      assert (PropEvents(props) + rest)[1..] == PropEvents(props[1..]) + rest;
      ScanOffProps(s, props[1..], rest);
    }
  }

  lemma {:induction false} ScanOffNode(s: Scan, node: Node, rest: seq<Event>)
    requires OffPath(s.stack + [node.name])
    ensures ScanEvents(s, Events(node) + rest) == ScanEvents(s, rest)
    decreases node, 1
  {
    var inside := ScanOpen(s, node.name);
    var tail := [Close] + rest;
    assert Events(node) + rest == [Open(node.name)] + (PropEvents(node.props) + (ForestEvents(node.children) + tail));
    ScanOffProps(inside, node.props, ForestEvents(node.children) + tail);
    ScanOffForest(inside, node.children, tail);
    assert tail[1..] == rest && inside.stack[..|s.stack|] == s.stack;
    assert ScanClose(inside) == Ok(s);
  }

  lemma {:induction false} ScanOffForest(s: Scan, nodes: seq<Node>, rest: seq<Event>)
    requires OffPath(s.stack) || (|s.stack| == 3 && nodes != []) || nodes == []
    ensures ScanEvents(s, ForestEvents(nodes) + rest) == ScanEvents(s, rest)
    decreases nodes, 0
  {
    if nodes == [] {
      assert ForestEvents(nodes) + rest == rest;
    } else {
      assert ForestEvents(nodes) + rest == Events(nodes[0]) + (ForestEvents(nodes[1..]) + rest);
      ScanOffNode(s, nodes[0], ForestEvents(nodes[1..]) + rest);
      ScanOffForest(s, nodes[1..], rest);
    }
  }

  /// The state of a reserved child after all its properties.
  function FoldChild(child: ReservedChild, props: seq<Property>): ReservedChild
    decreases |props|
  {
    if props == [] then child else FoldChild(ChildAttr(child, props[0].name, props[0].value), props[1..])
  }

  lemma UniqueTail(props: seq<Property>)
    requires props != [] && UniqueProps(props)
    ensures UniqueProps(props[1..]) && GetProp(props[1..], props[0].name).None?
  {
    GetNone(props[1..], props[0].name);
    assert forall i :: 0 <= i < |props| - 1 ==> props[1..][i] == props[i + 1];
  }

  lemma {:induction false} FoldChildMeaning(child: ReservedChild, props: seq<Property>)
    requires UniqueProps(props)
    ensures
      var status, reg := GetProp(props, PROP_STATUS), GetProp(props, PROP_REG);
      FoldChild(child, props) ==
      ReservedChild(if status.Some? then StatusEnabled(status.value) else child.enabled, if reg.Some? then reg else child.reg)
    decreases |props|
  {
    assert |PROP_STATUS| != |PROP_REG|;
    if props != [] {
      UniqueTail(props);
      FoldChildMeaning(ChildAttr(child, props[0].name, props[0].value), props[1..]);
    }
  }

  lemma {:induction false} ScanChildProps(s: Scan, props: seq<Property>, rest: seq<Event>)
    requires IsReservedMemoryChild(s.stack) && s.child.Some?
    ensures ScanEvents(s, PropEvents(props) + rest) == ScanEvents(s.(child := Some(FoldChild(s.child.value, props))), rest)
    decreases |props|
  {
    if props == [] {
      assert PropEvents(props) + rest == rest;
    } else {
      assert (PropEvents(props) + rest)[1..] == PropEvents(props[1..]) + rest;
      ScanChildProps(ScanAttr(s, props[0].name, props[0].value).value, props[1..], rest);
    }
  }

  /// One child of /reserved-memory.
  lemma ScanChild(s: Scan, node: Node, rest: seq<Event>)
    requires s.stack == [[], RESERVED_MEMORY] && s.child.None? && UniqueProps(node.props)
    ensures
      var found := ChildReserved(node, OrElse(s.addressCells, s.rootAddressCells), OrElse(s.sizeCells, s.rootSizeCells));
      ScanEvents(s, Events(node) + rest) ==
      if found.Ok? then ScanEvents(s.(ranges := s.ranges + found.value), rest) else InvalidData
  {
    hide ChildRanges, StatusEnabled;
    var inside := ScanOpen(s, node.name);
    var tail := [Close] + rest;
    assert Events(node) + rest == [Open(node.name)] + (PropEvents(node.props) + (ForestEvents(node.children) + tail));
    ScanChildProps(inside, node.props, ForestEvents(node.children) + tail);
    FoldChildMeaning(ReservedChild(true, None), node.props);
    var full := inside.(child := Some(ReservedChild(Enabled(node), Get(node, PROP_REG))));
    ScanOffForest(full, node.children, tail);
    assert tail[1..] == rest && full.stack[..2] == s.stack;
  }

  lemma {:induction false} ScanChildren(s: Scan, nodes: seq<Node>, rest: seq<Event>)
    requires s.stack == [[], RESERVED_MEMORY] && s.child.None?
    requires forall n <- nodes :: UniqueProps(n.props)
    ensures
      var found := ForestReserved(nodes, OrElse(s.addressCells, s.rootAddressCells), OrElse(s.sizeCells, s.rootSizeCells));
      ScanEvents(s, ForestEvents(nodes) + rest) ==
      if found.Ok? then ScanEvents(s.(ranges := s.ranges + found.value), rest) else InvalidData
    decreases |nodes|
  {
    hide ChildReserved, Events, ScanEvents, IsReservedMemory;
    var a, z := OrElse(s.addressCells, s.rootAddressCells), OrElse(s.sizeCells, s.rootSizeCells);
    if nodes == [] {
      assert ForestEvents(nodes) + rest == rest && s.ranges + [] == s.ranges;
    } else {
      assert ForestEvents(nodes) + rest == Events(nodes[0]) + (ForestEvents(nodes[1..]) + rest);
      ScanChild(s, nodes[0], ForestEvents(nodes[1..]) + rest);
      var first := ChildReserved(nodes[0], a, z);
      if first.Ok? {
        ScanChildren(s.(ranges := s.ranges + first.value), nodes[1..], rest);
        var more := ForestReserved(nodes[1..], a, z);
        assert more.Ok? ==> s.ranges + (first.value + more.value) == s.ranges + first.value + more.value;
      }
    }
  }

  /// The two cell counts, as properties overwrite them one after the other.
  function FoldCells(props: seq<Property>, addressCells: Option<u32>, sizeCells: Option<u32>): Result<(Option<u32>, Option<u32>)> {
    if props == [] then Ok((addressCells, sizeCells))
    else if props[0].name == PROP_ADDRESS_CELLS then
      var cells :- PropertyU32(props[0].value);
      FoldCells(props[1..], Some(cells), sizeCells)
    else if props[0].name == PROP_SIZE_CELLS then
      var cells :- PropertyU32(props[0].value);
      FoldCells(props[1..], addressCells, Some(cells))
    else FoldCells(props[1..], addressCells, sizeCells)
  }

  function GetCells(props: seq<Property>, name: bytes, default: Option<u32>): Result<Option<u32>> {
    match GetProp(props, name)
    case None => Ok(default)
    case Some(value) =>
      var cells :- PropertyU32(value);
      Ok(Some(cells))
  }

  lemma {:induction false} FoldCellsMeaning(props: seq<Property>, addressCells: Option<u32>, sizeCells: Option<u32>)
    requires UniqueProps(props)
    ensures
      var a, z := GetCells(props, PROP_ADDRESS_CELLS, addressCells), GetCells(props, PROP_SIZE_CELLS, sizeCells);
      FoldCells(props, addressCells, sizeCells) == if a.Ok? && z.Ok? then Ok((a.value, z.value)) else InvalidData
  {
    assert |PROP_ADDRESS_CELLS| != |PROP_SIZE_CELLS|;
    if props != [] {
      UniqueTail(props);
      if props[0].name == PROP_ADDRESS_CELLS {
        var cells := PropertyU32(props[0].value);
        if cells.Ok? {
          FoldCellsMeaning(props[1..], Some(cells.value), sizeCells);
        }
      } else if props[0].name == PROP_SIZE_CELLS {
        var cells := PropertyU32(props[0].value);
        if cells.Ok? {
          FoldCellsMeaning(props[1..], addressCells, Some(cells.value));
        }
      } else {
        FoldCellsMeaning(props[1..], addressCells, sizeCells);
      }
    }
  }

  lemma {:induction false} ScanReservedProps(s: Scan, props: seq<Property>, rest: seq<Event>)
    requires IsReservedMemory(s.stack)
    ensures
      var cells := FoldCells(props, s.addressCells, s.sizeCells);
      ScanEvents(s, PropEvents(props) + rest) ==
      if cells.Ok? then ScanEvents(s.(addressCells := cells.value.0, sizeCells := cells.value.1), rest) else InvalidData
    decreases |props|
  {
    if props == [] {
      assert PropEvents(props) + rest == rest;
    } else {
      assert (PropEvents(props) + rest)[1..] == PropEvents(props[1..]) + rest;
      var s' := ScanAttr(s, props[0].name, props[0].value);
      if s'.Ok? {
        ScanReservedProps(s'.value, props[1..], rest);
      }
    }
  }

  lemma {:induction false} ScanRootProps(s: Scan, props: seq<Property>, rest: seq<Event>)
    requires IsRoot(s.stack)
    ensures
      var cells := FoldCells(props, Some(s.rootAddressCells), Some(s.rootSizeCells));
      && (cells.Ok? ==> cells.value.0.Some? && cells.value.1.Some?)
      && ScanEvents(s, PropEvents(props) + rest) ==
         if cells.Ok?
         then ScanEvents(s.(rootAddressCells := cells.value.0.value, rootSizeCells := cells.value.1.value), rest)
         else InvalidData
    decreases |props|
  {
    if props == [] {
      assert PropEvents(props) + rest == rest;
    } else {
      assert (PropEvents(props) + rest)[1..] == PropEvents(props[1..]) + rest;
      var s' := ScanAttr(s, props[0].name, props[0].value);
      if s'.Ok? {
        ScanRootProps(s'.value, props[1..], rest);
      }
    }
  }

  /// /reserved-memory itself.
  lemma ScanReserved(s: Scan, node: Node, room: nat, rest: seq<Event>)
    requires s.stack == [[]] && s.child.None? && s.addressCells.None? && s.sizeCells.None?
    requires node.name == RESERVED_MEMORY && WfNode(node, room)
    ensures
      var a, z := NodeCells(node, PROP_ADDRESS_CELLS, s.rootAddressCells), NodeCells(node, PROP_SIZE_CELLS, s.rootSizeCells);
      var found := if a.Ok? && z.Ok? then ForestReserved(node.children, a.value, z.value) else InvalidData;
      && (found.InvalidData? ==> ScanEvents(s, Events(node) + rest) == InvalidData)
      && (found.Ok? ==>
            exists a', z' ::
              ScanEvents(s, Events(node) + rest) ==
              ScanEvents(s.(addressCells := a', sizeCells := z', ranges := s.ranges + found.value), rest))
  {
    hide ForestReserved, PropertyU32;
    var inside := ScanOpen(s, node.name);
    var tail := [Close] + rest;
    assert Events(node) + rest == [Open(node.name)] + (PropEvents(node.props) + (ForestEvents(node.children) + tail));
    ScanReservedProps(inside, node.props, ForestEvents(node.children) + tail);
    FoldCellsMeaning(node.props, None, None);
    var cells := FoldCells(node.props, None, None);
    if cells.Ok? {
      var full := inside.(addressCells := cells.value.0, sizeCells := cells.value.1);
      WfForestProps(node.children, room - 1);
      ScanChildren(full, node.children, tail);
      assert tail[1..] == rest && full.stack[..1] == s.stack;
    }
  }

  lemma {:induction false} WfForestProps(nodes: seq<Node>, room: nat)
    requires WfForest(nodes, room)
    ensures forall n <- nodes :: UniqueProps(n.props)
    decreases |nodes|
  {
    if nodes != [] {
      WfForestProps(nodes[1..], room);
      assert forall n <- nodes :: n == nodes[0] || n in nodes[1..];
    }
  }

  /// Children of the root, none of which is /reserved-memory.
  lemma {:induction false} ScanOthers(s: Scan, nodes: seq<Node>, rest: seq<Event>)
    requires s.stack == [[]] && forall n <- nodes :: n.name != RESERVED_MEMORY
    ensures ScanEvents(s, ForestEvents(nodes) + rest) == ScanEvents(s, rest)
    decreases |nodes|
  {
    if nodes == [] {
      assert ForestEvents(nodes) + rest == rest;
    } else {
      assert ForestEvents(nodes) + rest == Events(nodes[0]) + (ForestEvents(nodes[1..]) + rest);
      ScanOffNode(s, nodes[0], ForestEvents(nodes[1..]) + rest);
      ScanOthers(s, nodes[1..], rest);
    }
  }

  /// The one-pass scanner and the tree reading agree on every accepted tree, errors included.
  lemma ScanIsTreeReading(root: Node)
    requires WfTree(root)
    ensures ScanEvents(SCAN_START, Events(root)) == TreeReserved(root)
  {
    hide ForestReserved, PropertyU32;
    var s := ScanOpen(SCAN_START, []);
    var kids, tail := ForestEvents(root.children), [Close];
    assert Events(root) == [Open([])] + (PropEvents(root.props) + (kids + tail));
    ScanRootProps(s, root.props, kids + tail);
    FoldCellsMeaning(root.props, Some(2), Some(1));
    var cells := FoldCells(root.props, Some(2), Some(1));
    if cells.Ok? {
      var full := s.(rootAddressCells := cells.value.0.value, rootSizeCells := cells.value.1.value);
      ScanRootChildren(full, root, tail);
      assert tail[1..] == [];
    }
  }

  /// Only one child of the root is /reserved-memory.
  lemma AroundReserved(root: Node, i: nat)
    requires WfTree(root) && ChildIndex(root.children, RESERVED_MEMORY) == Some(i)
    ensures WfNode(root.children[i], MAX_DEPTH - 1)
    ensures forall n <- root.children[..i] :: n.name != RESERVED_MEMORY
    ensures forall n <- root.children[i + 1..] :: n.name != RESERVED_MEMORY
  {
    WfForestAt(root.children, i, MAX_DEPTH - 1);
  }

  lemma ScanRootChildren(s: Scan, root: Node, tail: seq<Event>)
    requires WfTree(root) && s.stack == [[]] && s.child.None? && s.addressCells.None? && s.sizeCells.None?
    requires s.ranges == [] && tail == [Close]
    ensures
      ScanEvents(s, ForestEvents(root.children) + tail) ==
      match Child(root, RESERVED_MEMORY)
      case None => Ok([])
      case Some(reserved) =>
        var addressCells :- NodeCells(reserved, PROP_ADDRESS_CELLS, s.rootAddressCells);
        var sizeCells :- NodeCells(reserved, PROP_SIZE_CELLS, s.rootSizeCells);
        ForestReserved(reserved.children, addressCells, sizeCells)
  {
    hide ForestReserved, PropertyU32, NodeCells, Events, WfNode;
    assert tail[1..] == [];
    var nodes, i := root.children, ChildIndex(root.children, RESERVED_MEMORY);
    if i.None? {
      ScanOthers(s, nodes, tail);
    } else {
      var before, node, after := nodes[..i.value], nodes[i.value], nodes[i.value + 1..];
      AroundReserved(root, i.value);
      ForestEventsAround(nodes, i.value);
      assert ForestEvents(nodes) + tail == ForestEvents(before) + (Events(node) + (ForestEvents(after) + tail));
      ScanOthers(s, before, Events(node) + (ForestEvents(after) + tail));
      assert forall r: seq<Range> :: [] + r == r;
      ScanReserved(s, node, MAX_DEPTH - 1, ForestEvents(after) + tail);
      forall a', z', ranges ensures
        ScanEvents(s.(addressCells := a', sizeCells := z', ranges := ranges), ForestEvents(after) + tail) == Ok(ranges)
      {
        ScanOthers(s.(addressCells := a', sizeCells := z', ranges := ranges), after, tail);
      }
    }
  }

  // The whole blob.

  function ReservedRanges(dtb: bytes): Result<seq<Range>> {
    var ranges :- ReserveMapRanges(dtb);
    var structure :- StructBlock(dtb);
    var strings :- StringsBlock(dtb);
    var found :- ScanRest(structure, strings, 0, SCAN_START);
    Ok(ranges + found)
  }

  /// `reserved_ranges`.
  method ReadReservedRanges(dtb: bytes) returns (r: Result<seq<Range>>)
    ensures r == ReservedRanges(dtb)
  {
    hide ScanRest, MapRanges, ParseHeader;
    var header := ParseHeader(dtb);
    if header.InvalidData? {
      return InvalidData;
    }
    var ranges := ReadReserveMapRanges(dtb);
    if ranges.InvalidData? {
      return InvalidData;
    }
    var found := ReadNodeRanges(StructBlock(dtb).value, StringsBlock(dtb).value);
    if found.InvalidData? {
      return InvalidData;
    }
    return Ok(ranges.value + found.value);
  }

  /// For every blob that parses, the one-pass reading is the map plus the tree reading.
  lemma ReservedRangesAreTree(dtb: bytes)
    requires ContractTree(dtb).Ok?
    ensures ReservedRanges(dtb) ==
      var ranges :- ReserveMapRanges(dtb);
      var found :- TreeReserved(ContractTree(dtb).value);
      Ok(ranges + found)
  {
    var t, structure, strings := ContractTree(dtb).value, StructBlock(dtb).value, StringsBlock(dtb).value;
    TreeOfExact(structure, strings, t);
    ScanIsTreeReading(t);
  }

  lemma {:induction false} ScanFindsRanges(s: Scan, evs: seq<Event>)
    requires forall r <- s.ranges :: r.start < r.end < U64_LIMIT
    ensures ScanEvents(s, evs).Ok? ==> forall r <- ScanEvents(s, evs).value :: r.start < r.end < U64_LIMIT
    decreases |evs|
  {
    hide DecodeReg, PropertyU32, StatusEnabled, IsReservedMemoryChild, IsReservedMemory, IsRoot;
    if evs != [] {
      match evs[0]
      case Open(name) => ScanFindsRanges(ScanOpen(s, name), evs[1..]);
      case Close =>
        if ScanClose(s).Ok? {
          ScanFindsRanges(ScanClose(s).value, evs[1..]);
        }
      case Attr(name, value) =>
        if ScanAttr(s, name, value).Ok? {
          ScanFindsRanges(ScanAttr(s, name, value).value, evs[1..]);
        }
    }
  }

  /// Every reserved range is a non-empty range of 64-bit addresses.
  lemma ReservedRangesAreRanges(dtb: bytes)
    requires ReservedRanges(dtb).Ok?
    ensures forall r <- ReservedRanges(dtb).value :: r.start < r.end < U64_LIMIT
  {
    hide ScanEvents, MapRanges, EventsFrom;
    ScanFindsRanges(SCAN_START, EventsFrom(StructBlock(dtb).value, StringsBlock(dtb).value, 0).value);
  }
}
