/// The devicetree blob of `src/kexec.rs`, `mod fdt`: header, reservation map,
/// structure and strings blocks, the parser `contract_tree` and the printer
/// `build_contract_tree`.
module Dtb {
  import opened Bytes
  import opened Tokens
  import opened Tree

  const FDT_MAGIC: u32 := 0xd00dfeed
  const HEADER_SIZE: nat := 40

  datatype Header = Header(
    totalsize: u32,
    offDtStruct: u32,
    offDtStrings: u32,
    offMemRsvmap: u32,
    version: u32,
    lastCompVersion: u32,
    bootCpuidPhys: u32,
    sizeDtStrings: u32,
    sizeDtStruct: u32)

  function CellAt(dtb: bytes, i: nat): u32
    requires 4 * i + 4 <= |dtb|
  {
    De32(dtb[4 * i..4 * i + 4])
  }

  /// `Header::parse`.
  function ParseHeader(dtb: bytes): (r: Result<Header>)
    ensures r.Ok? ==>
      var h := r.value;
      && HEADER_SIZE <= h.totalsize <= |dtb|
      && h.offDtStruct + h.sizeDtStruct <= h.totalsize
      && h.offDtStrings + h.sizeDtStrings <= h.totalsize
      && h.offMemRsvmap < h.totalsize
  {
    if |dtb| < HEADER_SIZE || CellAt(dtb, 0) != FDT_MAGIC then InvalidData
    else
      var h := Header(CellAt(dtb, 1), CellAt(dtb, 2), CellAt(dtb, 3), CellAt(dtb, 4), CellAt(dtb, 5),
                      CellAt(dtb, 6), CellAt(dtb, 7), CellAt(dtb, 8), CellAt(dtb, 9));
      if !(HEADER_SIZE <= h.totalsize <= |dtb|) then InvalidData
      else if h.offDtStruct + h.sizeDtStruct > h.totalsize then InvalidData
      else if h.offDtStrings + h.sizeDtStrings > h.totalsize then InvalidData
      else if h.offMemRsvmap >= h.totalsize then InvalidData
      else Ok(h)
  }

  function StructBlock(dtb: bytes): Result<bytes> {
    var h :- ParseHeader(dtb);
    Ok(dtb[h.offDtStruct..h.offDtStruct + h.sizeDtStruct])
  }

  function StringsBlock(dtb: bytes): Result<bytes> {
    var h :- ParseHeader(dtb);
    Ok(dtb[h.offDtStrings..h.offDtStrings + h.sizeDtStrings])
  }

  // The memory reservation map.

  datatype Range = Range(start: nat, end: nat)

  /// The cursor just after the terminating entry.
  function MapEnd(dtb: bytes, totalsize: nat, cursor: nat): (r: Result<nat>)
    requires totalsize <= |dtb|
    ensures r.Ok? ==> cursor + 16 <= r.value <= totalsize
    decreases totalsize - cursor
  {
    if cursor + 16 > totalsize then InvalidData
    else if De64(dtb[cursor..cursor + 8]) == 0 && De64(dtb[cursor + 8..cursor + 16]) == 0 then Ok(cursor + 16)
    else MapEnd(dtb, totalsize, cursor + 16)
  }

  function ReserveMap(dtb: bytes): Result<bytes> {
    var h :- ParseHeader(dtb);
    var end :- MapEnd(dtb, h.totalsize, h.offMemRsvmap);
    Ok(dtb[h.offMemRsvmap..end])
  }

  /// The reserved ranges of the map from `cursor` on.
  function MapRanges(dtb: bytes, totalsize: nat, cursor: nat): (ranges: Result<seq<Range>>)
    requires totalsize <= |dtb|
    ensures ranges.Ok? ==> forall r <- ranges.value :: r.start < r.end < U64_LIMIT
    decreases totalsize - cursor
  {
    if cursor + 16 > totalsize then InvalidData
    else
      var address, size := De64(dtb[cursor..cursor + 8]), De64(dtb[cursor + 8..cursor + 16]);
      if address == 0 && size == 0 then Ok([])
      else if size == 0 then MapRanges(dtb, totalsize, cursor + 16)
      else if address + size >= U64_LIMIT then InvalidData
      else
        var rest :- MapRanges(dtb, totalsize, cursor + 16);
        Ok([Range(address, address + size)] + rest)
  }

  function ReserveMapRanges(dtb: bytes): Result<seq<Range>> {
    var h :- ParseHeader(dtb);
    MapRanges(dtb, h.totalsize, h.offMemRsvmap)
  }

  /// `reserve_map`.
  method ReadReserveMap(dtb: bytes) returns (r: Result<bytes>)
    ensures r == ReserveMap(dtb)
  {
    hide Bytes.De64, ParseHeader;
    var parsed := ParseHeader(dtb);
    if parsed.InvalidData? {
      return InvalidData;
    }
    var header := parsed.value;
    var cursor: nat := header.offMemRsvmap;
    var reserveMap: bytes := [];
    while true
      invariant header.offMemRsvmap <= cursor <= |dtb|
      invariant reserveMap == dtb[header.offMemRsvmap..cursor]
      invariant ReserveMap(dtb) ==
        (var end := MapEnd(dtb, header.totalsize, cursor);
         if end.Ok? then Ok(dtb[header.offMemRsvmap..end.value]) else InvalidData)
      decreases |dtb| - cursor
    {
      if cursor + 16 > header.totalsize {
        return InvalidData;
      }
      var entry := dtb[cursor..cursor + 16];
      assert dtb[header.offMemRsvmap..cursor] + entry == dtb[header.offMemRsvmap..cursor + 16];
      reserveMap := reserveMap + entry;
      var address, size := De64(entry[0..8]), De64(entry[8..16]);
      SubSlice(dtb, cursor, cursor + 16, 0, 8);
      SubSlice(dtb, cursor, cursor + 16, 8, 16);
      cursor := cursor + 16;
      if address == 0 && size == 0 {
        return Ok(reserveMap);
      }
    }
  }

  /// Ranges already read, put before those still to be read.
  function JoinRanges(ranges: seq<Range>, rest: Result<seq<Range>>): Result<seq<Range>> {
    if rest.Ok? then Ok(ranges + rest.value) else InvalidData
  }

  lemma JoinTwice(ranges: seq<Range>, range: Range, rest: Result<seq<Range>>)
    ensures JoinRanges(ranges, JoinRanges([range], rest)) == JoinRanges(ranges + [range], rest)
    ensures JoinRanges([], rest) == rest && JoinRanges(ranges, Ok([])) == Ok(ranges)
    ensures JoinRanges(ranges, InvalidData) == InvalidData
  {
    EmptyConcat(ranges);
    if rest.Ok? {
      Assoc(ranges, [range], rest.value);
      EmptyConcat(rest.value);
    }
  }

  lemma MapRangesStep(dtb: bytes, totalsize: nat, cursor: nat)
    requires cursor + 16 <= totalsize <= |dtb|
    ensures
      var address, size := De64(dtb[cursor..cursor + 8]), De64(dtb[cursor + 8..cursor + 16]);
      var rest := MapRanges(dtb, totalsize, cursor + 16);
      MapRanges(dtb, totalsize, cursor) ==
      if address == 0 && size == 0 then Ok([])
      else if size == 0 then rest
      else if address + size >= U64_LIMIT then InvalidData
      else JoinRanges([Range(address, address + size)], rest)
  {
    hide Bytes.De64;
  }

  /// `reserve_map_ranges`.
  method ReadReserveMapRanges(dtb: bytes) returns (r: Result<seq<Range>>)
    ensures r == ReserveMapRanges(dtb)
  {
    hide Bytes.De64, ParseHeader;
    var parsed := ParseHeader(dtb);
    if parsed.InvalidData? {
      return InvalidData;
    }
    var header := parsed.value;
    var cursor: nat := header.offMemRsvmap;
    var ranges: seq<Range> := [];
    JoinTwice(ranges, Range(0, 0), MapRanges(dtb, header.totalsize, cursor));
    hide ReserveMapRanges, JoinRanges;
    while true
      invariant ReserveMapRanges(dtb) == JoinRanges(ranges, MapRanges(dtb, header.totalsize, cursor))
      decreases |dtb| - cursor
    {
      ghost var rest := MapRanges(dtb, header.totalsize, cursor);
      JoinTwice(ranges, Range(0, 0), rest);
      if cursor + 16 > header.totalsize {
        return InvalidData;
      }
      hide MapRanges;
      MapRangesStep(dtb, header.totalsize, cursor);
      var address, size := De64(dtb[cursor..cursor + 8]), De64(dtb[cursor + 8..cursor + 16]);
      cursor := cursor + 16;
      if address == 0 && size == 0 {
        return Ok(ranges);
      }
      if size == 0 {
        continue;
      }
      if address + size >= U64_LIMIT {
        return InvalidData;
      }
      var range := Range(address, address + size);
      JoinTwice(ranges, range, MapRanges(dtb, header.totalsize, cursor));
      ranges := ranges + [range];
    }
  }

  /// A terminated map reads the same wherever it is copied to.
  lemma {:induction false} MapMoves(dtb: bytes, total: nat, cursor: nat, dtb': bytes, total': nat, cursor': nat)
    requires total <= |dtb| && total' <= |dtb'| && MapEnd(dtb, total, cursor).Ok?
    requires
      var n := MapEnd(dtb, total, cursor).value - cursor;
      cursor' + n <= total' && dtb'[cursor'..cursor' + n] == dtb[cursor..cursor + n]
    ensures
      var n := MapEnd(dtb, total, cursor).value - cursor;
      MapEnd(dtb', total', cursor') == Ok(cursor' + n)
    ensures MapRanges(dtb', total', cursor') == MapRanges(dtb, total, cursor)
    decreases total - cursor
  {
    hide Bytes.De64;
    var n := MapEnd(dtb, total, cursor).value - cursor;
    SubSlice(dtb, cursor, cursor + n, 0, 8);
    SubSlice(dtb, cursor, cursor + n, 8, 16);
    SubSlice(dtb, cursor, cursor + n, 16, n);
    SubSlice(dtb', cursor', cursor' + n, 0, 8);
    SubSlice(dtb', cursor', cursor' + n, 8, 16);
    SubSlice(dtb', cursor', cursor' + n, 16, n);
    if n > 16 {
      MapMoves(dtb, total, cursor + 16, dtb', total', cursor' + 16);
    }
  }

  // Interned property names.

  /// The offset at which `name` stands among the strings from `cursor` on.
  function FindString(strings: bytes, name: bytes, cursor: nat): (r: Option<nat>)
    decreases |strings| - cursor
  {
    if cursor >= |strings| then None
    else match FindNul(strings, cursor)
      case None => None
      case Some(end) => if strings[cursor..end] == name then Some(cursor) else FindString(strings, name, end + 1)
  }

  /// `ensure_string`: the strings block afterwards, and the offset of `name` in it.
  function EnsureString(strings: bytes, name: bytes): Result<(bytes, u32)> {
    match FindString(strings, name, 0)
    case Some(offset) => if offset < U32_LIMIT then Ok((strings, offset)) else InvalidData
    case None => if |strings| < U32_LIMIT then Ok((strings + name + [0], |strings|)) else InvalidData
  }

  method InternString(strings: bytes, name: bytes) returns (r: Result<(bytes, u32)>)
    ensures r == EnsureString(strings, name)
  {
    var cursor := 0;
    while cursor < |strings|
      invariant FindString(strings, name, 0) == FindString(strings, name, cursor)
    {
      var nul := FindNul(strings, cursor);
      if nul.None? {
        break;
      }
      var end := nul.value;
      if strings[cursor..end] == name {
        return if cursor < U32_LIMIT then Ok((strings, cursor)) else InvalidData;
      }
      cursor := end + 1;
    }
    var offset := |strings|;
    return if offset < U32_LIMIT then Ok((strings + name + [0], offset)) else InvalidData;
  }

  lemma {:induction false} FindStringMeaning(strings: bytes, name: bytes, cursor: nat)
    requires FindString(strings, name, cursor).Some?
    ensures StringAt(strings, FindString(strings, name, cursor).value) == Some(name)
    decreases |strings| - cursor
  {
    var end := FindNul(strings, cursor).value;
    if strings[cursor..end] != name {
      FindStringMeaning(strings, name, end + 1);
    }
  }

  /// Interning only ever appends, and the offset it returns names the string.
  lemma EnsureStringMeaning(strings: bytes, name: bytes)
    requires NulFree(name) && EnsureString(strings, name).Ok?
    ensures
      var (strings', offset) := EnsureString(strings, name).value;
      strings <= strings' && StringAt(strings', offset) == Some(name)
  {
    if FindString(strings, name, 0).Some? {
      FindStringMeaning(strings, name, 0);
    } else {
      StringAtIs(strings, name, []);
      assert strings + name + [0] + [] == strings + name + [0];
    }
  }

  // Printing a tree.

  datatype Printed = Printed(tokens: seq<Token>, strings: bytes)

  function WriteProps(props: seq<Property>, strings: bytes): Result<Printed> {
    if props == [] then Ok(Printed([], strings))
    else
      var (strings', offset) :- EnsureString(strings, props[0].name);
      var rest :- WriteProps(props[1..], strings');
      Ok(Printed([NewProp(offset, props[0].value)] + rest.tokens, rest.strings))
  }

  function WriteNode(node: Node, strings: bytes): Result<Printed>
    decreases node, 1
  {
    var props :- WriteProps(node.props, strings);
    var children :- WriteForest(node.children, props.strings);
    Ok(Printed([NewBegin(node.name)] + props.tokens + children.tokens + [End], children.strings))
  }

  function WriteForest(nodes: seq<Node>, strings: bytes): Result<Printed>
    decreases nodes, 0
  {
    if nodes == [] then Ok(Printed([], strings))
    else
      var first :- WriteNode(nodes[0], strings);
      var rest :- WriteForest(nodes[1..], first.strings);
      Ok(Printed(first.tokens + rest.tokens, rest.strings))
  }

  /// Names without NUL and values that fit a 32-bit length.
  ghost predicate PrintableProps(props: seq<Property>) {
    forall p <- props :: NulFree(p.name) && |p.value| < U32_LIMIT
  }

  ghost predicate Printable(node: Node)
    decreases node, 1
  {
    NulFree(node.name) && PrintableProps(node.props) && PrintableForest(node.children)
  }

  ghost predicate PrintableForest(nodes: seq<Node>)
    decreases nodes, 0
  {
    nodes == [] || (Printable(nodes[0]) && PrintableForest(nodes[1..]))
  }

  lemma {:induction false} WritePropsMeaning(props: seq<Property>, strings: bytes)
    requires PrintableProps(props) && WriteProps(props, strings).Ok?
    ensures
      var out := WriteProps(props, strings).value;
      && strings <= out.strings && AllWf(out.tokens)
      && Resolve(out.strings, out.tokens) == Some(PropEvents(props))
  {
    if props != [] {
      var p := props[0];
      EnsureStringMeaning(strings, p.name);
      var (strings', offset) := EnsureString(strings, p.name).value;
      WritePropsMeaning(props[1..], strings');
      var rest := WriteProps(props[1..], strings').value;
      assert rest.strings == strings' + rest.strings[|strings'|..];
      StringAtGrows(strings', rest.strings[|strings'|..], offset);
      var ts := [NewProp(offset, p.value)] + rest.tokens;
      assert ts[1..] == rest.tokens;
    }
  }

  lemma ResolveUnder(strings: bytes, strings': bytes, ts: seq<Token>)
    requires strings <= strings' && Fin !in ts && Resolve(strings, ts).Some?
    ensures Resolve(strings', ts) == Resolve(strings, ts)
  {
    ResolveGrows(strings, strings'[|strings|..], ts);
    assert strings' == strings + strings'[|strings|..];
  }

  /// What is printed resolves to the events of the tree; the strings block only grows.
  lemma {:induction false} WriteNodeMeaning(node: Node, strings: bytes)
    requires Printable(node) && WriteNode(node, strings).Ok?
    ensures
      var out := WriteNode(node, strings).value;
      && strings <= out.strings && AllWf(out.tokens)
      && Resolve(out.strings, out.tokens) == Some(Events(node))
    decreases node, 1
  {
    WritePropsMeaning(node.props, strings);
    var props := WriteProps(node.props, strings).value;
    WriteForestMeaning(node.children, props.strings);
    var children := WriteForest(node.children, props.strings).value;
    var s := children.strings;
    ResolveUnder(props.strings, s, props.tokens);
    ResolveOne(s, NewBegin(node.name));
    ResolveOne(s, End);
    ResolveAppend(s, [NewBegin(node.name)], props.tokens);
    ResolveAppend(s, [NewBegin(node.name)] + props.tokens, children.tokens);
    ResolveAppend(s, [NewBegin(node.name)] + props.tokens + children.tokens, [End]);
  }

  lemma {:induction false} WriteForestMeaning(nodes: seq<Node>, strings: bytes)
    requires PrintableForest(nodes) && WriteForest(nodes, strings).Ok?
    ensures
      var out := WriteForest(nodes, strings).value;
      && strings <= out.strings && AllWf(out.tokens)
      && Resolve(out.strings, out.tokens) == Some(ForestEvents(nodes))
    decreases nodes, 0
  {
    if nodes != [] {
      WriteNodeMeaning(nodes[0], strings);
      var first := WriteNode(nodes[0], strings).value;
      WriteForestMeaning(nodes[1..], first.strings);
      var rest := WriteForest(nodes[1..], first.strings).value;
      ResolveUnder(first.strings, rest.strings, first.tokens);
      ResolveAppend(rest.strings, first.tokens, rest.tokens);
    }
  }
}
