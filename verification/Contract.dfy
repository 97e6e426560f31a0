/// `contract_tree` and `build_contract_tree` of `src/kexec.rs`: parsing a blob into an
/// owned tree, printing it back, and the round trip between the two.
module Contract {
  import opened Bytes
  import opened Tokens
  import opened Tree
  import opened Dtb

  /// What is left to do once the parser stands at `cursor` with these open nodes.
  function ParseRest(structure: bytes, strings: bytes, cursor: nat, stack: seq<Node>, root: Option<Node>): Result<Node> {
    match EventsFrom(structure, strings, cursor)
    case None => InvalidData
    case Some(evs) => Parse(stack, root, evs)
  }

  /// The tree that a structure block and a strings block denote.
  function TreeOf(structure: bytes, strings: bytes): Result<Node> {
    ParseRest(structure, strings, 0, [], None)
  }

  function ContractTree(dtb: bytes): Result<Node> {
    var structure :- StructBlock(dtb);
    var strings :- StringsBlock(dtb);
    TreeOf(structure, strings)
  }

  /// `contract_tree`.
  method ReadContractTree(dtb: bytes) returns (r: Result<Node>)
    ensures r == ContractTree(dtb)
  {
    hide ParseHeader, TokenAt, StringAt, EventsFrom;
    var header := ParseHeader(dtb);
    if header.InvalidData? {
      return InvalidData;
    }
    var structure := StructBlock(dtb).value;
    var strings := StringsBlock(dtb).value;
    var stack: seq<Node> := [];
    var root: Option<Node> := None;
    var cursor := 0;
    while true
      invariant ContractTree(dtb) == ParseRest(structure, strings, cursor, stack, root)
      invariant |stack| <= MAX_DEPTH
      decreases |structure| - cursor
    {
      var read := TokenAt(structure, cursor);
      EventsStep(structure, strings, cursor);
      if read.None? {
        return InvalidData;
      }
      var (token, next) := read.value;
      assert forall e: Event, evs: seq<Event> :: ([e] + evs)[1..] == evs;
      assert forall evs: seq<Event> :: [] + evs == evs;
      cursor := next;
      match token {
        case Begin(name, _) =>
          if stack == [] && (root.Some? || name != []) {
            return InvalidData;
          }
          if |stack| >= MAX_DEPTH {
            return InvalidData;
          }
          stack := stack + [NewNode(name)];
        case End =>
          if stack == [] {
            return InvalidData;
          }
          var node := stack[|stack| - 1];
          if |stack| >= 2 {
            var parent := stack[|stack| - 2];
            if Child(parent, node.name).Some? {
              return InvalidData;
            }
            stack := stack[..|stack| - 2] + [parent.(children := parent.children + [node])];
          } else {
            stack := [];
            root := Some(node);
          }
        case Prop(nameoff, value, _) =>
          var name := StringAt(strings, nameoff);
          if name.None? {
            return InvalidData;
          }
          if stack == [] {
            return InvalidData;
          }
          var node := stack[|stack| - 1];
          if Get(node, name.value).Some? || node.children != [] {
            return InvalidData;
          }
          stack := stack[|stack| - 1 := node.(props := node.props + [Property(name.value, value)])];
        case Nop =>
        case Fin =>
          return if stack == [] && root.Some? then Ok(root.value) else InvalidData;
      }
    }
  }

  /// A pair of blocks denotes `t` exactly when its tokens resolve to the events of `t`.
  lemma TreeOfExact(structure: bytes, strings: bytes, t: Node)
    ensures TreeOf(structure, strings) == Ok(t) <==>
      && WfTree(t)
      && TokensFrom(structure, 0).Some?
      && Resolve(strings, TokensFrom(structure, 0).value) == Some(Events(t))
  {
    var ts := TokensFrom(structure, 0);
    if ts.Some? {
      var evs := Resolve(strings, ts.value);
      if evs.Some? {
        ParseExact(evs.value, t);
      }
    }
  }

  lemma ParsedWf(dtb: bytes)
    requires ContractTree(dtb).Ok?
    ensures WfTree(ContractTree(dtb).value)
  {
    TreeOfExact(StructBlock(dtb).value, StringsBlock(dtb).value, ContractTree(dtb).value);
  }

  /// Encoded tokens that resolve to the events of a well-formed tree denote that tree.
  lemma EncodedDenotes(tokens: seq<Token>, strings: bytes, t: Node)
    requires AllWf(tokens) && WfTree(t) && Resolve(strings, tokens) == Some(Events(t))
    ensures TreeOf(EncAll(tokens) + Enc(Fin), strings) == Ok(t)
  {
    hide AllWf, Enc, EncAll, WfTree, Resolve, Events;
    EncodedIsTokens([], tokens, []);
    assert [] + EncAll(tokens) + Enc(Fin) + [] == EncAll(tokens) + Enc(Fin);
    TreeOfExact(EncAll(tokens) + Enc(Fin), strings, t);
  }

  // Everything the parser returns can be printed.

  ghost predicate PrintableEvent(e: Event) {
    match e
    case Open(name) => NulFree(name)
    case Close => true
    case Attr(name, value) => NulFree(name) && |value| < U32_LIMIT
  }

  ghost predicate PrintableEvents(evs: seq<Event>) {
    forall e <- evs :: PrintableEvent(e)
  }

  lemma {:induction false} ResolvedPrintable(strings: bytes, ts: seq<Token>)
    requires AllWf(ts) && Resolve(strings, ts).Some?
    ensures PrintableEvents(Resolve(strings, ts).value)
  {
    if ts != [] {
      ResolvedPrintable(strings, ts[1..]);
      assert Wf(ts[0]);
      if ts[0].Prop? {
        assert NulFree(StringAt(strings, ts[0].nameoff).value);
      }
    }
  }

  lemma {:induction false} PropEventsPrintable(props: seq<Property>)
    ensures PrintableEvents(PropEvents(props)) <==> PrintableProps(props)
  {
    if props != [] {
      PropEventsPrintable(props[1..]);
      var head := Attr(props[0].name, props[0].value);
      assert PropEvents(props) == [head] + PropEvents(props[1..]);
      assert forall e :: e in PropEvents(props) <==> e == head || e in PropEvents(props[1..]);
      assert forall p :: p in props <==> p == props[0] || p in props[1..];
      assert PrintableEvents(PropEvents(props)) <==> PrintableEvent(head) && PrintableEvents(PropEvents(props[1..]));
    }
  }

  lemma {:induction false} EventsPrintable(node: Node)
    ensures PrintableEvents(Events(node)) <==> Printable(node)
    decreases node, 1
  {
    PropEventsPrintable(node.props);
    ForestEventsPrintable(node.children);
    var p, f := PropEvents(node.props), ForestEvents(node.children);
    assert forall e :: e in Events(node) <==> e == Open(node.name) || e in p || e in f || e == Close;
    assert PrintableEvent(Open(node.name)) <==> NulFree(node.name);
  }

  lemma {:induction false} ForestEventsPrintable(nodes: seq<Node>)
    ensures PrintableEvents(ForestEvents(nodes)) <==> PrintableForest(nodes)
    decreases nodes, 0
  {
    if nodes != [] {
      EventsPrintable(nodes[0]);
      ForestEventsPrintable(nodes[1..]);
      var x, y := Events(nodes[0]), ForestEvents(nodes[1..]);
      assert forall e :: e in ForestEvents(nodes) <==> e in x || e in y;
    }
  }

  lemma ParsedPrintable(structure: bytes, strings: bytes)
    requires TreeOf(structure, strings).Ok?
    ensures Printable(TreeOf(structure, strings).value)
  {
    var t := TreeOf(structure, strings).value;
    TreeOfExact(structure, strings, t);
    TokensAreEncoded(structure, 0);
    ResolvedPrintable(strings, TokensFrom(structure, 0).value);
    EventsPrintable(t);
  }

  // Assembling a blob.

  function Cells(cells: seq<u32>): (b: bytes)
    ensures |b| == 4 * |cells|
  {
    if cells == [] then [] else Be32(cells[0]) + Cells(cells[1..])
  }

  lemma {:induction false} CellsAt(cells: seq<u32>, tail: bytes, i: nat)
    requires i < |cells|
    ensures CellAt(Cells(cells) + tail, i) == cells[i]
    decreases |cells|
  {
    var b, rest := Cells(cells) + tail, Cells(cells[1..]) + tail;
    assert b == Be32(cells[0]) + rest;
    if i == 0 {
      assert b[0..4] == Be32(cells[0]);
      De32Be32(cells[0]);
    } else {
      CellsAt(cells[1..], tail, i - 1);
      assert b[4 * i..4 * i + 4] == rest[4 * (i - 1)..4 * (i - 1) + 4];
    }
  }

  function PaddedMap(reserveMap: bytes): bytes {
    reserveMap + Zeros(PadLen(HEADER_SIZE + |reserveMap|))
  }

  /// `build_dtb`: the version and boot CPU come from `old`, everything else is recomputed.
  function BuildDtb(base: Header, reserveMap: bytes, structure: bytes, strings: bytes): Result<bytes> {
    var padded := PaddedMap(reserveMap);
    var offStruct := HEADER_SIZE + |padded|;
    var offStrings := offStruct + |structure|;
    var totalsize := offStrings + |strings|;
    if totalsize >= U32_LIMIT then InvalidData
    else
      var cells := [FDT_MAGIC, totalsize, offStruct, offStrings, HEADER_SIZE, base.version, base.lastCompVersion,
                    base.bootCpuidPhys, |strings|, |structure|];
      Ok(Cells(cells) + (padded + structure + strings))
  }

  /// The blocks of a built blob are the ones it was built from.
  lemma BuiltBlocks(base: Header, reserveMap: bytes, structure: bytes, strings: bytes)
    requires reserveMap != [] && BuildDtb(base, reserveMap, structure, strings).Ok?
    ensures
      var out := BuildDtb(base, reserveMap, structure, strings).value;
      && ParseHeader(out).Ok?
      && ParseHeader(out).value.totalsize == |out|
      && ParseHeader(out).value.offMemRsvmap == HEADER_SIZE
      && ParseHeader(out).value.offDtStruct == HEADER_SIZE + |PaddedMap(reserveMap)|
      && ParseHeader(out).value.offDtStrings == HEADER_SIZE + |PaddedMap(reserveMap)| + |structure|
      && ParseHeader(out).value.version == base.version
      && ParseHeader(out).value.lastCompVersion == base.lastCompVersion
      && ParseHeader(out).value.bootCpuidPhys == base.bootCpuidPhys
      && StructBlock(out) == Ok(structure) && StringsBlock(out) == Ok(strings)
      && HEADER_SIZE + |reserveMap| <= |out| && out[HEADER_SIZE..HEADER_SIZE + |reserveMap|] == reserveMap
  {
    hide Cells, CellAt;
    var out, padded := BuildDtb(base, reserveMap, structure, strings).value, PaddedMap(reserveMap);
    var tail := padded + structure + strings;
    var offStruct := HEADER_SIZE + |padded|;
    var offStrings := offStruct + |structure|;
    var cells := [FDT_MAGIC, offStrings + |strings|, offStruct, offStrings, HEADER_SIZE, base.version,
                  base.lastCompVersion, base.bootCpuidPhys, |strings|, |structure|];
    assert out == Cells(cells) + tail;
    forall i | 0 <= i < 10 ensures CellAt(out, i) == cells[i] {
      CellsAt(cells, tail, i);
    }
    assert out[offStruct..offStrings] == structure;
    assert out[offStrings..offStrings + |strings|] == strings;
    assert out[HEADER_SIZE..HEADER_SIZE + |reserveMap|] == reserveMap;
  }

  ghost predicate MapOk(reserveMap: bytes) { MapEnd(reserveMap, |reserveMap|, 0) == Ok(|reserveMap|) }

  lemma ReadMapOk(dtb: bytes)
    requires ReserveMap(dtb).Ok?
    ensures MapOk(ReserveMap(dtb).value)
    ensures MapRanges(ReserveMap(dtb).value, |ReserveMap(dtb).value|, 0) == ReserveMapRanges(dtb)
  {
    var h, m := ParseHeader(dtb).value, ReserveMap(dtb).value;
    assert m[0..|m|] == m;
    MapMoves(dtb, h.totalsize, h.offMemRsvmap, m, |m|, 0);
  }

  /// A built blob reserves what its map says.
  lemma BuiltMap(base: Header, reserveMap: bytes, structure: bytes, strings: bytes)
    requires MapOk(reserveMap) && BuildDtb(base, reserveMap, structure, strings).Ok?
    ensures
      var out := BuildDtb(base, reserveMap, structure, strings).value;
      && ReserveMap(out) == Ok(reserveMap)
      && ReserveMapRanges(out) == MapRanges(reserveMap, |reserveMap|, 0)
  {
    BuiltBlocks(base, reserveMap, structure, strings);
    var out := BuildDtb(base, reserveMap, structure, strings).value;
    assert reserveMap[0..|reserveMap|] == reserveMap;
    MapMoves(reserveMap, |reserveMap|, 0, out, |out|, HEADER_SIZE);
  }

  // Printing.

  /// `build_contract_tree`.
  function BuildContractTree(base: Header, root: Node, reserveMap: bytes): Result<bytes>
    requires Printable(root)
  {
    var printed :- WriteNode(root, []);
    assert AllWf(printed.tokens) by { WriteNodeMeaning(root, []); }
    BuildDtb(base, reserveMap, EncAll(printed.tokens) + Enc(Fin), printed.strings)
  }

  /// Print/parse round trip: a well-formed tree that fits comes back unchanged.
  lemma RoundTrip(base: Header, root: Node, reserveMap: bytes)
    requires WfTree(root) && Printable(root) && MapOk(reserveMap)
    requires BuildContractTree(base, root, reserveMap).Ok?
    ensures
      var out := BuildContractTree(base, root, reserveMap).value;
      && ContractTree(out) == Ok(root)
      && ReserveMap(out) == Ok(reserveMap)
      && ReserveMapRanges(out) == MapRanges(reserveMap, |reserveMap|, 0)
      && ParseHeader(out).value.bootCpuidPhys == base.bootCpuidPhys
  {
    WriteNodeMeaning(root, []);
    var printed := WriteNode(root, []).value;
    var structure := EncAll(printed.tokens) + Enc(Fin);
    BuiltBlocks(base, reserveMap, structure, printed.strings);
    BuiltMap(base, reserveMap, structure, printed.strings);
    EncodedDenotes(printed.tokens, printed.strings, root);
  }
}
