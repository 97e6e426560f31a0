/// When the functions of `src/kexec.rs`, `mod fdt`, that print or rewrite a blob return: the blob must fit
/// the 32-bit sizes of its header, and the live tree must have a memory node.
module Fits {
  import opened Bytes
  import opened Tokens
  import opened Tree
  import opened Dtb
  import opened Contract
  import opened Memory
  import Chosen

  // Sizes.

  function Size(t: Token): nat {
    match t
    case Begin(name, pad) => 5 + |name| + |pad|
    case Prop(_, value, pad) => 12 + |value| + |pad|
    case _ => 4
  }

  function Sizes(ts: seq<Token>): nat {
    if ts == [] then 0 else Size(ts[0]) + Sizes(ts[1..])
  }

  function EventSize(e: Event): nat {
    match e
    case Open(name) => 4 + Align4(|name| + 1)
    case Close => 4
    case Attr(_, value) => 12 + Align4(|value|)
  }

  function EventSizes(evs: seq<Event>): nat {
    if evs == [] then 0 else EventSize(evs[0]) + EventSizes(evs[1..])
  }

  function Nops(ts: seq<Token>): nat {
    if ts == [] then 0 else (if ts[0] == Nop then 1 else 0) + Nops(ts[1..])
  }

  lemma {:induction false} EncAllSize(ts: seq<Token>)
    requires AllWf(ts)
    ensures |EncAll(ts)| == Sizes(ts)
  {
    hide Bytes.Be32;
    if ts != [] {
      EncAllSize(ts[1..]);
    }
  }

  lemma {:induction false} SizesAppend(xs: seq<Token>, ys: seq<Token>)
    ensures Sizes(xs + ys) == Sizes(xs) + Sizes(ys) && Nops(xs + ys) == Nops(xs) + Nops(ys)
  {
    if xs == [] {
      assert xs + ys == ys;
    } else {
      SizesAppend(xs[1..], ys);
      assert (xs + ys)[1..] == xs[1..] + ys;
    }
  }

  lemma {:induction false} EventSizesAppend(xs: seq<Event>, ys: seq<Event>)
    ensures EventSizes(xs + ys) == EventSizes(xs) + EventSizes(ys)
  {
    hide EventSize;
    if xs == [] {
      assert xs + ys == ys;
    } else {
      EventSizesAppend(xs[1..], ys);
      assert (xs + ys)[1..] == xs[1..] + ys;
    }
  }

  lemma NodeSizes(node: Node)
    ensures
      EventSizes(Events(node)) ==
      EventSize(Open(node.name)) + EventSizes(PropEvents(node.props)) + EventSizes(ForestEvents(node.children)) + 4
  {
    var props, kids := PropEvents(node.props), ForestEvents(node.children);
    hide PropEvents, ForestEvents;
    EventSizesAppend([Open(node.name)], props);
    EventSizesAppend([Open(node.name)] + props, kids);
    EventSizesAppend([Open(node.name)] + props + kids, [Close]);
    assert [Open(node.name)][1..] == [] && [Close][1..] == [];
  }

  /// The size of a block is that of its events, and four bytes for every NOP.
  lemma {:induction false} ResolvedSize(strings: bytes, ts: seq<Token>)
    requires AllWf(ts) && Resolve(strings, ts).Some?
    ensures Sizes(ts) == EventSizes(Resolve(strings, ts).value) + 4 * Nops(ts)
  {
    hide Align4, StringAt;
    if ts == [] {
      ResolveNil(strings);
    } else {
      ResolveCons(strings, ts);
      assert Wf(ts[0]);
      ResolvedSize(strings, ts[1..]);
    }
  }

  // Strings.

  /// The strings block with `name` in it.
  function Grown(strings: bytes, name: bytes): bytes {
    if FindString(strings, name, 0).Some? then strings else strings + name + [0]
  }

  /// The strings block with the names of all properties in it.
  function GrownAll(strings: bytes, evs: seq<Event>): bytes
    decreases |evs|
  {
    if evs == [] then strings else GrownAll(if evs[0].Attr? then Grown(strings, evs[0].name) else strings, evs[1..])
  }

  lemma {:induction false} FoundInside(strings: bytes, name: bytes, cursor: nat)
    requires FindString(strings, name, cursor).Some?
    ensures FindString(strings, name, cursor).value < |strings|
    decreases |strings| - cursor
  {
    var end := FindNul(strings, cursor).value;
    if strings[cursor..end] != name {
      FoundInside(strings, name, end + 1);
    }
  }

  /// Interning fails only when the block has outgrown 32-bit offsets.
  lemma EnsureReturns(strings: bytes, name: bytes)
    ensures EnsureString(strings, name).Ok? ==> EnsureString(strings, name).value.0 == Grown(strings, name)
    ensures |Grown(strings, name)| < U32_LIMIT ==> EnsureString(strings, name).Ok?
  {
    if FindString(strings, name, 0).Some? {
      FoundInside(strings, name, 0);
    }
  }

  lemma {:induction false} GrownAllGrows(strings: bytes, evs: seq<Event>)
    ensures |strings| <= |GrownAll(strings, evs)|
    decreases |evs|
  {
    if evs != [] {
      GrownAllGrows(if evs[0].Attr? then Grown(strings, evs[0].name) else strings, evs[1..]);
    }
  }

  lemma {:induction false} GrownAllAppend(strings: bytes, xs: seq<Event>, ys: seq<Event>)
    ensures GrownAll(strings, xs + ys) == GrownAll(GrownAll(strings, xs), ys)
    decreases |xs|
  {
    hide Grown;
    if xs == [] {
      assert xs + ys == ys;
    } else {
      GrownAllAppend(if xs[0].Attr? then Grown(strings, xs[0].name) else strings, xs[1..], ys);
      assert (xs + ys)[1..] == xs[1..] + ys;
    }
  }

  // Printing.

  lemma {:induction false} WritePropsReturns(props: seq<Property>, strings: bytes)
    ensures |GrownAll(strings, PropEvents(props))| < U32_LIMIT ==> WriteProps(props, strings).Ok?
    ensures WriteProps(props, strings).Ok? ==>
      var out := WriteProps(props, strings).value;
      out.strings == GrownAll(strings, PropEvents(props)) && Nops(out.tokens) == 0
  {
    hide EnsureString, Grown;
    if props != [] {
      var name := props[0].name;
      assert PropEvents(props)[1..] == PropEvents(props[1..]);
      EnsureReturns(strings, name);
      GrownAllGrows(Grown(strings, name), PropEvents(props[1..]));
      WritePropsReturns(props[1..], Grown(strings, name));
      if WriteProps(props, strings).Ok? {
        var rest := WriteProps(props[1..], Grown(strings, name)).value;
        assert WriteProps(props, strings).value.tokens[1..] == rest.tokens;
      }
    }
  }

  lemma NodeNops(name: bytes, props: seq<Token>, kids: seq<Token>)
    ensures Nops([NewBegin(name)] + props + kids + [End]) == Nops(props) + Nops(kids)
  {
    SizesAppend([NewBegin(name)], props);
    SizesAppend([NewBegin(name)] + props, kids);
    SizesAppend([NewBegin(name)] + props + kids, [End]);
    assert [NewBegin(name)][1..] == [] && [End][1..] == [];
  }

  lemma GrownNode(strings: bytes, node: Node)
    ensures GrownAll(strings, Events(node)) == GrownAll(GrownAll(strings, PropEvents(node.props)), ForestEvents(node.children))
  {
    var props, kids := PropEvents(node.props), ForestEvents(node.children);
    hide PropEvents, ForestEvents;
    assert Events(node) == [Open(node.name)] + (props + (kids + [Close]));
    GrownAllAppend(strings, [Open(node.name)], props + (kids + [Close]));
    GrownAllAppend(strings, props, kids + [Close]);
    GrownAllAppend(GrownAll(strings, props), kids, [Close]);
    assert [Open(node.name)][1..] == [] && [Close][1..] == [];
  }

  lemma {:induction false} WriteNodeReturns(node: Node, strings: bytes)
    ensures |GrownAll(strings, Events(node))| < U32_LIMIT ==> WriteNode(node, strings).Ok?
    ensures WriteNode(node, strings).Ok? ==>
      var out := WriteNode(node, strings).value;
      out.strings == GrownAll(strings, Events(node)) && Nops(out.tokens) == 0
    decreases node, 1
  {
    hide WriteProps, WriteForest, GrownAll, Nops, Events, NewBegin;
    GrownNode(strings, node);
    var names := GrownAll(strings, PropEvents(node.props));
    GrownAllGrows(names, ForestEvents(node.children));
    WritePropsReturns(node.props, strings);
    WriteForestReturns(node.children, names);
    if WriteNode(node, strings).Ok? {
      NodeNops(node.name, WriteProps(node.props, strings).value.tokens, WriteForest(node.children, names).value.tokens);
    }
  }

  lemma {:induction false} WriteForestReturns(nodes: seq<Node>, strings: bytes)
    ensures |GrownAll(strings, ForestEvents(nodes))| < U32_LIMIT ==> WriteForest(nodes, strings).Ok?
    ensures WriteForest(nodes, strings).Ok? ==>
      var out := WriteForest(nodes, strings).value;
      out.strings == GrownAll(strings, ForestEvents(nodes)) && Nops(out.tokens) == 0
    decreases nodes, 0
  {
    hide WriteNode, Events;
    if nodes != [] {
      GrownAllAppend(strings, Events(nodes[0]), ForestEvents(nodes[1..]));
      var names := GrownAll(strings, Events(nodes[0]));
      GrownAllGrows(names, ForestEvents(nodes[1..]));
      WriteNodeReturns(nodes[0], strings);
      WriteForestReturns(nodes[1..], names);
      if WriteForest(nodes, strings).Ok? {
        SizesAppend(WriteNode(nodes[0], strings).value.tokens, WriteForest(nodes[1..], names).value.tokens);
      }
    }
  }

  /// The size of a blob with this map, structure block and strings block.
  function BlobSize(reserveMap: bytes, structure: nat, strings: bytes): nat {
    HEADER_SIZE + |PaddedMap(reserveMap)| + structure + |strings|
  }

  /// Printing a tree returns exactly when the blob fits 32 bits; so the round trip holds for these trees.
  lemma PrintReturns(base: Header, root: Node, reserveMap: bytes)
    requires Printable(root)
    ensures BuildContractTree(base, root, reserveMap).Ok? <==>
      BlobSize(reserveMap, EventSizes(Events(root)) + 4, GrownAll([], Events(root))) < U32_LIMIT
  {
    hide WriteNode, EventSizes, GrownAll, Events, EncAll, Resolve, PaddedMap, Sizes, Nops, Cells, AllWf, Printable;
    WriteNodeReturns(root, []);
    if WriteNode(root, []).Ok? {
      WriteNodeMeaning(root, []);
      var out := WriteNode(root, []).value;
      ResolvedSize(out.strings, out.tokens);
      EncAllSize(out.tokens);
    }
  }

  // Rewriting /chosen.

  lemma ChosenHasNoNops(offsets: Chosen.Offsets, cmdline: bytes, initrd: Option<Chosen.Initrd>)
    ensures Nops(Chosen.ChosenProps(offsets, cmdline, initrd)) == 0
  {
    var props := Chosen.ChosenProps(offsets, cmdline, initrd);
    assert Nop !in props;
    hide *;
    NoNops(props);
  }

  lemma {:induction false} NoNops(ts: seq<Token>)
    requires Nop !in ts
    ensures Nops(ts) == 0
  {
    if ts != [] {
      NoNops(ts[1..]);
    }
  }

  lemma StepNops(props: seq<Token>, strings: bytes, p: Chosen.Patch, t: Token)
    requires Fin !in props && t != Fin && Nops(props) == 0 && Chosen.PatchStep(props, strings, p, t).Ok?
    ensures Nops(Chosen.PatchStep(props, strings, p, t).value.1) == Nops([t])
  {
    hide Chosen.IsChosen, Chosen.Managed, StringAt;
    assert [t][1..] == [];
    match t
    case Begin(name, _) =>
      SizesAppend([NewBegin(name)], props);
      assert [NewBegin(name)][1..] == [];
    case End =>
      NodeNops(Chosen.CHOSEN, props, []);
      assert [NewBegin(Chosen.CHOSEN)] + props + [] + [End] == [NewBegin(Chosen.CHOSEN)] + props + [End];
      SizesAppend([NewBegin(Chosen.CHOSEN)] + props + [End], [End]);
      assert [End][1..] == [];
    case _ =>
  }

  /// The rewriter keeps every NOP.
  lemma {:induction false} PatchKeepsNops(props: seq<Token>, strings: bytes, p: Chosen.Patch, ts: seq<Token>)
    requires Fin !in props && Fin !in ts && Nops(props) == 0 && Chosen.PatchTokens(props, strings, p, ts).Ok?
    ensures Nops(Chosen.PatchTokens(props, strings, p, ts).value) == Nops(ts)
    decreases |ts|
  {
    hide Chosen.PatchStep;
    if ts != [] {
      StepNops(props, strings, p, ts[0]);
      var (p', out) := Chosen.PatchStep(props, strings, p, ts[0]).value;
      PatchKeepsNops(props, strings, p', ts[1..]);
      SizesAppend(out, Chosen.PatchTokens(props, strings, p', ts[1..]).value);
      assert [ts[0]] + ts[1..] == ts;
      SizesAppend([ts[0]], ts[1..]);
    }
  }

  /// The strings block with the four managed names in it.
  function WithChosen(strings: bytes): bytes {
    Grown(Grown(Grown(Grown(strings, Chosen.PROP_BOOTARGS), Chosen.PROP_INITRD_START), Chosen.PROP_INITRD_END),
          Chosen.PROP_BOOTED_FROM_KEXEC)
  }

  lemma ChosenStringsReturn(strings: bytes)
    ensures |WithChosen(strings)| < U32_LIMIT ==> Chosen.ChosenStrings(strings).Ok?
    ensures Chosen.ChosenStrings(strings).Ok? ==> Chosen.ChosenStrings(strings).value.0 == WithChosen(strings)
  {
    hide Bytes.Ascii, EnsureString, FindString;
    var s1 := Grown(strings, Chosen.PROP_BOOTARGS);
    var s2 := Grown(s1, Chosen.PROP_INITRD_START);
    var s3 := Grown(s2, Chosen.PROP_INITRD_END);
    EnsureReturns(strings, Chosen.PROP_BOOTARGS);
    EnsureReturns(s1, Chosen.PROP_INITRD_START);
    EnsureReturns(s2, Chosen.PROP_INITRD_END);
    EnsureReturns(s3, Chosen.PROP_BOOTED_FROM_KEXEC);
  }

  /// The size of the rewritten structure block: the patched tree, and the NOPs of the old block.
  function PatchedSize(structure: bytes, t: Node, props: seq<Property>): nat
    requires TokensFrom(structure, 0).Some?
  {
    EventSizes(Events(Chosen.PatchTree(t, props))) + 4 * Nops(TokensFrom(structure, 0).value) + 4
  }

  lemma PatchedBlockSize(structure: bytes, names: bytes, cmdline: bytes, initrd: Option<Chosen.Initrd>)
    requires |cmdline| + 1 < U32_LIMIT && TreeOf(structure, names).Ok? && Chosen.ChosenStrings(names).Ok?
    ensures TokensFrom(structure, 0).Some?
    ensures
      var (strings, offsets) := Chosen.ChosenStrings(names).value;
      var tokens := Chosen.PatchedFrom(structure, 0, Chosen.ChosenProps(offsets, cmdline, initrd), strings, Chosen.PATCH_START);
      && tokens.Ok? && AllWf(tokens.value)
      && |EncAll(tokens.value) + Enc(Fin)| == PatchedSize(structure, TreeOf(structure, names).value, Chosen.ChosenProperties(cmdline, initrd))
  {
    var t := TreeOf(structure, names).value;
    var (strings, offsets) := Chosen.ChosenStrings(names).value;
    var props := Chosen.ChosenProps(offsets, cmdline, initrd);
    var patched := Chosen.PatchTree(t, Chosen.ChosenProperties(cmdline, initrd));
    TreeOfExact(structure, names, t);
    var ts := TokensFrom(structure, 0).value;
    Chosen.PatchedBlocksParse(structure, names, cmdline, initrd);
    var tokens := Chosen.PatchTokens(props, strings, Chosen.PATCH_START, ts).value;
    assert |Enc(Fin)| == 4;
    hide *;
    ChosenHasNoNops(offsets, cmdline, initrd);
    PatchKeepsNops(props, strings, Chosen.PATCH_START, ts);
    EncodedMeans(tokens, strings, patched);
    ResolvedSize(strings, tokens);
    EncAllSize(tokens);
  }

  /// The tokens of an encoded block that denotes a tree resolve to the events of that tree.
  lemma EncodedMeans(tokens: seq<Token>, strings: bytes, t: Node)
    requires AllWf(tokens) && TreeOf(EncAll(tokens) + Enc(Fin), strings) == Ok(t)
    ensures Resolve(strings, tokens) == Some(Events(t))
  {
    hide AllWf, Enc, EncAll, WfTree, Resolve, Events, TreeOf;
    EncodedIsTokens([], tokens, []);
    assert [] + EncAll(tokens) + Enc(Fin) + [] == EncAll(tokens) + Enc(Fin);
    TreeOfExact(EncAll(tokens) + Enc(Fin), strings, t);
  }

  lemma BuildFits(base: Header, reserveMap: bytes, structure: bytes, strings: bytes)
    ensures BuildDtb(base, reserveMap, structure, strings).Ok? <==> BlobSize(reserveMap, |structure|, strings) < U32_LIMIT
    ensures BuildDtb(base, reserveMap, structure, strings).Ok? ==>
      |BuildDtb(base, reserveMap, structure, strings).value| == BlobSize(reserveMap, |structure|, strings)
  {
    hide Cells, PaddedMap;
  }

  /// The size of the blob with /chosen patched.
  function PatchedBlobSize(dtb: bytes, cmdline: bytes, initrd: Option<Chosen.Initrd>): nat
    requires ContractTree(dtb).Ok? && ReserveMap(dtb).Ok?
  {
    var structure, names := StructBlock(dtb).value, StringsBlock(dtb).value;
    if TokensFrom(structure, 0).None? then 0
    else
      BlobSize(ReserveMap(dtb).value, PatchedSize(structure, ContractTree(dtb).value, Chosen.ChosenProperties(cmdline, initrd)),
               WithChosen(names))
  }

  /// `patch_chosen` returns exactly when the map is terminated and the new blob fits 32 bits.
  lemma PatchReturns(dtb: bytes, cmdline: bytes, initrd: Option<Chosen.Initrd>)
    requires |cmdline| + 1 < U32_LIMIT && ContractTree(dtb).Ok?
    ensures Chosen.PatchedBlob(dtb, cmdline, initrd).Ok? <==>
      ReserveMap(dtb).Ok? && PatchedBlobSize(dtb, cmdline, initrd) < U32_LIMIT
    ensures Chosen.PatchedBlob(dtb, cmdline, initrd).Ok? ==>
      |Chosen.PatchedBlob(dtb, cmdline, initrd).value| == PatchedBlobSize(dtb, cmdline, initrd)
  {
    hide TreeOf, ParseHeader, ReserveMap, Chosen.ChosenStrings, Chosen.PatchedFrom, PatchedSize, PaddedMap, Enc, WithChosen, EncAll,
         BuildDtb, Chosen.ChosenProps, Chosen.ChosenProperties, TokensFrom, AllWf, Resolve, WfTree;
    var structure, names := StructBlock(dtb).value, StringsBlock(dtb).value;
    TreeOfExact(structure, names, ContractTree(dtb).value);
    ChosenStringsReturn(names);
    if Chosen.ChosenStrings(names).Ok? {
      PatchedBlockSize(structure, names, cmdline, initrd);
    }
    if ReserveMap(dtb).Ok? && Chosen.ChosenStrings(names).Ok? {
      var (strings, offsets) := Chosen.ChosenStrings(names).value;
      var props := Chosen.ChosenProps(offsets, cmdline, initrd);
      var tokens := Chosen.PatchedFrom(structure, 0, props, strings, Chosen.PATCH_START).value;
      BuildFits(ParseHeader(dtb).value, ReserveMap(dtb).value, EncAll(tokens) + Enc(Fin), strings);
    }
  }

  // Grafting memory nodes.

  /// The nodes that are open at this depth, and the root, are closed by these events.
  predicate Closes(depth: nat, sawRoot: bool, evs: seq<Event>)
    decreases |evs|
  {
    if evs == [] then sawRoot && depth == 0
    else
      match evs[0]
      case Open(name) =>
        if depth == 0 then !sawRoot && name == [] && Closes(1, true, evs[1..]) else Closes(depth + 1, sawRoot, evs[1..])
      case Close => depth > 0 && Closes(depth - 1, sawRoot, evs[1..])
      case Attr(_, _) => Closes(depth, sawRoot, evs[1..])
  }

  lemma {:induction false} PropsClose(depth: nat, sawRoot: bool, props: seq<Property>, rest: seq<Event>)
    requires Closes(depth, sawRoot, rest)
    ensures Closes(depth, sawRoot, PropEvents(props) + rest)
  {
    if props == [] {
      assert PropEvents(props) + rest == rest;
    } else {
      PropsClose(depth, sawRoot, props[1..], rest);
      assert (PropEvents(props) + rest)[1..] == PropEvents(props[1..]) + rest;
    }
  }

  lemma {:induction false} NodeCloses(depth: nat, sawRoot: bool, node: Node, rest: seq<Event>)
    requires depth > 0 && Closes(depth, sawRoot, rest)
    ensures Closes(depth, sawRoot, Events(node) + rest)
    decreases node, 1
  {
    var props, kids, tail := PropEvents(node.props), ForestEvents(node.children), [Close] + rest;
    EventsThen(node, rest);
    assert tail[1..] == rest && Closes(depth + 1, sawRoot, tail);
    hide PropEvents, ForestEvents, Events;
    ForestCloses(depth + 1, sawRoot, node.children, tail);
    PropsClose(depth + 1, sawRoot, node.props, kids + tail);
    assert ([Open(node.name)] + (props + (kids + tail)))[1..] == props + (kids + tail);
  }

  lemma {:induction false} ForestCloses(depth: nat, sawRoot: bool, nodes: seq<Node>, rest: seq<Event>)
    requires depth > 0 && Closes(depth, sawRoot, rest)
    ensures Closes(depth, sawRoot, ForestEvents(nodes) + rest)
    decreases nodes, 0
  {
    hide Closes, Events;
    if nodes == [] {
      assert ForestEvents(nodes) + rest == rest;
    } else {
      ForestCloses(depth, sawRoot, nodes[1..], rest);
      NodeCloses(depth, sawRoot, nodes[0], ForestEvents(nodes[1..]) + rest);
      assert ForestEvents(nodes) + rest == Events(nodes[0]) + (ForestEvents(nodes[1..]) + rest);
    }
  }

  lemma RootCloses(root: Node)
    requires root.name == []
    ensures Closes(0, false, Events(root))
  {
    var props, kids := PropEvents(root.props), ForestEvents(root.children);
    assert Closes(1, true, [Close]) by { assert [Close][1..] == []; }
    hide PropEvents, ForestEvents;
    ForestCloses(1, true, root.children, [Close]);
    PropsClose(1, true, root.props, kids + [Close]);
    assert Events(root) == [Open([])] + (props + (kids + [Close]));
    assert ([Open([])] + (props + (kids + [Close])))[1..] == props + (kids + [Close]);
  }

  /// An open node ends, and what follows closes the others.
  lemma {:induction false} TakeCloses(depth: nat, k: nat, sawRoot: bool, evs: seq<Event>)
    requires Closes(depth, sawRoot, evs) && depth > 0
    requires 0 < k <= depth || (k == 0 && evs != [] && evs[0].Open?)
    ensures Take(k, evs).Some? && Closes(depth - k, sawRoot, Take(k, evs).value.1)
    decreases |evs|
  {
    match evs[0]
    case Open(_) => TakeCloses(depth + 1, k + 1, sawRoot, evs[1..]);
    case Close =>
      if k > 1 {
        TakeCloses(depth - 1, k - 1, sawRoot, evs[1..]);
      }
    case Attr(_, _) => TakeCloses(depth, k, sawRoot, evs[1..]);
  }

  /// Copying a subtree fails only when the strings block outgrows 32-bit offsets.
  lemma {:induction false} CopyReturns(names: bytes, strings: bytes, depth: nat, ts: seq<Token>)
    requires AllWf(ts) && Resolve(names, ts).Some? && Take(depth, Resolve(names, ts).value).Some?
    requires |GrownAll(strings, Take(depth, Resolve(names, ts).value).value.0)| < U32_LIMIT
    ensures Copy(names, strings, depth, ts).Ok?
    ensures Copy(names, strings, depth, ts).value.strings == GrownAll(strings, Take(depth, Resolve(names, ts).value).value.0)
    decreases |ts|
  {
    hide EnsureString, StringAt, Wf, TokenEvents, Grown;
    if ts == [] {
      ResolveNil(names);
    } else {
      ResolveCons(names, ts);
      var evs, rest := Resolve(names, ts).value, ts[1..];
      var taken := Take(depth, evs).value.0;
      match ts[0]
      case Begin(_, _) =>
        assert taken[1..] == Take(depth + 1, evs[1..]).value.0;
        CopyReturns(names, strings, depth + 1, rest);
      case End =>
        if depth > 1 {
          assert taken[1..] == Take(depth - 1, evs[1..]).value.0;
          CopyReturns(names, strings, depth - 1, rest);
        } else {
          assert [Close][1..] == [];
        }
      case Prop(nameoff, _, _) =>
        var name := StringAt(names, nameoff).value;
        var more := Take(depth, evs[1..]).value.0;
        assert taken[0] == Attr(name, ts[0].value) && taken[1..] == more;
        EnsureReturns(strings, name);
        GrownAllGrows(Grown(strings, name), more);
        CopyReturns(names, Grown(strings, name), depth, rest);
      case Nop => CopyReturns(names, strings, depth, rest);
      case Fin => assert false;
    }
  }

  lemma TakenSome(evs: seq<Event>)
    requires Take(0, evs).Some?
    ensures Take(0, evs).value.0 != []
  {
  }

  /// So does extracting; and there is a fragment exactly when there is a memory node.
  lemma {:induction false} ExtractReturns(names: bytes, strings: bytes, depth: nat, sawRoot: bool, ts: seq<Token>)
    requires AllWf(ts) && Resolve(names, ts).Some? && Closes(depth, sawRoot, Resolve(names, ts).value)
    requires |GrownAll(strings, ExtractEvents(depth, Resolve(names, ts).value))| < U32_LIMIT
    ensures Extract(names, strings, depth, sawRoot, ts).Ok?
    ensures
      var out, memory := Extract(names, strings, depth, sawRoot, ts).value, ExtractEvents(depth, Resolve(names, ts).value);
      out.strings == GrownAll(strings, memory) && (out.fragments == [] <==> memory == [])
    decreases |ts|
  {
    hide Copy, Take, IsMemory, Wf, TokenEvents, GrownAll;
    if ts == [] {
      ResolveNil(names);
      assert GrownAll(strings, []) == strings by { NothingGrown(strings); }
    } else {
      ResolveCons(names, ts);
      var evs := Resolve(names, ts).value;
      match ts[0]
      case Begin(name, _) =>
        if depth == 0 {
          ExtractReturns(names, strings, 1, true, ts[1..]);
        } else if depth == 1 && IsMemory(name) {
          TakeCloses(depth, 0, sawRoot, evs);
          TakenSome(evs);
          var (node, after) := Take(0, evs).value;
          GrownAllAppend(strings, node, ExtractEvents(depth, after));
          GrownAllGrows(GrownAll(strings, node), ExtractEvents(depth, after));
          CopyReturns(names, strings, 0, ts);
          CopyMeaning(names, strings, 0, ts);
          CopyWf(names, strings, 0, ts);
          var copied := Copy(names, strings, 0, ts).value;
          ExtractReturns(names, copied.strings, depth, sawRoot, copied.rest);
        } else {
          ExtractReturns(names, strings, depth + 1, sawRoot, ts[1..]);
        }
      case End => ExtractReturns(names, strings, depth - 1, sawRoot, ts[1..]);
      case Prop(_, _, _) | Nop => ExtractReturns(names, strings, depth, sawRoot, ts[1..]);
      case Fin => assert false;
    }
  }

  lemma NothingGrown(strings: bytes)
    ensures GrownAll(strings, []) == strings
  {
  }

  /// The token loop of the graft never fails on a tree.
  lemma {:induction false} GraftTokensReturn(strings: bytes, memory: seq<Token>, g: Graft, ts: seq<Token>)
    requires AllWf(ts) && Fin !in memory && Resolve(strings, ts).Some?
    requires Closes(g.depth, g.sawRoot, Resolve(strings, ts).value)
    ensures GraftTokens(memory, g, ts).Ok?
    decreases |ts|
  {
    hide Skip, Take, IsMemory, Wf, TokenEvents;
    if ts == [] {
      ResolveNil(strings);
    } else {
      ResolveCons(strings, ts);
      match ts[0]
      case Begin(name, _) =>
        if g.depth == 0 {
          GraftTokensReturn(strings, memory, Graft(1, true, g.inserted), ts[1..]);
        } else if g.depth == 1 && IsMemory(name) {
          TakeCloses(g.depth, 0, g.sawRoot, Resolve(strings, ts).value);
          SkipMeaning(strings, 0, ts);
          GraftTokensReturn(strings, memory, g, Skip(0, ts).value);
        } else {
          var insert := g.depth == 1 && !g.inserted;
          GraftTokensReturn(strings, memory, Graft(g.depth + 1, g.sawRoot, g.inserted || insert), ts[1..]);
        }
      case End =>
        var insert := g.depth == 1 && !g.inserted;
        GraftTokensReturn(strings, memory, Graft(g.depth - 1, g.sawRoot, g.inserted || insert), ts[1..]);
      case Prop(_, _, _) | Nop => GraftTokensReturn(strings, memory, g, ts[1..]);
      case Fin => assert false;
    }
  }

  lemma {:induction false} CopySize(names: bytes, strings: bytes, depth: nat, ts: seq<Token>)
    requires AllWf(ts) && Copy(names, strings, depth, ts).Ok?
    ensures
      var copied := Copy(names, strings, depth, ts).value;
      Sizes(copied.tokens) + Sizes(copied.rest) == Sizes(ts)
    decreases |ts|
  {
    hide EnsureString, StringAt, Align4, Bytes.Zeros;
    var t, rest, out := ts[0], ts[1..], Copy(names, strings, depth, ts).value;
    assert Wf(t);
    match t
    case Begin(_, _) =>
      CopySize(names, strings, depth + 1, rest);
      assert out.tokens[1..] == Copy(names, strings, depth + 1, rest).value.tokens;
    case End =>
      if depth > 1 {
        CopySize(names, strings, depth - 1, rest);
        assert out.tokens[1..] == Copy(names, strings, depth - 1, rest).value.tokens;
      } else {
        assert [End][1..] == [];
      }
    case Prop(nameoff, _, _) =>
      var (strings', offset) := EnsureString(strings, StringAt(names, nameoff).value).value;
      CopySize(names, strings', depth, rest);
      assert out.tokens[1..] == Copy(names, strings', depth, rest).value.tokens;
    case Nop =>
      CopySize(names, strings, depth, rest);
      assert out.tokens[1..] == Copy(names, strings, depth, rest).value.tokens;
  }

  lemma {:induction false} SkipSize(depth: nat, ts: seq<Token>)
    requires Fin !in ts && Skip(depth, ts).Ok?
    ensures Sizes(Skip(depth, ts).value) <= Sizes(ts)
    decreases |ts|
  {
    hide Size;
    match ts[0]
    case Begin(_, _) => SkipSize(depth + 1, ts[1..]);
    case End =>
      if depth > 1 {
        SkipSize(depth - 1, ts[1..]);
      }
    case Prop(_, _, _) | Nop => SkipSize(depth, ts[1..]);
    case Fin => assert false;
  }

  lemma {:induction false} ExtractSize(names: bytes, strings: bytes, depth: nat, sawRoot: bool, ts: seq<Token>)
    requires AllWf(ts) && Extract(names, strings, depth, sawRoot, ts).Ok?
    ensures Sizes(Joined(Extract(names, strings, depth, sawRoot, ts).value.fragments)) <= Sizes(ts)
    decreases |ts|
  {
    hide Copy, IsMemory, Wf, Size;
    if ts != [] {
      match ts[0]
      case Begin(name, _) =>
        if depth == 0 {
          ExtractSize(names, strings, 1, true, ts[1..]);
        } else if depth == 1 && IsMemory(name) {
          var copied := Copy(names, strings, 0, ts).value;
          CopyWf(names, strings, 0, ts);
          CopySize(names, strings, 0, ts);
          ExtractSize(names, copied.strings, depth, sawRoot, copied.rest);
          var out := Extract(names, copied.strings, depth, sawRoot, copied.rest).value;
          var whole := Extract(names, strings, depth, sawRoot, ts).value.fragments;
          assert whole[0] == copied.tokens && whole[1..] == out.fragments;
          SizesAppend(copied.tokens, Joined(out.fragments));
        } else {
          ExtractSize(names, strings, depth + 1, sawRoot, ts[1..]);
        }
      case End => ExtractSize(names, strings, depth - 1, sawRoot, ts[1..]);
      case Prop(_, _, _) | Nop => ExtractSize(names, strings, depth, sawRoot, ts[1..]);
      case Fin => assert false;
    }
  }

  /// The fragments are inserted once at most.
  lemma {:induction false} GraftSize(memory: seq<Token>, g: Graft, ts: seq<Token>)
    requires Fin !in ts && Fin !in memory && GraftTokens(memory, g, ts).Ok?
    ensures Sizes(GraftTokens(memory, g, ts).value) <= Sizes(ts) + if g.inserted then 0 else Sizes(memory)
    decreases |ts|
  {
    hide Skip, IsMemory, Size;
    if ts != [] {
      var t, rest := ts[0], ts[1..];
      match t
      case Begin(name, _) =>
        if g.depth == 1 && IsMemory(name) {
          SkipSize(0, ts);
          GraftSize(memory, g, Skip(0, ts).value);
        } else {
          var insert := g.depth == 1 && !g.inserted;
          var g' := Graft(g.depth + 1, g.depth == 0 || g.sawRoot, g.inserted || insert);
          GraftSize(memory, g', rest);
          EmittedSize(memory, insert, t, GraftTokens(memory, g', rest).value);
        }
      case End =>
        var insert := g.depth == 1 && !g.inserted;
        var g' := Graft(g.depth - 1, g.sawRoot, g.inserted || insert);
        GraftSize(memory, g', rest);
        EmittedSize(memory, insert, t, GraftTokens(memory, g', rest).value);
      case Prop(_, _, _) | Nop =>
        GraftSize(memory, g, rest);
        EmittedSize(memory, false, t, GraftTokens(memory, g, rest).value);
      case Fin => assert false;
    }
  }

  lemma EmittedSize(memory: seq<Token>, insert: bool, t: Token, rest: seq<Token>)
    ensures
      var emitted := if insert then memory + [t] else [t];
      Sizes(emitted + rest) == (if insert then Sizes(memory) else 0) + Size(t) + Sizes(rest)
  {
    hide Size;
    assert [t][1..] == [];
    SizesAppend(memory, [t]);
    SizesAppend(if insert then memory + [t] else [t], rest);
  }

  lemma BlockSize(structure: bytes)
    requires TokensFrom(structure, 0).Some?
    ensures AllWf(TokensFrom(structure, 0).value) && Sizes(TokensFrom(structure, 0).value) + 4 <= |structure|
  {
    TokensAreEncoded(structure, 0);
    EncAllSize(TokensFrom(structure, 0).value);
    hide TokensFrom, EncAll;
    assert structure[0..] == structure;
  }

  /// On two trees the graft of the blocks fails only for want of a memory node or of room for the strings.
  lemma GraftBlocksReturn(structure: bytes, names: bytes, liveStructure: bytes, liveNames: bytes)
    requires TreeOf(structure, names).Ok? && TreeOf(liveStructure, liveNames).Ok?
    requires |GrownAll(names, ForestEvents(MemoryNodes(TreeOf(liveStructure, liveNames).value.children)))| < U32_LIMIT
    ensures
      var out := GraftBlocks(structure, names, liveStructure, liveNames);
      var memory := MemoryNodes(TreeOf(liveStructure, liveNames).value.children);
      && (out.Ok? <==> memory != [])
      && (out.Ok? ==> AllWf(out.value.tokens) && Sizes(out.value.tokens) + 8 <= |structure| + |liveStructure|
                      && out.value.strings == GrownAll(names, ForestEvents(memory)))
  {
    hide Extract, GraftTokens, Resolve, WfTree, TokensFrom, Joined, Events, AllWf, Closes, MemoryNodes, ForestEvents, GrownAll, Sizes;
    var t, l := TreeOf(structure, names).value, TreeOf(liveStructure, liveNames).value;
    TreeOfExact(structure, names, t);
    TreeOfExact(liveStructure, liveNames, l);
    hide TreeOf;
    var ts, liveTokens := TokensFrom(structure, 0).value, TokensFrom(liveStructure, 0).value;
    BlockSize(structure);
    BlockSize(liveStructure);
    RootCloses(t) by { RootUnnamed(t); }
    RootCloses(l) by { RootUnnamed(l); }
    ExtractRoot(l);
    ExtractReturns(liveNames, names, 0, false, liveTokens);
    NoForestEvents(MemoryNodes(l.children));
    ExtractWf(liveNames, names, 0, false, liveTokens);
    ExtractSize(liveNames, names, 0, false, liveTokens);
    var memory := Joined(Extract(liveNames, names, 0, false, liveTokens).value.fragments);
    assert Fin !in memory by { NoFin(memory); }
    GraftTokensReturn(names, memory, GRAFT_START, ts);
    GraftTokensWf(memory, GRAFT_START, ts);
    GraftSize(memory, GRAFT_START, ts);
  }

  lemma RootUnnamed(t: Node)
    requires WfTree(t)
    ensures t.name == []
  {
  }

  lemma NoFin(ts: seq<Token>)
    requires AllWf(ts)
    ensures Fin !in ts
  {
  }

  lemma NoForestEvents(nodes: seq<Node>)
    ensures ForestEvents(nodes) == [] <==> nodes == []
  {
    hide PropEvents;
  }

  /// When there is room for both blobs, `graft_memory` returns exactly when the supplied blob has a
  /// terminated map and the live tree a memory node.
  lemma GraftReturns(dtb: bytes, liveDtb: bytes)
    requires ContractTree(dtb).Ok? && ContractTree(liveDtb).Ok?
    ensures StructBlock(dtb).Ok? && StringsBlock(dtb).Ok? && StructBlock(liveDtb).Ok?
    ensures
      var memory := MemoryNodes(ContractTree(liveDtb).value.children);
      (ReserveMap(dtb).Ok? ==>
         BlobSize(ReserveMap(dtb).value, |StructBlock(dtb).value| + |StructBlock(liveDtb).value|,
                  GrownAll(StringsBlock(dtb).value, ForestEvents(memory))) < U32_LIMIT) ==>
      (GraftedBlob(dtb, liveDtb).Ok? <==> ReserveMap(dtb).Ok? && memory != [])
  {
    var structure, names := StructBlock(dtb).value, StringsBlock(dtb).value;
    var liveStructure, liveNames := StructBlock(liveDtb).value, StringsBlock(liveDtb).value;
    var memory := MemoryNodes(ContractTree(liveDtb).value.children);
    hide TreeOf, ParseHeader, BuildDtb, ReserveMap, GraftBlocks, MemoryNodes, GrownAll, PaddedMap, ForestEvents, AllWf, Sizes, EncAll;
    if ReserveMap(dtb).Ok? && |GrownAll(names, ForestEvents(memory))| < U32_LIMIT {
      GraftBlocksReturn(structure, names, liveStructure, liveNames);
      var out := GraftBlocks(structure, names, liveStructure, liveNames);
      if out.Ok? {
        EncAllSize(out.value.tokens);
        BuildFits(ParseHeader(dtb).value, ReserveMap(dtb).value, EncAll(out.value.tokens) + Enc(Fin), out.value.strings);
      }
    }
  }
}
