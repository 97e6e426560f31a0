/// `patch_fdt` of `pocketpreboot/src/msm8916.rs` on whole blobs: the power-domain providers, the
/// strings block, and the exact condition under which a second run changes nothing.
module Msm8916Blob {
  import opened Bytes
  import opened Handoff
  import opened Tokens
  import opened Tree
  import opened Dtb
  import opened Contract
  import opened Msm8916
  import opened Msm8916Stream
  import opened Msm8916Again
  import PrebootFdt

  // The providers.

  const MAX_PROVIDERS := 64

  predicate KnownPhandle(providers: seq<Provider>, phandle: u32) { exists q <- providers :: q.phandle == phandle }

  function AddProvider(providers: seq<Provider>, psci: bool, cells: Option<bytes>, phandle: Option<u32>): Result<seq<Provider>> {
    if cells.None? then Ok(providers)
    else if |cells.value| != 4 then InvalidData
    else if phandle.None? then Ok(providers)
    else if phandle.value == 0 || phandle.value == U32_LIMIT - 1 || |providers| == MAX_PROVIDERS
            || KnownPhandle(providers, phandle.value) then InvalidData
    else Ok(providers + [Provider(phandle.value, De32(cells.value), psci)])
  }

  /// `node_phandle`.
  function PhandleOf(phandle: Option<bytes>, linux: Option<bytes>): Option<u32> {
    if FirstCell(phandle).Some? then FirstCell(phandle) else FirstCell(linux)
  }

  /// The recursive visit of `power_domain_providers`.
  function VisitNode(n: Node, parentPsci: bool, depth: nat, providers: seq<Provider>): Result<seq<Provider>>
    decreases n, 1
  {
    if depth >= MAX_PREBOOT_DEPTH then InvalidData
    else
      var psci := parentPsci || Msm8916.IsPsci(Get(n, COMPATIBLE));
      var here :- AddProvider(providers, psci, Get(n, POWER_DOMAIN_CELLS), PhandleOf(Get(n, PHANDLE), Get(n, LINUX_PHANDLE)));
      VisitForest(n.children, psci, depth + 1, here)
  }

  function VisitForest(nodes: seq<Node>, psci: bool, depth: nat, providers: seq<Provider>): Result<seq<Provider>>
    decreases nodes, 0
  {
    if nodes == [] then Ok(providers)
    else
      var first :- VisitNode(nodes[0], psci, depth, providers);
      VisitForest(nodes[1..], psci, depth, first)
  }

  lemma KeepsUntouched(p: Platform, c: Context, node: Node, name: bytes)
    requires Untouched(name) && Additions(p, c, SeenIn(node.props)).Ok?
    ensures GetProp(Additions(p, c, SeenIn(node.props)).value + Kept(c, node.props), name) == Get(node, name)
  {
    hide Additions, Untouched, Kept, Skips;
    UntouchedNotSkipped(c, name);
    PatchedGet(p, c, SeenIn(node.props), node.props, name);
  }

  /// Patching changes no provider.
  lemma {:induction false} VisitPatched(p: Platform, stack: seq<Context>, n: Node, parentPsci: bool, depth: nat, providers: seq<Provider>)
    requires PatchNode(p, stack, n).Ok?
    ensures VisitNode(PatchNode(p, stack, n).value, parentPsci, depth, providers) == VisitNode(n, parentPsci, depth, providers)
    decreases n, 1
  {
    hide Additions, ContextOf, Kept, AddProvider, PhandleOf, Msm8916.IsPsci, SeenIn, Untouched, GetProp, Bytes.Ascii;
    var n' := PatchNode(p, stack, n).value;
    var c := ContextOf(stack, n.name, SeenIn(n.props));
    NamesDiffer();
    KeepsUntouched(p, c, n, COMPATIBLE);
    KeepsUntouched(p, c, n, POWER_DOMAIN_CELLS);
    KeepsUntouched(p, c, n, PHANDLE);
    KeepsUntouched(p, c, n, LINUX_PHANDLE);
    assert Get(n', COMPATIBLE) == Get(n, COMPATIBLE);
    if depth < MAX_PREBOOT_DEPTH {
      var psci := parentPsci || Msm8916.IsPsci(Get(n, COMPATIBLE));
      var here := AddProvider(providers, psci, Get(n, POWER_DOMAIN_CELLS), PhandleOf(Get(n, PHANDLE), Get(n, LINUX_PHANDLE)));
      if here.Ok? {
        VisitForestPatched(p, stack + [c], n.children, psci, depth + 1, here.value);
      }
    }
  }

  lemma {:induction false} VisitForestPatched(p: Platform, stack: seq<Context>, nodes: seq<Node>, psci: bool, depth: nat,
                                              providers: seq<Provider>)
    requires PatchForest(p, stack, nodes).Ok?
    ensures VisitForest(PatchForest(p, stack, nodes).value, psci, depth, providers) == VisitForest(nodes, psci, depth, providers)
    decreases nodes, 0
  {
    hide PatchNode, VisitNode;
    if nodes != [] {
      VisitPatched(p, stack, nodes[0], psci, depth, providers);
      var first, rest := PatchNode(p, stack, nodes[0]).value, PatchForest(p, stack, nodes[1..]).value;
      assert ([first] + rest)[1..] == rest;
      if VisitNode(nodes[0], psci, depth, providers).Ok? {
        VisitForestPatched(p, stack, nodes[1..], psci, depth, VisitNode(nodes[0], psci, depth, providers).value);
      }
    }
  }

  /// The lookups of the code and of the tree agree on an encoded node.
  lemma LookupIsGet(b: bytes, strings: bytes, offset: nat, n: Node, tail: seq<Event>, name: bytes)
    requires PrebootFdt.At(b, strings, offset, PrebootFdt.Content(n.props, n.children, tail))
    ensures TokensFrom(b, offset).Some?
    ensures Lookup(strings, TokensFrom(b, offset).value, name) == Get(n, name)
  {
    hide TokensFrom, Resolve, Lookup, LookupEvents, PropEvents, ForestEvents;
    LookupSimulates(strings, TokensFrom(b, offset).value, name);
    ForestThen(n.children, tail);
    LookupInNode(n.props, ForestEvents(n.children) + ([Close] + tail), name);
  }

  /// `visit`, by recursion over the offsets of the children.
  method Visit(b: bytes, strings: bytes, offset: nat, parentPsci: bool, depth: nat, providers: seq<Provider>,
               ghost n: Node, ghost tail: seq<Event>)
    returns (r: Result<seq<Provider>>)
    ensures PrebootFdt.At(b, strings, offset, Events(n) + tail) && TokenAt(b, offset).Some? && TokenAt(b, offset).value.0.Begin?
            ==> r == VisitNode(n, parentPsci, depth, providers)
    decreases if depth <= MAX_PREBOOT_DEPTH then MAX_PREBOOT_DEPTH - depth else 0
  {
    hide TokenAt, PrebootFdt.At, Events, Lookup, AddProvider, PhandleOf, Msm8916.IsPsci, PrebootFdt.Content,
      PrebootFdt.Encodes, TokensFrom, GetProp;
    if depth >= MAX_PREBOOT_DEPTH {
      return InvalidData;
    }
    ghost var known := PrebootFdt.At(b, strings, offset, Events(n) + tail)
                       && TokenAt(b, offset).Some? && TokenAt(b, offset).value.0.Begin?;
    if known {
      PrebootFdt.AtStep(b, strings, offset, Events(n) + tail);
      PrebootFdt.NodeInside(n, tail);
    }
    var read := PrebootFdt.ReadToken(b, offset);
    if read.Failed? || !read.value.0.BeginAt? {
      return InvalidData;
    }
    var start := read.value.1;
    if known {
      LookupIsGet(b, strings, start, n, tail, COMPATIBLE);
      LookupIsGet(b, strings, start, n, tail, POWER_DOMAIN_CELLS);
      LookupIsGet(b, strings, start, n, tail, PHANDLE);
      LookupIsGet(b, strings, start, n, tail, LINUX_PHANDLE);
    }
    var compatible := LookupProp(b, strings, start, COMPATIBLE);
    var cells := LookupProp(b, strings, start, POWER_DOMAIN_CELLS);
    var phandle := LookupProp(b, strings, start, PHANDLE);
    var linux := LookupProp(b, strings, start, LINUX_PHANDLE);
    var psci := parentPsci || Msm8916.IsPsci(compatible);
    var here := AddProvider(providers, psci, cells, PhandleOf(phandle, linux));
    if here.InvalidData? {
      return InvalidData;
    }
    var found := here.value;
    var children := new PrebootFdt.Subnodes(b, start);
    ghost var props, nodes := n.props, n.children;
    while true
      invariant !children.done
      invariant known ==>
        && PrebootFdt.At(b, strings, children.cursor, PrebootFdt.Content(props, nodes, tail))
        && VisitNode(n, parentPsci, depth, providers) == VisitForest(nodes, psci, depth + 1, found)
      decreases |b| - children.cursor
    {
      var next := children.Next(strings, props, nodes, tail);
      if next.None? {
        return Ok(found);
      }
      if next.value.Failed? {
        return InvalidData;
      }
      var child := next.value.value;
      if known {
        EncodesBegin(b, strings, child, nodes[0]);
      }
      var inside := Visit(b, strings, child, psci, depth + 1, found,
                          if nodes == [] then NewNode([]) else nodes[0],
                          if nodes == [] then [] else PrebootFdt.Content([], nodes[1..], tail));
      if inside.InvalidData? {
        return InvalidData;
      }
      found := inside.value;
      props, nodes := [], if nodes == [] then [] else nodes[1..];
    }
  }

  lemma EncodesBegin(b: bytes, strings: bytes, offset: nat, n: Node)
    requires PrebootFdt.Encodes(b, strings, offset, n)
    ensures TokenAt(b, offset).Some? && TokenAt(b, offset).value.0.Begin?
  {
  }

  // The strings block.

  /// Empty, or ending in NUL.
  predicate Terminated(strings: bytes) { strings == [] || strings[|strings| - 1] == 0 }

  datatype Interned = Interned(offsets: seq<nat>, strings: bytes)

  /// `PatchStrings::new` and `write`: every name is looked up in the old block, and those that are
  /// missing are appended in order.
  function InternNames(base: bytes, strings: bytes, names: seq<bytes>): (r: Interned)
    ensures |r.offsets| == |names| && strings <= r.strings
    decreases |names|
  {
    if names == [] then Interned([], strings)
    else if FindString(base, names[0], 0).Some? then
      var rest := InternNames(base, strings, names[1..]);
      Interned([FindString(base, names[0], 0).value] + rest.offsets, rest.strings)
    else
      var rest := InternNames(base, strings + names[0] + [0], names[1..]);
      Interned([|strings|] + rest.offsets, rest.strings)
  }

  /// The loop of `PatchStrings::new`, and the block that `write` produces.
  method PatchStrings(base: bytes, names: seq<bytes>) returns (r: Interned)
    ensures r == InternNames(base, base, names)
  {
    var offsets: seq<nat>, strings := [], base;
    var i := 0;
    while i < |names|
      invariant 0 <= i <= |names|
      invariant InternNames(base, base, names) ==
        (var rest := InternNames(base, strings, names[i..]); Interned(offsets + rest.offsets, rest.strings))
    {
      assert names[i..][0] == names[i] && names[i..][1..] == names[i + 1..];
      var found := FindString(base, names[i], 0);
      ghost var rest := InternNames(base, if found.Some? then strings else strings + names[i] + [0], names[i + 1..]);
      var offset := if found.Some? then found.value else |strings|;
      assert offsets + ([offset] + rest.offsets) == offsets + [offset] + rest.offsets;
      offsets := offsets + [offset];
      if found.None? {
        strings := strings + names[i] + [0];
      }
      i := i + 1;
    }
    assert offsets + [] == offsets;
    return Interned(offsets, strings);
  }

  /// Nothing that is found moves when the block grows.
  lemma {:induction false} FindGrows(strings: bytes, more: bytes, name: bytes, cursor: nat)
    requires FindString(strings, name, cursor).Some?
    ensures FindString(strings + more, name, cursor) == FindString(strings, name, cursor)
    decreases |strings| - cursor
  {
    var end := FindNul(strings, cursor).value;
    FindNulIs(strings + more, cursor, end);
    assert (strings + more)[cursor..end] == strings[cursor..end];
    if strings[cursor..end] != name {
      FindGrows(strings, more, name, end + 1);
    }
  }

  /// A search that finds nothing in a terminated block goes on right behind it.
  lemma {:induction false} FindBehind(strings: bytes, more: bytes, name: bytes, cursor: nat)
    requires Terminated(strings) && cursor <= |strings| && FindString(strings, name, cursor).None?
    ensures FindString(strings + more, name, cursor) == FindString(strings + more, name, |strings|)
    decreases |strings| - cursor
  {
    if cursor < |strings| {
      assert strings[|strings| - 1] == 0;
      var end := FindNul(strings, cursor).value;
      FindNulIs(strings + more, cursor, end);
      assert (strings + more)[cursor..end] == strings[cursor..end];
      FindBehind(strings, more, name, end + 1);
    }
  }

  /// One name appended to a terminated block.
  lemma FindAppended(strings: bytes, item: bytes, name: bytes)
    requires Terminated(strings) && NulFree(item)
    ensures FindString(strings + item + [0], name, 0) ==
      if FindString(strings, name, 0).Some? then FindString(strings, name, 0)
      else if name == item then Some(|strings|) else None
  {
    var more := item + [0];
    var all := strings + more;
    assert all == strings + item + [0];
    if FindString(strings, name, 0).Some? {
      FindGrows(strings, more, name, 0);
    } else {
      FindBehind(strings, more, name, 0);
      var end := |strings| + |item|;
      assert forall i :: 0 <= i < |item| ==> all[|strings| + i] == item[i];
      FindNulIs(all, |strings|, end);
      assert all[|strings|..end] == item;
    }
  }

  predicate Distinct(names: seq<bytes>) { forall i, j :: 0 <= i < j < |names| ==> names[i] != names[j] }

  ghost predicate AllNulFree(names: seq<bytes>) { forall n <- names :: NulFree(n) }

  /// Names found in the old block, or appended to it already, keep their place.
  lemma {:induction false} InternKeeps(base: bytes, strings: bytes, names: seq<bytes>, name: bytes)
    requires Terminated(strings) && AllNulFree(names)
    ensures Terminated(InternNames(base, strings, names).strings)
    ensures
      var found := FindString(strings, name, 0);
      found.Some? ==> FindString(InternNames(base, strings, names).strings, name, 0) == found
    ensures FindString(strings, name, 0).None? && name !in names ==>
      FindString(InternNames(base, strings, names).strings, name, 0).None?
    decreases |names|
  {
    hide FindString;
    if names != [] {
      assert names[0] in names;
      if FindString(base, names[0], 0).Some? {
        InternKeeps(base, strings, names[1..], name);
      } else {
        FindAppended(strings, names[0], name);
        InternKeeps(base, strings + names[0] + [0], names[1..], name);
      }
    }
  }

  /// In a terminated block every name is found afterwards at the offset it was given.
  lemma {:induction false} InternFinds(base: bytes, strings: bytes, names: seq<bytes>)
    requires Terminated(strings) && AllNulFree(names) && Distinct(names)
    requires base <= strings && forall n <- names :: FindString(strings, n, 0) == FindString(base, n, 0)
    ensures
      var r := InternNames(base, strings, names);
      forall i :: 0 <= i < |names| ==> FindString(r.strings, names[i], 0) == Some(r.offsets[i])
    decreases |names|
  {
    hide FindString;
    if names != [] {
      var n, rest := names[0], names[1..];
      assert n in names;
      if FindString(base, n, 0).Some? {
        InternFinds(base, strings, rest);
        InternKeeps(base, strings, rest, n);
      } else {
        var grown := strings + n + [0];
        FindAppended(strings, n, n);
        forall m <- rest ensures FindString(grown, m, 0) == FindString(base, m, 0) {
          FindAppended(strings, n, m);
          assert m in names && m != n;
        }
        InternFinds(base, grown, rest);
        InternKeeps(base, grown, rest, n);
      }
    }
  }

  /// When all names are found, nothing is appended.
  lemma {:induction false} InternAll(base: bytes, strings: bytes, names: seq<bytes>, offsets: seq<nat>)
    requires |offsets| == |names| && forall i :: 0 <= i < |names| ==> FindString(base, names[i], 0) == Some(offsets[i])
    ensures InternNames(base, strings, names) == Interned(offsets, strings)
    decreases |names|
  {
    if names != [] {
      InternAll(base, strings, names[1..], offsets[1..]);
      assert [offsets[0]] + offsets[1..] == offsets;
    }
  }

  /// Every offset names its string, whether or not the old block was terminated.
  lemma {:induction false} InternMeaning(base: bytes, strings: bytes, names: seq<bytes>)
    requires base <= strings && AllNulFree(names)
    ensures
      var r := InternNames(base, strings, names);
      forall i :: 0 <= i < |names| ==> StringAt(r.strings, r.offsets[i]) == Some(names[i])
    decreases |names|
  {
    hide FindString, StringAt;
    if names != [] {
      var n, rest := names[0], names[1..];
      assert n in names;
      var r := InternNames(base, strings, names);
      if FindString(base, n, 0).Some? {
        FindStringMeaning(base, n, 0);
        InternMeaning(base, strings, rest);
        StringAtGrows(base, r.strings[|base|..], FindString(base, n, 0).value);
        assert r.strings == base + r.strings[|base|..];
      } else {
        var grown := strings + n + [0];
        InternMeaning(base, grown, rest);
        StringAtIs(strings, n, r.strings[|grown|..]);
        assert r.strings == grown + r.strings[|grown|..];
      }
    }
  }

  /// In a block that ends in the middle of a string, the first name appended runs into that string,
  /// so it is not found again.
  lemma {:induction false} MergedIsLost(head: bytes, tail: bytes, names: seq<bytes>, base: bytes)
    requires Terminated(head) && NulFree(tail) && tail != [] && base == head + tail
    requires AllNulFree(names) && Distinct(names)
    requires exists i :: 0 <= i < |names| && FindString(base, names[i], 0).None?
    ensures exists i :: 0 <= i < |names| && FindString(InternNames(base, base, names).strings, names[i], 0).None?
    decreases |names|
  {
    hide FindString;
    var n, rest := names[0], names[1..];
    assert n in names;
    if FindString(base, n, 0).Some? {
      var i :| 0 <= i < |names| && FindString(base, names[i], 0).None?;
      assert rest[i - 1] == names[i];
      MergedIsLost(head, tail, rest, base);
      var j :| 0 <= j < |rest| && FindString(InternNames(base, base, rest).strings, rest[j], 0).None?;
      assert names[j + 1] == rest[j];
    } else {
      if FindString(head, n, 0).Some? {
        FindGrows(head, tail, n, 0);
      }
      var item := tail + n;
      assert head + item + [0] == base + n + [0];
      assert |item| > |n|;
      FindAppended(head, item, n);
      InternKeeps(base, base + n + [0], rest, n);
      assert names[0] == n;
    }
  }

  /// Splits a block after its last NUL.
  lemma {:induction false} SplitAtNul(strings: bytes) returns (head: bytes, tail: bytes)
    ensures strings == head + tail && Terminated(head) && NulFree(tail)
    ensures Terminated(strings) <==> tail == []
  {
    if strings == [] || strings[|strings| - 1] == 0 {
      head, tail := strings, [];
    } else {
      var n := |strings| - 1;
      var h, t := SplitAtNul(strings[..n]);
      head, tail := h, t + [strings[n]];
      assert strings == strings[..n] + [strings[n]];
    }
  }

  // The blob.

  /// `Header::parse`.
  function ParsePreboot(dtb: bytes): Result<Header> {
    var h :- ParseHeader(dtb);
    if h.version < 17 || h.lastCompVersion > 17 || h.offDtStruct < HEADER_SIZE || h.offDtStruct % 4 != 0
       || h.offDtStrings < HEADER_SIZE || h.offMemRsvmap < HEADER_SIZE || h.offMemRsvmap % 8 != 0 then InvalidData
    else Ok(h)
  }

  /// The blocks that the patcher reads and writes.
  datatype Blocks = Blocks(header: Header, reserveMap: bytes, structure: bytes, strings: bytes)

  function ReadBlocks(dtb: bytes): Result<Blocks> {
    var header :- ParsePreboot(dtb);
    var reserveMap :- ReserveMap(dtb);
    var structure :- StructBlock(dtb);
    var strings :- StringsBlock(dtb);
    Ok(Blocks(header, reserveMap, structure, strings))
  }

  /// The structure block starts with a node and encodes this tree.
  ghost predicate BlocksDenote(b: Blocks, t: Node) {
    && TokenAt(b.structure, 0).Some? && TokenAt(b.structure, 0).value.0.Begin?
    && PrebootFdt.At(b.structure, b.strings, 0, Events(t))
  }

  /// The blob has this tree.
  ghost predicate Denotes(dtb: bytes, t: Node) { ReadBlocks(dtb).Ok? && BlocksDenote(ReadBlocks(dtb).value, t) }

  /// The patched tokens, for the providers of this tree.
  function PatchedTokens(b: Blocks, t: Node, offsets: Offsets, table: u32): (r: Result<seq<Token>>)
    ensures r.Ok? ==> AllWf(r.value)
  {
    var providers :- VisitNode(t, false, 0, []);
    var ts := TokensFrom(b.structure, 0);
    if ts.None? then InvalidData
    else
      var p := Platform(providers, table);
      var out := PatchFrom(p, b.strings, offsets, [], ts.value);
      assert out.Ok? ==> AllWf(out.value) by {
        if out.Ok? {
          TokensAreEncoded(b.structure, 0);
          PatchFromWf(p, b.strings, offsets, [], ts.value);
        }
      }
      out
  }

  /// `u32_len` on every offset.
  function AsOffsets(offsets: seq<nat>): (r: Result<Offsets>)
    ensures r.Ok? ==> r.value == offsets
  {
    if |offsets| != 5 || exists o <- offsets :: o >= U32_LIMIT then InvalidData
    else
      assert forall i :: 0 <= i < 5 ==> offsets[i] in offsets;
      var o: Offsets := [offsets[0], offsets[1], offsets[2], offsets[3], offsets[4]];
      Ok(o)
  }

  function Encoded(tokens: seq<Token>): bytes
    requires AllWf(tokens)
  {
    EncAll(tokens) + Enc(Fin)
  }

  function PatchBlocks(b: Blocks, t: Node, table: u32): Result<Blocks> {
    var interned := InternNames(b.strings, b.strings, PATCH_NAMES);
    var offsets :- AsOffsets(interned.offsets);
    var tokens :- PatchedTokens(b, t, offsets, table);
    Ok(Blocks(b.header, b.reserveMap, Encoded(tokens), interned.strings))
  }

  function WriteBlocks(b: Blocks, capacity: nat): Result<bytes> {
    var out :- BuildDtb(b.header, b.reserveMap, b.structure, b.strings);
    if |out| > capacity then InvalidData else Ok(out)
  }

  /// `patch_fdt` into a buffer of `capacity` bytes, for a blob that has the tree `t`.
  function PatchedFdt(dtb: bytes, t: Node, capacity: nat, table: u32): Result<bytes> {
    var b :- ReadBlocks(dtb);
    var patched :- PatchBlocks(b, t, table);
    WriteBlocks(patched, capacity)
  }

  /// `patch_fdt`.
  method PatchFdt(dtb: bytes, capacity: nat, table: u32, ghost t: Node) returns (r: Result<bytes>)
    ensures ReadBlocks(dtb).InvalidData? ==> r == InvalidData
    ensures Denotes(dtb, t) ==> r == PatchedFdt(dtb, t, capacity, table)
  {
    hide ReserveMap, BuildDtb, InternNames, VisitNode, PatchFrom, EncAll, Enc, Events, TokenAt, PrebootFdt.At, ParseHeader,
      TokensFrom, AsOffsets, AllWf;
    var header := ParsePreboot(dtb);
    if header.InvalidData? {
      return InvalidData;
    }
    var reserveMap := ReadReserveMap(dtb);
    if reserveMap.InvalidData? {
      return InvalidData;
    }
    var structure, strings := StructBlock(dtb).value, StringsBlock(dtb).value;
    var interned := PatchStrings(strings, PATCH_NAMES);
    var offsets := AsOffsets(interned.offsets);
    if offsets.InvalidData? {
      return InvalidData;
    }
    assert Events(t) + [] == Events(t);
    var providers := Visit(structure, strings, 0, false, 0, [], t, []);
    if providers.InvalidData? {
      return InvalidData;
    }
    var block := PatchStructure(structure, strings, offsets.value, Platform(providers.value, table));
    if block.InvalidData? {
      return InvalidData;
    }
    var out := BuildDtb(header.value, reserveMap.value, block.value, interned.strings);
    if out.InvalidData? || |out.value| > capacity {
      return InvalidData;
    }
    return out;
  }

  // What a patched blob means.

  /// The rewritten tree, for the providers of the tree itself.
  function PatchTree(t: Node, table: u32): Result<Node> {
    var providers :- VisitNode(t, false, 0, []);
    PatchNode(Platform(providers, table), [], t)
  }

  lemma InternedNames(strings: bytes, offsets: Offsets)
    requires InternNames(strings, strings, PATCH_NAMES).offsets == offsets
    ensures Names(InternNames(strings, strings, PATCH_NAMES).strings, offsets)
  {
    hide StringAt, InternNames, Bytes.Ascii;
    NamesNulFree();
    InternMeaning(strings, strings, PATCH_NAMES);
  }

  lemma EncodedAt(tokens: seq<Token>, strings: bytes, t: Node)
    requires AllWf(tokens) && Resolve(strings, tokens) == Some(Events(t))
    ensures TokensFrom(Encoded(tokens), 0) == Some(tokens)
    ensures PrebootFdt.At(Encoded(tokens), strings, 0, Events(t))
  {
    hide AllWf, Enc, EncAll, Resolve, Events, TokensFrom;
    EncodedIsTokens([], tokens, []);
    assert [] + EncAll(tokens) + Enc(Fin) + [] == EncAll(tokens) + Enc(Fin);
  }

  lemma FirstBegin(p: Platform, strings: bytes, offsets: Offsets, structure: bytes)
    requires TokenAt(structure, 0).Some? && TokenAt(structure, 0).value.0.Begin?
    requires TokensFrom(structure, 0).Some? && PatchFrom(p, strings, offsets, [], TokensFrom(structure, 0).value).Ok?
    ensures
      var out := PatchFrom(p, strings, offsets, [], TokensFrom(structure, 0).value).value;
      out != [] && out[0].Begin?
  {
    hide TokenAt, TokensFrom, PatchFrom, SeenAt, ContextOf, Additions, PropTokens;
    TokensStep(structure, 0);
    PatchStep(p, strings, offsets, [], TokensFrom(structure, 0).value);
  }

  lemma EncodedBegin(tokens: seq<Token>)
    requires AllWf(tokens) && tokens != [] && tokens[0].Begin?
    ensures TokenAt(Encoded(tokens), 0).Some? && TokenAt(Encoded(tokens), 0).value.0.Begin?
  {
    assert Wf(tokens[0]) && Wf(Fin) && AllWf(tokens[1..]);
    assert EncAll(tokens) == Enc(tokens[0]) + EncAll(tokens[1..]);
    hide Enc, TokenAt, Wf, EncAll, AllWf;
    var tail := EncAll(tokens[1..]) + Enc(Fin);
    SliceIsToken([], tokens[0], tail);
    Assoc(Enc(tokens[0]), EncAll(tokens[1..]), Enc(Fin));
    EmptyConcat(Enc(tokens[0]));
  }

  lemma StreamsGrown(p: Platform, strings: bytes, grown: bytes, offsets: Offsets, ts: seq<Token>, t: Node)
    requires strings <= grown && Fin !in ts && Resolve(strings, ts) == Some(Events(t)) && Names(grown, offsets)
    requires PatchFrom(p, strings, offsets, [], ts).Ok?
    ensures PatchNode(p, [], t).Ok?
    ensures Resolve(grown, PatchFrom(p, strings, offsets, [], ts).value) == Some(Events(PatchNode(p, [], t).value))
    ensures PatchFrom(p, grown, offsets, [], PatchFrom(p, strings, offsets, [], ts).value)
      == PatchFrom(p, strings, offsets, [], ts)
  {
    hide PatchFrom, Names, Resolve, Events, PatchNode;
    var more := grown[|strings|..];
    assert grown == strings + more;
    StreamIsTreeRewrite(p, strings, more, offsets, ts, t);
    PatchAgain(p, strings, more, offsets, [], ts);
  }

  /// The parts of a successful patch.
  lemma PatchedParts(b: Blocks, t: Node, table: u32)
    returns (offsets: Offsets, tokens: seq<Token>, grown: bytes, p: Platform)
    requires PatchBlocks(b, t, table).Ok?
    ensures AllWf(tokens) && VisitNode(t, false, 0, []) == Ok(p.providers) && p.table == table
    ensures InternNames(b.strings, b.strings, PATCH_NAMES) == Interned(offsets, grown)
    ensures TokensFrom(b.structure, 0).Some?
    ensures PatchFrom(p, b.strings, offsets, [], TokensFrom(b.structure, 0).value) == Ok(tokens)
    ensures PatchBlocks(b, t, table).value == Blocks(b.header, b.reserveMap, Encoded(tokens), grown)
  {
    hide InternNames, AsOffsets, VisitNode, TokensFrom, PatchFrom, AllWf, Encoded;
    var interned := InternNames(b.strings, b.strings, PATCH_NAMES);
    offsets := AsOffsets(interned.offsets).value;
    tokens := PatchedTokens(b, t, offsets, table).value;
    grown := interned.strings;
    p := Platform(VisitNode(t, false, 0, []).value, table);
  }

  /// Patched blocks denote the rewritten tree; its providers are those of the tree.
  lemma PatchedDenotes(b: Blocks, t: Node, table: u32)
    requires BlocksDenote(b, t) && PatchBlocks(b, t, table).Ok?
    ensures PatchTree(t, table).Ok?
    ensures BlocksDenote(PatchBlocks(b, t, table).value, PatchTree(t, table).value)
    ensures VisitNode(PatchTree(t, table).value, false, 0, []) == VisitNode(t, false, 0, [])
  {
    hide InternNames, AsOffsets, VisitNode, TokensFrom, PatchFrom, AllWf, Encoded, PatchBlocks, PatchNode, TokenAt, Events, Resolve,
      Names;
    var offsets, tokens, grown, p := PatchedParts(b, t, table);
    InternedNames(b.strings, offsets);
    StreamsGrown(p, b.strings, grown, offsets, TokensFrom(b.structure, 0).value, t);
    EncodedAt(tokens, grown, PatchNode(p, [], t).value);
    FirstBegin(p, b.strings, offsets, b.structure);
    EncodedBegin(tokens);
    VisitPatched(p, [], t, false, 0, []);
  }

  /// All five names stand in the block.
  predicate AllInterned(strings: bytes) { forall n <- PATCH_NAMES :: FindString(strings, n, 0).Some? }

  /// A block that ends between strings, or that needs no new string.
  predicate Settled(strings: bytes) { Terminated(strings) || AllInterned(strings) }

  lemma NamesDistinct()
    ensures Distinct(PATCH_NAMES) && AllNulFree(PATCH_NAMES)
  {
    NamesDiffer();
    NamesNulFree();
    hide Bytes.Ascii, Bytes.NulFree;
  }

  lemma {:induction false} InternGrows(base: bytes, strings: bytes, names: seq<bytes>)
    ensures InternNames(base, strings, names).strings == strings ==> forall n <- names :: FindString(base, n, 0).Some?
    ensures |InternNames(base, strings, names).strings| >= |strings|
    decreases |names|
  {
    hide FindString;
    if names != [] {
      if FindString(base, names[0], 0).Some? {
        InternGrows(base, strings, names[1..]);
      } else {
        InternGrows(base, strings + names[0] + [0], names[1..]);
      }
    }
  }

  lemma OffsetsOfFound(strings: bytes, names: seq<bytes>)
    requires forall n <- names :: FindString(strings, n, 0).Some?
    ensures
      var r := InternNames(strings, strings, names);
      InternNames(r.strings, r.strings, names) == r && r.strings == strings
  {
    hide FindString;
    var offsets := seq(|names|, i requires 0 <= i < |names| => assert names[i] in names; FindString(strings, names[i], 0).value);
    InternAll(strings, strings, names, offsets);
  }

  /// Interning the names again finds them all, at the same places, exactly when the block was settled.
  lemma InternTwice(strings: bytes)
    ensures
      var r := InternNames(strings, strings, PATCH_NAMES);
      && (Settled(strings) ==> InternNames(r.strings, r.strings, PATCH_NAMES) == r)
      && (!Settled(strings) ==> InternNames(r.strings, r.strings, PATCH_NAMES).strings != r.strings)
  {
    hide FindString, InternNames, Bytes.Ascii;
    NamesDistinct();
    var r := InternNames(strings, strings, PATCH_NAMES);
    if AllInterned(strings) {
      OffsetsOfFound(strings, PATCH_NAMES);
    } else if Terminated(strings) {
      InternFinds(strings, strings, PATCH_NAMES);
      InternAll(r.strings, r.strings, PATCH_NAMES, r.offsets);
    } else {
      var head, tail := SplitAtNul(strings);
      var n :| n in PATCH_NAMES && FindString(strings, n, 0).None?;
      var i :| 0 <= i < |PATCH_NAMES| && PATCH_NAMES[i] == n;
      MergedIsLost(head, tail, PATCH_NAMES, strings);
      var j :| 0 <= j < |PATCH_NAMES| && FindString(r.strings, PATCH_NAMES[j], 0).None?;
      assert PATCH_NAMES[j] in PATCH_NAMES;
      InternGrows(r.strings, r.strings, PATCH_NAMES);
    }
  }

  /// Patching patched blocks changes nothing exactly when the strings block was settled.
  lemma PatchBlocksTwice(b: Blocks, t: Node, table: u32)
    requires BlocksDenote(b, t) && PatchBlocks(b, t, table).Ok? && PatchTree(t, table).Ok?
    ensures
      var once, t' := PatchBlocks(b, t, table), PatchTree(t, table).value;
      && (Settled(b.strings) ==> PatchBlocks(once.value, t', table) == once)
      && (!Settled(b.strings) && PatchBlocks(once.value, t', table).Ok? ==>
            PatchBlocks(once.value, t', table).value.strings != once.value.strings)
  {
    hide InternNames, VisitNode, TokensFrom, PatchFrom, AllWf, Encoded, PatchBlocks, PatchNode, TokenAt, Events, Resolve,
      Names, Settled;
    var offsets, tokens, grown, p := PatchedParts(b, t, table);
    var once, t' := PatchBlocks(b, t, table).value, PatchTree(t, table).value;
    PatchedDenotes(b, t, table);
    InternedNames(b.strings, offsets);
    StreamsGrown(p, b.strings, grown, offsets, TokensFrom(b.structure, 0).value, t);
    EncodedAt(tokens, grown, PatchNode(p, [], t).value);
    InternTwice(b.strings);
    if Settled(b.strings) {
      PatchBlocksIs(once, t', table, p, offsets, tokens);
    } else if PatchBlocks(once, t', table).Ok? {
      var _, _, again, _ := PatchedParts(once, t', table);
    }
  }

  lemma PatchBlocksIs(b: Blocks, t: Node, table: u32, p: Platform, offsets: Offsets, tokens: seq<Token>)
    requires VisitNode(t, false, 0, []) == Ok(p.providers) && p.table == table && AllWf(tokens)
    requires InternNames(b.strings, b.strings, PATCH_NAMES) == Interned(offsets, b.strings)
    requires TokensFrom(b.structure, 0).Some? && b.structure == Encoded(tokens)
    requires PatchFrom(p, b.strings, offsets, [], TokensFrom(b.structure, 0).value) == Ok(tokens)
    ensures PatchBlocks(b, t, table) == Ok(b)
  {
    hide InternNames, VisitNode, TokensFrom, PatchFrom, AllWf, Encoded;
  }

  lemma MapNonempty(dtb: bytes)
    requires ReserveMap(dtb).Ok?
    ensures ReserveMap(dtb).value != [] && MapOk(ReserveMap(dtb).value)
  {
    ReadMapOk(dtb);
  }

  /// Blocks that a blob was read from and that were then written are read back.
  lemma WrittenIsRead(dtb: bytes, b: Blocks, capacity: nat)
    requires ReadBlocks(dtb).Ok? && WriteBlocks(b, capacity).Ok?
    requires b.header == ReadBlocks(dtb).value.header && b.reserveMap == ReadBlocks(dtb).value.reserveMap
    ensures
      var out := WriteBlocks(b, capacity).value;
      && ReadBlocks(out).Ok?
      && var again := ReadBlocks(out).value;
      && again.reserveMap == b.reserveMap && again.structure == b.structure && again.strings == b.strings
      && again.header.version == b.header.version && again.header.lastCompVersion == b.header.lastCompVersion
      && again.header.bootCpuidPhys == b.header.bootCpuidPhys
  {
    hide BuildDtb, ParseHeader, ReserveMap;
    MapNonempty(dtb);
    BuiltBlocks(b.header, b.reserveMap, b.structure, b.strings);
    BuiltMap(b.header, b.reserveMap, b.structure, b.strings);
    assert (HEADER_SIZE + |PaddedMap(b.reserveMap)|) % 4 == 0;
  }

  /// Writing depends on the version and boot CPU of the header only.
  lemma WriteSame(b: Blocks, c: Blocks, capacity: nat)
    requires b.reserveMap == c.reserveMap && b.structure == c.structure && b.strings == c.strings
    requires b.header.version == c.header.version && b.header.lastCompVersion == c.header.lastCompVersion
    requires b.header.bootCpuidPhys == c.header.bootCpuidPhys
    ensures WriteBlocks(b, capacity) == WriteBlocks(c, capacity)
  {
  }

  lemma PatchKeepsHeader(b: Blocks, t: Node, table: u32)
    requires PatchBlocks(b, t, table).Ok?
    ensures PatchBlocks(b, t, table).value.header == b.header && PatchBlocks(b, t, table).value.reserveMap == b.reserveMap
  {
    hide InternNames, AsOffsets, PatchedTokens, Encoded;
  }

  /// A patched blob has the rewritten tree, and the reservation map and boot CPU of the input.
  lemma PatchedFdtMeaning(dtb: bytes, t: Node, capacity: nat, table: u32)
    requires Denotes(dtb, t) && PatchedFdt(dtb, t, capacity, table).Ok?
    ensures PatchTree(t, table).Ok?
    ensures
      var out := PatchedFdt(dtb, t, capacity, table).value;
      && Denotes(out, PatchTree(t, table).value)
      && ReserveMap(out) == ReserveMap(dtb)
      && ParsePreboot(out).value.bootCpuidPhys == ParsePreboot(dtb).value.bootCpuidPhys
  {
    hide PatchBlocks, PatchTree, WriteBlocks, ParsePreboot, ReserveMap, TokenAt, Events, PrebootFdt.At;
    var b := ReadBlocks(dtb).value;
    PatchedDenotes(b, t, table);
    PatchKeepsHeader(b, t, table);
    WrittenIsRead(dtb, PatchBlocks(b, t, table).value, capacity);
  }

  /// `patch_fdt` on its own output gives the same bytes exactly when the strings block of the input
  /// was empty, ended in NUL, or already held the five names.
  lemma PatchFdtTwice(dtb: bytes, t: Node, capacity: nat, table: u32)
    requires Denotes(dtb, t) && PatchedFdt(dtb, t, capacity, table).Ok?
    ensures PatchTree(t, table).Ok?
    ensures
      var out := PatchedFdt(dtb, t, capacity, table);
      PatchedFdt(out.value, PatchTree(t, table).value, capacity, table) == out <==> Settled(StringsBlock(dtb).value)
  {
    hide PatchBlocks, PatchTree, WriteBlocks, ParsePreboot, ReserveMap, BlocksDenote, Settled, StringsBlock, StructBlock;
    var b := ReadBlocks(dtb).value;
    var once := PatchBlocks(b, t, table).value;
    var out := PatchedFdt(dtb, t, capacity, table).value;
    PatchedDenotes(b, t, table);
    PatchKeepsHeader(b, t, table);
    WrittenIsRead(dtb, once, capacity);
    var again := ReadBlocks(out).value;
    var t' := PatchTree(t, table).value;
    HeaderIrrelevant(once, again, t', table);
    PatchBlocksTwice(b, t, table);
    var twice := PatchBlocks(again, t', table);
    if Settled(b.strings) {
      WriteSame(once, twice.value, capacity);
    } else if twice.Ok? && WriteBlocks(twice.value, capacity).Ok? {
      PatchKeepsHeader(again, t', table);
      WrittenIsRead(out, twice.value, capacity);
    }
  }

  /// The header does not matter to the patch.
  lemma HeaderIrrelevant(b: Blocks, c: Blocks, t: Node, table: u32)
    requires b.reserveMap == c.reserveMap && b.structure == c.structure && b.strings == c.strings
    ensures PatchBlocks(b, t, table).Ok? <==> PatchBlocks(c, t, table).Ok?
    ensures PatchBlocks(b, t, table).Ok? ==>
      PatchBlocks(c, t, table).value == PatchBlocks(b, t, table).value.(header := c.header)
  {
    hide InternNames, AsOffsets, Encoded, VisitNode, TokensFrom, PatchFrom, AllWf;
  }
}
