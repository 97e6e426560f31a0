/// What `graft_memory` of `src/kexec.rs` leaves of both devicetrees, child by child.
module MemoryMeaning {
  import opened Bytes
  import opened Tokens
  import opened Tree
  import opened Dtb
  import opened Contract
  import opened FormatMeaning
  import Memory

  /// The names of memory nodes: `memory`, with or without a unit address.
  predicate NamesMemory(name: bytes) {
    name == Ascii("memory") || (|name| >= 7 && name[..7] == Ascii("memory@"))
  }

  lemma NameMeaning(name: bytes)
    ensures Memory.IsMemory(name) <==> NamesMemory(name)
  {
  }

  /// How many of the first `i` nodes are memory nodes.
  function MemoryBefore(nodes: seq<Node>, i: nat): (n: nat)
    requires i <= |nodes|
    ensures n <= i
  {
    if i == 0 then 0 else MemoryBefore(nodes, i - 1) + if NamesMemory(nodes[i - 1].name) then 1 else 0
  }

  /// The children are the memory nodes of the live tree and then the other nodes of the supplied tree, both
  /// in their order.
  ghost predicate GraftedIs(now: Node, root: Node, live: Node) {
    && now.name == root.name && now.props == root.props
    && var memory, dropped := MemoryBefore(live.children, |live.children|), MemoryBefore(root.children, |root.children|);
    && |now.children| == memory + |root.children| - dropped
    && (forall i :: 0 <= i < |live.children| && NamesMemory(live.children[i].name) ==>
          var k := MemoryBefore(live.children, i);
          k < memory && now.children[k] == live.children[i])
    && (forall i :: 0 <= i < |root.children| && !NamesMemory(root.children[i].name) ==>
          var k := memory + i - MemoryBefore(root.children, i);
          k < |now.children| && now.children[k] == root.children[i])
  }

  lemma {:induction false} CountTail(nodes: seq<Node>, i: nat)
    requires 0 < i <= |nodes|
    ensures MemoryBefore(nodes, i) == MemoryBefore(nodes[1..], i - 1) + if NamesMemory(nodes[0].name) then 1 else 0
  {
    hide NamesMemory;
    if i > 1 {
      CountTail(nodes, i - 1);
    }
  }

  lemma {:induction false} Counts(nodes: seq<Node>)
    ensures |Memory.MemoryNodes(nodes)| == MemoryBefore(nodes, |nodes|)
    ensures |Memory.OtherNodes(nodes)| == |nodes| - MemoryBefore(nodes, |nodes|)
  {
    hide NamesMemory, Memory.IsMemory;
    if nodes != [] {
      NameMeaning(nodes[0].name);
      Counts(nodes[1..]);
      CountTail(nodes, |nodes|);
    }
  }

  lemma {:induction false} MemoryPlace(nodes: seq<Node>, i: nat)
    requires i < |nodes| && NamesMemory(nodes[i].name)
    ensures
      var k, memory := MemoryBefore(nodes, i), Memory.MemoryNodes(nodes);
      k < |memory| && memory[k] == nodes[i]
  {
    hide NamesMemory, Memory.IsMemory;
    NameMeaning(nodes[0].name);
    if i > 0 {
      MemoryPlace(nodes[1..], i - 1);
      CountTail(nodes, i);
    }
  }

  lemma {:induction false} OtherPlace(nodes: seq<Node>, i: nat)
    requires i < |nodes| && !NamesMemory(nodes[i].name)
    ensures
      var k, others := i - MemoryBefore(nodes, i), Memory.OtherNodes(nodes);
      k < |others| && others[k] == nodes[i]
  {
    hide NamesMemory, Memory.IsMemory;
    NameMeaning(nodes[0].name);
    if i > 0 {
      OtherPlace(nodes[1..], i - 1);
      CountTail(nodes, i);
    }
  }

  lemma GraftedTreeMeaning(root: Node, live: Node)
    ensures GraftedIs(Memory.GraftTree(root, live), root, live)
  {
    hide NamesMemory, Memory.IsMemory, MemoryBefore;
    var l, r := live.children, root.children;
    Counts(l);
    Counts(r);
    forall i | 0 <= i < |l| && NamesMemory(l[i].name)
      ensures MemoryBefore(l, i) < |Memory.MemoryNodes(l)| && Memory.MemoryNodes(l)[MemoryBefore(l, i)] == l[i]
    {
      MemoryPlace(l, i);
    }
    forall i | 0 <= i < |r| && !NamesMemory(r[i].name)
      ensures i - MemoryBefore(r, i) < |Memory.OtherNodes(r)| && Memory.OtherNodes(r)[i - MemoryBefore(r, i)] == r[i]
    {
      OtherPlace(r, i);
    }
  }

  lemma GraftedHeader(dtb: bytes, liveDtb: bytes)
    requires Memory.GraftedBlob(dtb, liveDtb).Ok?
    ensures HeaderKept(Memory.GraftedBlob(dtb, liveDtb).value, dtb)
  {
    hide ParseHeader, ReserveMap, BuildDtb, Memory.GraftBlocks, HeaderKept;
    var structure, names := StructBlock(dtb).value, StringsBlock(dtb).value;
    var liveStructure, liveNames := StructBlock(liveDtb).value, StringsBlock(liveDtb).value;
    var out := Memory.GraftBlocks(structure, names, liveStructure, liveNames).value;
    Memory.GraftBlocksWf(structure, names, liveStructure, liveNames);
    BuiltHeader(dtb, ReserveMap(dtb).value, EncAll(out.tokens) + Enc(Fin), out.strings);
  }

  /// The grafted blob parses to this tree, and its header is the supplied one.
  lemma GraftedBlobMeaning(dtb: bytes, liveDtb: bytes)
    requires ContractTree(dtb).Ok? && ContractTree(liveDtb).Ok? && Memory.GraftedBlob(dtb, liveDtb).Ok?
    ensures
      var out := Memory.GraftedBlob(dtb, liveDtb).value;
      && ContractTree(out).Ok? && GraftedIs(ContractTree(out).value, ContractTree(dtb).value, ContractTree(liveDtb).value)
      && HeaderKept(out, dtb)
  {
    hide *;
    Memory.GraftMemoryMeaning(dtb, liveDtb);
    GraftedTreeMeaning(ContractTree(dtb).value, ContractTree(liveDtb).value);
    GraftedHeader(dtb, liveDtb);
  }

  /// The live tree has a memory node exactly when the list of them is not empty.
  lemma SomeMemory(nodes: seq<Node>)
    ensures Memory.MemoryNodes(nodes) != [] <==> exists n <- nodes :: NamesMemory(n.name)
  {
    if nodes != [] {
      NameMeaning(nodes[0].name);
      hide NamesMemory, Memory.IsMemory;
      SomeMemory(nodes[1..]);
      assert nodes == [nodes[0]] + nodes[1..];
    }
  }

  /// Every fragment starts with its node.
  lemma {:induction false} FragmentsBegin(names: bytes, strings: bytes, depth: nat, sawRoot: bool, ts: seq<Token>)
    requires Fin !in ts && Memory.Extract(names, strings, depth, sawRoot, ts).Ok?
    ensures
      var found := Memory.Extract(names, strings, depth, sawRoot, ts).value.fragments;
      found != [] ==> found[0] != [] && found[0][0].Begin?
    decreases |ts|
  {
    hide Memory.IsMemory, Memory.Copy;
    if ts != [] {
      match ts[0]
      case Begin(name, _) =>
        if depth == 0 {
          FragmentsBegin(names, strings, 1, true, ts[1..]);
        } else if depth == 1 && Memory.IsMemory(name) {
          CopyBegins(names, strings, ts);
        } else {
          FragmentsBegin(names, strings, depth + 1, sawRoot, ts[1..]);
        }
      case End => FragmentsBegin(names, strings, depth - 1, sawRoot, ts[1..]);
      case Prop(_, _, _) | Nop => FragmentsBegin(names, strings, depth, sawRoot, ts[1..]);
      case Fin => assert false;
    }
  }

  lemma CopyBegins(names: bytes, strings: bytes, ts: seq<Token>)
    requires Fin !in ts && ts != [] && ts[0].Begin? && Memory.Copy(names, strings, 0, ts).Ok?
    ensures Memory.Copy(names, strings, 0, ts).value.tokens != [] && Memory.Copy(names, strings, 0, ts).value.tokens[0].Begin?
  {
  }

  lemma JoinedEvents(strings: bytes, fragments: seq<seq<Token>>)
    requires fragments != [] && fragments[0] != [] && fragments[0][0].Begin?
    requires Fin !in Memory.Joined(fragments) && Resolve(strings, Memory.Joined(fragments)).Some?
    ensures Resolve(strings, Memory.Joined(fragments)) != Some([])
  {
    var first, all := fragments[0][0], Memory.Joined(fragments);
    assert all[0] == first;
    hide Memory.Joined;
    Memory.ResolveCons(strings, all);
  }

  lemma NoFragments(names: bytes, strings: bytes, ts: seq<Token>)
    requires AllWf(ts) && Resolve(names, ts).Some? && Memory.ExtractEvents(0, Resolve(names, ts).value) == []
    ensures Fin !in ts
    ensures Memory.Extract(names, strings, 0, false, ts).Ok? ==> Memory.Extract(names, strings, 0, false, ts).value.fragments == []
  {
    assert Fin !in ts;
    hide Memory.Extract, Memory.ExtractEvents, Resolve, AllWf, Memory.Joined;
    if Memory.Extract(names, strings, 0, false, ts).Ok? {
      var out := Memory.Extract(names, strings, 0, false, ts).value;
      Memory.ExtractMeaning(names, strings, 0, false, ts);
      FragmentsBegin(names, strings, 0, false, ts);
      if out.fragments != [] {
        JoinedEvents(out.strings, out.fragments);
      }
    }
  }

  /// A live tree without a memory node is refused.
  lemma NoMemoryRefused(dtb: bytes, liveDtb: bytes)
    requires ContractTree(dtb).Ok? && ContractTree(liveDtb).Ok?
    requires forall n <- ContractTree(liveDtb).value.children :: !NamesMemory(n.name)
    ensures Memory.GraftedBlob(dtb, liveDtb).InvalidData?
  {
    hide ParseHeader, ReserveMap, BuildDtb, TreeOf, Memory.Extract, Memory.GraftTokens, TokensFrom, Resolve, NamesMemory;
    var l, liveStructure, liveNames := ContractTree(liveDtb).value, StructBlock(liveDtb).value, StringsBlock(liveDtb).value;
    SomeMemory(l.children);
    Memory.ExtractRoot(l);
    TreeOfExact(liveStructure, liveNames, l);
    TokensAreEncoded(liveStructure, 0);
    NoFragments(liveNames, StringsBlock(dtb).value, TokensFrom(liveStructure, 0).value);
  }
}
