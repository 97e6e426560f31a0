/// `patch_structure` of `pocketpreboot/src/msm8916.rs`: the streaming rewriter of the structure
/// block, and the proof that it rewrites the tree.
module Msm8916Stream {
  import opened Bytes
  import opened Tokens
  import opened Tree
  import opened Msm8916

  /// The offsets of the five names in the strings block.
  type Offsets = o: seq<u32> | |o| == 5 witness [0, 0, 0, 0, 0]

  function OffsetOf(offsets: Offsets, name: bytes): u32
    requires name in PATCH_NAMES
  {
    if name == ENABLE_METHOD then offsets[0]
    else if name == CPU_RELEASE_ADDR then offsets[1]
    else if name == STATUS then offsets[2]
    else if name == POWER_DOMAINS then offsets[3]
    else offsets[4]
  }

  /// The tokens of the properties that a node gains.
  function PropTokens(offsets: Offsets, props: seq<Property>): (ts: seq<Token>)
    ensures Fin !in ts
  {
    if props == [] then []
    else if props[0].name !in PATCH_NAMES then PropTokens(offsets, props[1..])
    else [NewProp(OffsetOf(offsets, props[0].name), props[0].value)] + PropTokens(offsets, props[1..])
  }

  /// `Reader::prop` on the tokens after a node's name: the first property with this name.
  function Lookup(strings: bytes, ts: seq<Token>, name: bytes): Option<bytes> {
    if ts == [] then None
    else match ts[0]
      case Prop(nameoff, value, _) =>
        if StringAt(strings, nameoff).None? then None
        else if StringAt(strings, nameoff).value == name then Some(value)
        else Lookup(strings, ts[1..], name)
      case Nop => Lookup(strings, ts[1..], name)
      case _ => None
  }

  function SeenAt(strings: bytes, ts: seq<Token>): Seen {
    Seen(Lookup(strings, ts, COMPATIBLE), Lookup(strings, ts, POWER_DOMAINS), Lookup(strings, ts, POWER_DOMAIN_NAMES),
         Lookup(strings, ts, REG))
  }

  function Before(out: seq<Token>, rest: Result<seq<Token>>): Result<seq<Token>> {
    if rest.Ok? then Ok(out + rest.value) else InvalidData
  }

  /// The token loop, for the tokens still to come.
  function PatchFrom(p: Platform, strings: bytes, offsets: Offsets, stack: seq<Context>, ts: seq<Token>): (r: Result<seq<Token>>)
    requires Fin !in ts
    ensures r.Ok? ==> Fin !in r.value
    decreases |ts|
  {
    if ts == [] then
      if stack == [] then Ok([]) else InvalidData
    else
      match ts[0]
      case Begin(name, _) =>
        if |stack| >= MAX_PREBOOT_DEPTH then InvalidData
        else
          var seen := SeenAt(strings, ts[1..]);
          var c := ContextOf(stack, name, seen);
          var added :- Additions(p, c, seen);
          Before([ts[0]] + PropTokens(offsets, added), PatchFrom(p, strings, offsets, stack + [c], ts[1..]))
      case End =>
        if stack == [] then InvalidData
        else Before([End], PatchFrom(p, strings, offsets, stack[..|stack| - 1], ts[1..]))
      case Prop(nameoff, _, _) =>
        if StringAt(strings, nameoff).None? then InvalidData
        else if Skips(Top(stack), StringAt(strings, nameoff).value) then PatchFrom(p, strings, offsets, stack, ts[1..])
        else Before([ts[0]], PatchFrom(p, strings, offsets, stack, ts[1..]))
      case Nop => Before([Nop], PatchFrom(p, strings, offsets, stack, ts[1..]))
  }

  // The same on events.

  function LookupEvents(evs: seq<Event>, name: bytes): Option<bytes> {
    if evs == [] || !evs[0].Attr? then None
    else if evs[0].name == name then Some(evs[0].value)
    else LookupEvents(evs[1..], name)
  }

  function SeenEvents(evs: seq<Event>): Seen {
    Seen(LookupEvents(evs, COMPATIBLE), LookupEvents(evs, POWER_DOMAINS), LookupEvents(evs, POWER_DOMAIN_NAMES),
         LookupEvents(evs, REG))
  }

  function BeforeEvents(out: seq<Event>, rest: Result<seq<Event>>): Result<seq<Event>> {
    if rest.Ok? then Ok(out + rest.value) else InvalidData
  }

  function PatchEvents(p: Platform, stack: seq<Context>, evs: seq<Event>): Result<seq<Event>>
    decreases |evs|
  {
    if evs == [] then
      if stack == [] then Ok([]) else InvalidData
    else
      match evs[0]
      case Open(name) =>
        if |stack| >= MAX_PREBOOT_DEPTH then InvalidData
        else
          var seen := SeenEvents(evs[1..]);
          var c := ContextOf(stack, name, seen);
          var added :- Additions(p, c, seen);
          BeforeEvents([evs[0]] + PropEvents(added), PatchEvents(p, stack + [c], evs[1..]))
      case Close =>
        if stack == [] then InvalidData
        else BeforeEvents([Close], PatchEvents(p, stack[..|stack| - 1], evs[1..]))
      case Attr(name, _) =>
        if Skips(Top(stack), name) then PatchEvents(p, stack, evs[1..])
        else BeforeEvents([evs[0]], PatchEvents(p, stack, evs[1..]))
  }

  // Tokens to events.

  /// The offsets name the five strings.
  ghost predicate Names(strings: bytes, offsets: Offsets) {
    forall i :: 0 <= i < 5 ==> StringAt(strings, offsets[i]) == Some(PATCH_NAMES[i])
  }

  lemma OffsetNames(strings: bytes, offsets: Offsets, name: bytes)
    requires Names(strings, offsets) && name in PATCH_NAMES
    ensures StringAt(strings, OffsetOf(offsets, name)) == Some(name)
  {
    hide StringAt;
    assert StringAt(strings, offsets[0]) == Some(PATCH_NAMES[0]);
    assert StringAt(strings, offsets[1]) == Some(PATCH_NAMES[1]);
    assert StringAt(strings, offsets[2]) == Some(PATCH_NAMES[2]);
    assert StringAt(strings, offsets[3]) == Some(PATCH_NAMES[3]);
    assert StringAt(strings, offsets[4]) == Some(PATCH_NAMES[4]);
  }

  ghost predicate AllGained(c: Context, props: seq<Property>) { forall a <- props :: Gained(c, a) }

  lemma {:induction false} PropTokensResolve(strings: bytes, offsets: Offsets, c: Context, props: seq<Property>)
    requires Names(strings, offsets) && AllGained(c, props)
    ensures AllWf(PropTokens(offsets, props))
    ensures Resolve(strings, PropTokens(offsets, props)) == Some(PropEvents(props))
  {
    hide OffsetOf, Skips, StringAt, Names, Bytes.Ascii;
    if props != [] {
      assert Gained(c, props[0]);
      PropTokensResolve(strings, offsets, c, props[1..]);
      OffsetNames(strings, offsets, props[0].name);
      var t, rest := NewProp(OffsetOf(offsets, props[0].name), props[0].value), PropTokens(offsets, props[1..]);
      assert ([t] + rest)[1..] == rest && ([t] + rest)[0] == t;
    }
  }

  lemma {:induction false} LookupSimulates(strings: bytes, ts: seq<Token>, name: bytes)
    requires Fin !in ts && Resolve(strings, ts).Some?
    ensures Lookup(strings, ts, name) == LookupEvents(Resolve(strings, ts).value, name)
  {
    if ts != [] {
      LookupSimulates(strings, ts[1..], name);
      hide StringAt;
      var head, rest := TokenEvents(strings, ts[0]).value, Resolve(strings, ts[1..]).value;
      var evs := head + rest;
      assert head == [] ==> evs == rest;
      assert head != [] ==> evs[0] == head[0] && evs[1..] == rest;
    }
  }

  lemma SeenSimulates(strings: bytes, ts: seq<Token>)
    requires Fin !in ts && Resolve(strings, ts).Some?
    ensures SeenAt(strings, ts) == SeenEvents(Resolve(strings, ts).value)
  {
    hide Lookup, LookupEvents, Resolve;
    LookupSimulates(strings, ts, COMPATIBLE);
    LookupSimulates(strings, ts, POWER_DOMAINS);
    LookupSimulates(strings, ts, POWER_DOMAIN_NAMES);
    LookupSimulates(strings, ts, REG);
  }

  lemma BeforeResolves(strings: bytes, out: seq<Token>, rest: seq<Token>, evs: seq<Event>, restEvs: seq<Event>)
    requires Fin !in out && Fin !in rest && Resolve(strings, out) == Some(evs) && Resolve(strings, rest) == Some(restEvs)
    ensures Resolve(strings, out + rest) == Some(evs + restEvs)
  {
    ResolveAppend(strings, out, rest);
  }

  lemma BeginResolves(strings: bytes, t: Token, added: seq<Token>, evs: seq<Event>)
    requires t.Begin? && Fin !in added && Resolve(strings, added) == Some(evs)
    ensures Resolve(strings, [t] + added) == Some([Open(t.name)] + evs)
  {
    hide Resolve;
    ResolveOne(strings, t);
    ResolveAppend(strings, [t], added);
  }

  lemma PropTokenResolves(strings: bytes, more: bytes, t: Token)
    requires t.Prop? && StringAt(strings, t.nameoff).Some?
    ensures Resolve(strings + more, [t]) == Some([Attr(StringAt(strings, t.nameoff).value, t.value)])
  {
    ResolveOne(strings + more, t);
    StringAtGrows(strings, more, t.nameoff);
  }

  /// The rewritten tokens resolve, under the grown strings, to the rewritten events.
  lemma {:induction false} PatchSimulates(p: Platform, strings: bytes, more: bytes, offsets: Offsets,
                                          stack: seq<Context>, ts: seq<Token>)
    requires Fin !in ts && Resolve(strings, ts).Some? && Names(strings + more, offsets)
    ensures
      var out, evs := PatchFrom(p, strings, offsets, stack, ts), PatchEvents(p, stack, Resolve(strings, ts).value);
      && (out.Ok? <==> evs.Ok?)
      && (out.Ok? ==> Resolve(strings + more, out.value) == Some(evs.value))
    decreases |ts|
  {
    hide StringAt, Lookup, LookupEvents, Skips, Additions, ContextOf, Names, SeenAt, SeenEvents, PropTokens;
    if ts != [] {
      var t, tail := ts[0], ts[1..];
      var evs, rest := Resolve(strings, ts).value, Resolve(strings, tail).value;
      var head := TokenEvents(strings, t).value;
      assert head == [] ==> evs == rest;
      assert head != [] ==> evs[0] == head[0] && evs[1..] == rest;
      match t
      case Begin(name, _) =>
        SeenSimulates(strings, tail);
        var seen := SeenAt(strings, tail);
        var c := ContextOf(stack, name, seen);
        var added := Additions(p, c, seen);
        if added.Ok? {
          PatchSimulates(p, strings, more, offsets, stack + [c], tail);
          AdditionsSkipped(p, c, seen);
          PropTokensResolve(strings + more, offsets, c, added.value);
          BeginResolves(strings + more, t, PropTokens(offsets, added.value), PropEvents(added.value));
          var out := PatchFrom(p, strings, offsets, stack + [c], tail);
          if out.Ok? {
            BeforeResolves(strings + more, [t] + PropTokens(offsets, added.value), out.value,
                           [Open(name)] + PropEvents(added.value), PatchEvents(p, stack + [c], rest).value);
          }
        }
      case End =>
        if stack != [] {
          PatchSimulates(p, strings, more, offsets, stack[..|stack| - 1], tail);
          ResolveOne(strings + more, End);
          var out := PatchFrom(p, strings, offsets, stack[..|stack| - 1], tail);
          if out.Ok? {
            BeforeResolves(strings + more, [End], out.value, [Close], PatchEvents(p, stack[..|stack| - 1], rest).value);
          }
        }
      case Prop(nameoff, value, _) =>
        PatchSimulates(p, strings, more, offsets, stack, tail);
        PropTokenResolves(strings, more, t);
        var out := PatchFrom(p, strings, offsets, stack, tail);
        if out.Ok? {
          BeforeResolves(strings + more, [t], out.value, head, PatchEvents(p, stack, rest).value);
        }
      case Nop =>
        PatchSimulates(p, strings, more, offsets, stack, tail);
        ResolveOne(strings + more, Nop);
        var out := PatchFrom(p, strings, offsets, stack, tail);
        if out.Ok? {
          BeforeResolves(strings + more, [Nop], out.value, [], PatchEvents(p, stack, rest).value);
          assert [] + PatchEvents(p, stack, rest).value == PatchEvents(p, stack, rest).value;
        }
    }
  }

  // Events to the tree.

  lemma {:induction false} LookupInNode(props: seq<Property>, rest: seq<Event>, name: bytes)
    requires rest == [] || !rest[0].Attr?
    ensures LookupEvents(PropEvents(props) + rest, name) == GetProp(props, name)
  {
    var evs := PropEvents(props) + rest;
    if props == [] {
      assert evs == rest;
    } else {
      LookupInNode(props[1..], rest, name);
      assert evs[0] == Attr(props[0].name, props[0].value) && evs[1..] == PropEvents(props[1..]) + rest;
    }
  }

  lemma SeenInNode(props: seq<Property>, rest: seq<Event>)
    requires rest == [] || !rest[0].Attr?
    ensures SeenEvents(PropEvents(props) + rest) == SeenIn(props)
  {
    hide LookupEvents, GetProp, PropEvents;
    LookupInNode(props, rest, COMPATIBLE);
    LookupInNode(props, rest, POWER_DOMAINS);
    LookupInNode(props, rest, POWER_DOMAIN_NAMES);
    LookupInNode(props, rest, REG);
  }

  lemma PatchAttr(p: Platform, stack: seq<Context>, attr: Event, rest: seq<Event>)
    requires attr.Attr?
    ensures PatchEvents(p, stack, [attr] + rest)
      == BeforeEvents(if Skips(Top(stack), attr.name) then [] else [attr], PatchEvents(p, stack, rest))
  {
    hide Skips, Additions, ContextOf, SeenEvents;
    ConsConcat([attr], rest);
    EmptyConcat(rest);
    if PatchEvents(p, stack, rest).Ok? {
      EmptyConcat(PatchEvents(p, stack, rest).value);
    }
  }

  lemma KeptStep(c: Context, props: seq<Property>)
    requires props != []
    ensures PropEvents(Kept(c, props)) ==
      (if Skips(c, props[0].name) then [] else [Attr(props[0].name, props[0].value)]) + PropEvents(Kept(c, props[1..]))
  {
    hide Skips;
    var rest := Kept(c, props[1..]);
    EmptyConcat(PropEvents(rest));
    ConsConcat([props[0]], rest);
    EmptyConcat(rest);
  }

  lemma BeforeEventsTwice(x: seq<Event>, y: seq<Event>, rest: Result<seq<Event>>)
    ensures BeforeEvents(x, BeforeEvents(y, rest)) == BeforeEvents(x + y, rest)
    ensures BeforeEvents([], rest) == rest
  {
    if rest.Ok? {
      Assoc(x, y, rest.value);
      EmptyConcat(rest.value);
    }
  }

  lemma PropsHead(props: seq<Property>, rest: seq<Event>)
    requires props != []
    ensures PropEvents(props) + rest == [Attr(props[0].name, props[0].value)] + (PropEvents(props[1..]) + rest)
  {
    Assoc([Attr(props[0].name, props[0].value)], PropEvents(props[1..]), rest);
  }

  lemma {:induction false} PatchProps(p: Platform, stack: seq<Context>, props: seq<Property>, rest: seq<Event>)
    ensures PatchEvents(p, stack, PropEvents(props) + rest)
      == BeforeEvents(PropEvents(Kept(Top(stack), props)), PatchEvents(p, stack, rest))
  {
    var out := PatchEvents(p, stack, rest);
    if props == [] {
      EmptyConcat(rest);
      BeforeEventsTwice([], [], out);
    } else {
      hide Skips, PatchEvents, PropEvents, Kept, BeforeEvents;
      var attr := Attr(props[0].name, props[0].value);
      PropsHead(props, rest);
      PatchAttr(p, stack, attr, PropEvents(props[1..]) + rest);
      PatchProps(p, stack, props[1..], rest);
      KeptStep(Top(stack), props);
      BeforeEventsTwice(if Skips(Top(stack), attr.name) then [] else [attr], PropEvents(Kept(Top(stack), props[1..])), out);
    }
  }

  /// What the rewritten node puts in front of the rest.
  function Rewritten(node: Result<Node>, rest: Result<seq<Event>>): Result<seq<Event>> {
    if node.Ok? then BeforeEvents(Events(node.value), rest) else InvalidData
  }

  function RewrittenForest(nodes: Result<seq<Node>>, rest: Result<seq<Event>>): Result<seq<Event>> {
    if nodes.Ok? then BeforeEvents(ForestEvents(nodes.value), rest) else InvalidData
  }

  lemma CloseStep(p: Platform, stack: seq<Context>, c: Context, rest: seq<Event>)
    ensures PatchEvents(p, stack + [c], [Close] + rest) == BeforeEvents([Close], PatchEvents(p, stack, rest))
  {
    var evs := [Close] + rest;
    assert evs[0] == Close && evs[1..] == rest;
    assert (stack + [c])[..|stack|] == stack;
  }

  lemma OpenStep(p: Platform, stack: seq<Context>, name: bytes, rest: seq<Event>)
    ensures
      var evs, seen := [Open(name)] + rest, SeenEvents(rest);
      var c := ContextOf(stack, name, seen);
      PatchEvents(p, stack, evs) ==
      if |stack| >= MAX_PREBOOT_DEPTH then InvalidData
      else if Additions(p, c, seen).InvalidData? then InvalidData
      else BeforeEvents([Open(name)] + PropEvents(Additions(p, c, seen).value), PatchEvents(p, stack + [c], rest))
  {
    hide Additions, ContextOf, SeenEvents;
    var evs := [Open(name)] + rest;
    assert evs[0] == Open(name) && evs[1..] == rest;
  }

  lemma JoinNode(name: bytes, added: seq<Property>, kept: seq<Property>, children: seq<Node>, rest: Result<seq<Event>>)
    ensures BeforeEvents([Open(name)] + PropEvents(added),
                         BeforeEvents(PropEvents(kept), BeforeEvents(ForestEvents(children), BeforeEvents([Close], rest))))
      == BeforeEvents(Events(Node(name, added + kept, children)), rest)
  {
    PropEventsAppend(added, kept);
    hide PropEvents, ForestEvents;
    if rest.Ok? {
      var a, k, f := PropEvents(added), PropEvents(kept), ForestEvents(children);
      assert ([Open(name)] + a) + (k + (f + ([Close] + rest.value))) == ([Open(name)] + (a + k) + f + [Close]) + rest.value;
    }
  }

  lemma JoinForest(first: Node, nodes: seq<Node>, rest: Result<seq<Event>>)
    ensures BeforeEvents(Events(first), BeforeEvents(ForestEvents(nodes), rest))
      == BeforeEvents(ForestEvents([first] + nodes), rest)
  {
    hide Events;
    assert ([first] + nodes)[1..] == nodes && ([first] + nodes)[0] == first;
    assert ForestEvents([first] + nodes) == Events(first) + ForestEvents(nodes);
    if rest.Ok? {
      assert Events(first) + (ForestEvents(nodes) + rest.value) == (Events(first) + ForestEvents(nodes)) + rest.value;
    }
  }

  lemma ForestThen(nodes: seq<Node>, rest: seq<Event>)
    ensures
      var evs := ForestEvents(nodes) + ([Close] + rest);
      evs != [] && !evs[0].Attr?
  {
    if nodes != [] {
      assert Events(nodes[0])[0] == Open(nodes[0].name);
      assert ForestEvents(nodes)[0] == Open(nodes[0].name);
    }
  }

  /// Streaming over a node is rewriting the node.
  lemma {:induction false} PatchNodeEvents(p: Platform, stack: seq<Context>, node: Node, rest: seq<Event>)
    ensures PatchEvents(p, stack, Events(node) + rest)
      == Rewritten(PatchNode(p, stack, node), PatchEvents(p, stack, rest))
    decreases node, 1
  {
    hide Additions, ContextOf, SeenEvents, SeenIn, PatchEvents, Kept, PropEvents, ForestEvents, Events;
    var after := ForestEvents(node.children) + ([Close] + rest);
    var inside := PropEvents(node.props) + after;
    EventsThen(node, rest);
    OpenStep(p, stack, node.name, inside);
    ForestThen(node.children, rest);
    SeenInNode(node.props, after);
    var seen := SeenIn(node.props);
    var c := ContextOf(stack, node.name, seen);
    if |stack| < MAX_PREBOOT_DEPTH && Additions(p, c, seen).Ok? {
      PatchProps(p, stack + [c], node.props, after);
      PatchForestEvents(p, stack + [c], node.children, [Close] + rest);
      CloseStep(p, stack, c, rest);
      if PatchForest(p, stack + [c], node.children).Ok? {
        JoinNode(node.name, Additions(p, c, seen).value, Kept(c, node.props),
                 PatchForest(p, stack + [c], node.children).value, PatchEvents(p, stack, rest));
      }
    }
  }

  lemma {:induction false} PatchForestEvents(p: Platform, stack: seq<Context>, nodes: seq<Node>, rest: seq<Event>)
    ensures PatchEvents(p, stack, ForestEvents(nodes) + rest)
      == RewrittenForest(PatchForest(p, stack, nodes), PatchEvents(p, stack, rest))
    decreases nodes, 0
  {
    hide PatchEvents, PatchNode, Events;
    var out := PatchEvents(p, stack, rest);
    if nodes == [] {
      assert ForestEvents(nodes) + rest == rest;
      assert out.Ok? ==> [] + out.value == out.value;
    } else {
      var more := ForestEvents(nodes[1..]) + rest;
      assert ForestEvents(nodes) + rest == Events(nodes[0]) + more;
      PatchNodeEvents(p, stack, nodes[0], more);
      PatchForestEvents(p, stack, nodes[1..], rest);
      var first, others := PatchNode(p, stack, nodes[0]), PatchForest(p, stack, nodes[1..]);
      if first.Ok? && others.Ok? {
        JoinForest(first.value, others.value, out);
      }
    }
  }

  /// The streaming patcher is the tree rewrite: on the tokens of any tree it succeeds exactly when the
  /// rewrite does, and its tokens are those of the rewritten tree under the grown strings block.
  lemma StreamIsTreeRewrite(p: Platform, strings: bytes, more: bytes, offsets: Offsets, ts: seq<Token>, t: Node)
    requires Fin !in ts && Resolve(strings, ts) == Some(Events(t)) && Names(strings + more, offsets)
    ensures
      var out, t' := PatchFrom(p, strings, offsets, [], ts), PatchNode(p, [], t);
      && (out.Ok? <==> t'.Ok?)
      && (out.Ok? ==> Resolve(strings + more, out.value) == Some(Events(t'.value)))
  {
    PatchSimulates(p, strings, more, offsets, [], ts);
    PatchNodeEvents(p, [], t, []);
    assert Events(t) + [] == Events(t);
    assert PatchEvents(p, [], []) == Ok([]);
    var t' := PatchNode(p, [], t);
    if t'.Ok? {
      assert Events(t'.value) + [] == Events(t'.value);
    }
  }

  // The code.

  lemma TokensStep(structure: bytes, cursor: nat)
    ensures TokenAt(structure, cursor).None? ==> TokensFrom(structure, cursor).None?
    ensures TokenAt(structure, cursor).Some? ==>
      var (t, next) := TokenAt(structure, cursor).value;
      && (t == Fin ==> TokensFrom(structure, cursor) == Some([]))
      && (t != Fin ==>
            if TokensFrom(structure, next).None? then TokensFrom(structure, cursor).None?
            else
              && TokensFrom(structure, cursor).Some?
              && var ts := TokensFrom(structure, cursor).value;
              ts != [] && ts[0] == t && ts[1..] == TokensFrom(structure, next).value)
  {
  }

  /// `Reader::prop` for the node whose name ends at `start`.
  method LookupProp(structure: bytes, strings: bytes, start: nat, name: bytes) returns (r: Option<bytes>)
    ensures TokensFrom(structure, start).Some? ==> r == Lookup(strings, TokensFrom(structure, start).value, name)
  {
    hide TokenAt, TokensFrom, StringAt;
    var cursor := start;
    while true
      invariant TokensFrom(structure, start).None? <==> TokensFrom(structure, cursor).None?
      invariant TokensFrom(structure, start).Some? ==>
        Lookup(strings, TokensFrom(structure, start).value, name) == Lookup(strings, TokensFrom(structure, cursor).value, name)
      decreases |structure| - cursor
    {
      var read := TokenAt(structure, cursor);
      TokensStep(structure, cursor);
      if read.None? {
        return None;
      }
      var (token, next) := read.value;
      match token {
        case Prop(nameoff, value, _) =>
          var found := StringAt(strings, nameoff);
          if found.None? {
            return None;
          }
          if found.value == name {
            return Some(value);
          }
        case Nop =>
        case _ =>
          return None;
      }
      cursor := next;
    }
  }

  method LookupSeen(structure: bytes, strings: bytes, start: nat) returns (seen: Seen)
    ensures TokensFrom(structure, start).Some? ==> seen == SeenAt(strings, TokensFrom(structure, start).value)
  {
    hide Lookup, TokensFrom;
    var compatible := LookupProp(structure, strings, start, COMPATIBLE);
    var domains := LookupProp(structure, strings, start, POWER_DOMAINS);
    var names := LookupProp(structure, strings, start, POWER_DOMAIN_NAMES);
    var reg := LookupProp(structure, strings, start, REG);
    seen := Seen(compatible, domains, names, reg);
  }

  lemma BeforeAgain(done: seq<Token>, out: seq<Token>, rest: Result<seq<Token>>)
    ensures Before(done, Before(out, rest)) == Before(done + out, rest)
    ensures Before([], rest) == rest
  {
    if rest.Ok? {
      assert done + (out + rest.value) == done + out + rest.value;
      assert [] + rest.value == rest.value;
    }
  }

  lemma {:induction false} PropTokensWf(offsets: Offsets, c: Context, props: seq<Property>)
    requires AllGained(c, props)
    ensures AllWf(PropTokens(offsets, props))
  {
    hide OffsetOf, Skips, Bytes.Ascii;
    if props != [] {
      assert Gained(c, props[0]);
      PropTokensWf(offsets, c, props[1..]);
    }
  }

  /// One step of the loop, as the function sees it.
  lemma PatchStep(p: Platform, strings: bytes, offsets: Offsets, stack: seq<Context>, ts: seq<Token>)
    requires Fin !in ts && ts != []
    ensures
      var out, t, rest := PatchFrom(p, strings, offsets, stack, ts), ts[0], ts[1..];
      && (t.Begin? ==>
            var seen := SeenAt(strings, rest);
            var c := ContextOf(stack, t.name, seen);
            out == if |stack| >= MAX_PREBOOT_DEPTH || Additions(p, c, seen).InvalidData? then InvalidData
                   else Before([t] + PropTokens(offsets, Additions(p, c, seen).value),
                               PatchFrom(p, strings, offsets, stack + [c], rest)))
      && (t.End? ==> out == if stack == [] then InvalidData
                            else Before([End], PatchFrom(p, strings, offsets, stack[..|stack| - 1], rest)))
      && (t.Prop? ==>
            out == if StringAt(strings, t.nameoff).None? then InvalidData
                   else if Skips(Top(stack), StringAt(strings, t.nameoff).value) then PatchFrom(p, strings, offsets, stack, rest)
                   else Before([t], PatchFrom(p, strings, offsets, stack, rest)))
      && (t.Nop? ==> out == Before([Nop], PatchFrom(p, strings, offsets, stack, rest)))
  {
    hide SeenAt, ContextOf, Additions, PropTokens, StringAt, Skips;
  }

  /// `patch_structure`.
  method PatchStructure(structure: bytes, strings: bytes, offsets: Offsets, p: Platform) returns (r: Result<bytes>)
    ensures
      var ts := TokensFrom(structure, 0);
      var out := if ts.None? then InvalidData else PatchFrom(p, strings, offsets, [], ts.value);
      && (out.InvalidData? ==> r == InvalidData)
      && (out.Ok? ==> AllWf(out.value) && r == Ok(EncAll(out.value) + Enc(Fin)))
  {
    hide TokenAt, TokensFrom, StringAt, Enc, Wf, Skips, Additions, ContextOf, SeenAt, PropTokens, PatchFrom, EncAll, AllWf,
      Lookup;
    var cursor := 0;
    var output: bytes := [];
    var stack: seq<Context> := [];
    ghost var done: seq<Token> := [];
    ghost var whole := TokensFrom(structure, 0);
    NothingDone();
    if whole.Some? {
      BeforeAgain([], [], PatchFrom(p, strings, offsets, [], whole.value));
    }
    while true
      invariant cursor % 4 == 0 && AllWf(done) && output == EncAll(done)
      invariant whole.None? <==> TokensFrom(structure, cursor).None?
      invariant whole.Some? ==>
        PatchFrom(p, strings, offsets, [], whole.value) ==
        Before(done, PatchFrom(p, strings, offsets, stack, TokensFrom(structure, cursor).value))
      decreases |structure| - cursor
    {
      var read := TokenAt(structure, cursor);
      TokensStep(structure, cursor);
      if read.None? {
        return InvalidData;
      }
      var (token, next) := read.value;
      EncIsSlice(structure, cursor);
      if token == Fin {
        PatchEnds(p, strings, offsets, stack);
        if stack != [] {
          return InvalidData;
        }
        assert done + [] == done;
        return Ok(output + Enc(Fin));
      }
      ghost var known := TokensFrom(structure, next).Some?;
      if known {
        PatchStep(p, strings, offsets, stack, TokensFrom(structure, cursor).value);
      }
      var emitted: seq<Token> := [];
      match token {
        case Begin(name, _) =>
          if |stack| >= MAX_PREBOOT_DEPTH {
            return InvalidData;
          }
          var seen := LookupSeen(structure, strings, next);
          var c := ContextOf(stack, name, seen);
          var added := Additions(p, c, seen);
          if added.InvalidData? {
            return InvalidData;
          }
          AdditionsSkipped(p, c, seen);
          PropTokensWf(offsets, c, added.value);
          OneMoreWf(token, PropTokens(offsets, added.value));
          emitted := [token] + PropTokens(offsets, added.value);
          stack := stack + [c];
        case End =>
          if stack == [] {
            return InvalidData;
          }
          OneMoreWf(token, []);
          assert [token] + [] == [End];
          emitted := [token];
          stack := stack[..|stack| - 1];
        case Prop(nameoff, _, _) =>
          var name := StringAt(strings, nameoff);
          if name.None? {
            return InvalidData;
          }
          OneMoreWf(token, []);
          assert [token] + [] == [token];
          if !Skips(Top(stack), name.value) {
            emitted := [token];
          }
        case Nop =>
          OneMoreWf(token, []);
          assert [token] + [] == [Nop];
          emitted := [token];
      }
      NothingDone();
      EncAllAppend(done, emitted);
      if known {
        BeforeAgain(done, emitted, PatchFrom(p, strings, offsets, stack, TokensFrom(structure, next).value));
        BeforeAgain([], [], PatchFrom(p, strings, offsets, stack, TokensFrom(structure, next).value));
      }
      output := output + EncAll(emitted);
      done := done + emitted;
      cursor := next;
    }
  }

  lemma NothingDone()
    ensures AllWf([]) && EncAll([]) == []
  {
  }

  lemma OneMoreWf(t: Token, ts: seq<Token>)
    requires Wf(t) && t != Fin && AllWf(ts)
    ensures AllWf([t] + ts)
  {
  }

  lemma PatchEnds(p: Platform, strings: bytes, offsets: Offsets, stack: seq<Context>)
    ensures PatchFrom(p, strings, offsets, stack, []) == if stack == [] then Ok([]) else InvalidData
  {
  }

  lemma {:induction false} PatchFromWf(p: Platform, strings: bytes, offsets: Offsets, stack: seq<Context>, ts: seq<Token>)
    requires AllWf(ts) && PatchFrom(p, strings, offsets, stack, ts).Ok?
    ensures AllWf(PatchFrom(p, strings, offsets, stack, ts).value)
    decreases |ts|
  {
    hide Wf, Skips, Additions, ContextOf, SeenAt, PropTokens, StringAt;
    if ts != [] {
      var t, rest := ts[0], ts[1..];
      assert Wf(t);
      match t
      case Begin(name, _) =>
        var seen := SeenAt(strings, rest);
        var c := ContextOf(stack, name, seen);
        PatchFromWf(p, strings, offsets, stack + [c], rest);
        AdditionsSkipped(p, c, seen);
        PropTokensWf(offsets, c, Additions(p, c, seen).value);
      case End => PatchFromWf(p, strings, offsets, stack[..|stack| - 1], rest);
      case Prop(_, _, _) | Nop => PatchFromWf(p, strings, offsets, stack, rest);
      case Fin => assert false;
    }
  }
}
