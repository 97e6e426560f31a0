/// `patch_chosen` of `src/kexec.rs`: rewriting /chosen while streaming the structure block.
module Chosen {
  import opened Bytes
  import opened Tokens
  import opened Tree
  import opened Dtb
  import opened Contract
  import opened Reserved

  const PROP_BOOTARGS: bytes := Ascii("bootargs")
  const PROP_INITRD_START: bytes := Ascii("linux,initrd-start")
  const PROP_INITRD_END: bytes := Ascii("linux,initrd-end")
  const PROP_BOOTED_FROM_KEXEC: bytes := Ascii("linux,booted-from-kexec")
  const CHOSEN: bytes := Ascii("chosen")

  datatype Offsets = Offsets(bootargs: u32, initrdStart: u32, initrdEnd: u32, bootedFromKexec: u32)

  datatype Initrd = Initrd(start: u64, end: u64)

  predicate IsChosen(stack: seq<bytes>) { |stack| == 2 && stack[0] == [] && stack[1] == CHOSEN }

  /// `should_replace_chosen_prop`.
  predicate Managed(name: bytes) {
    name == PROP_BOOTARGS || name == PROP_INITRD_START || name == PROP_INITRD_END || name == PROP_BOOTED_FROM_KEXEC
  }

  /// `append_chosen_props`.
  function ChosenProps(offsets: Offsets, cmdline: bytes, initrd: Option<Initrd>): (ts: seq<Token>)
    ensures Fin !in ts
  {
    (if cmdline != [] then [NewProp(offsets.bootargs, cmdline + [0])] else [])
    + (if initrd.Some?
       then [NewProp(offsets.initrdStart, Be64(initrd.value.start)), NewProp(offsets.initrdEnd, Be64(initrd.value.end))]
       else [])
    + [NewProp(offsets.bootedFromKexec, [])]
  }

  function Before<T>(head: seq<T>, rest: Result<seq<T>>): Result<seq<T>> {
    if rest.Ok? then Ok(head + rest.value) else InvalidData
  }

  lemma BeforeBefore<T>(x: seq<T>, y: seq<T>, rest: Result<seq<T>>)
    ensures Before(x, Before(y, rest)) == Before(x + y, rest)
  {
    if rest.Ok? {
      assert x + (y + rest.value) == x + y + rest.value;
    }
  }

  lemma BeforeNil<T>(x: seq<T>, rest: Result<seq<T>>)
    ensures Before(x, Ok([])) == Ok(x) && Before([], rest) == rest
  {
    assert x + [] == x;
    assert rest.Ok? ==> [] + rest.value == rest.value;
  }

  /// State of the token loop of `patch_structure_block`.
  datatype Patch = Patch(stack: seq<bytes>, sawRoot: bool, sawChosen: bool)

  const PATCH_START := Patch([], false, false)

  /// The tokens that one token becomes, and the state after it.
  function PatchStep(props: seq<Token>, strings: bytes, p: Patch, t: Token): (r: Result<(Patch, seq<Token>)>)
    requires Fin !in props && t != Fin
    ensures r.Ok? ==> Fin !in r.value.1
  {
    match t
    case Begin(name, _) =>
      if p.stack == [] && name != [] then InvalidData
      else
        var stack := p.stack + [name];
        var chosen := IsChosen(stack);
        Ok((Patch(stack, p.sawRoot || p.stack == [], p.sawChosen || chosen),
            if chosen then [NewBegin(name)] + props else [NewBegin(name)]))
    case End =>
      var append := IsRoot(p.stack) && !p.sawChosen;
      if p.stack == [] then InvalidData
      else
        Ok((Patch(p.stack[..|p.stack| - 1], p.sawRoot, p.sawChosen || append),
            if append then [NewBegin(CHOSEN)] + props + [End] + [End] else [End]))
    case Prop(nameoff, _, _) =>
      var name := match StringAt(strings, nameoff) case None => [] case Some(n) => n;
      Ok((p, if IsChosen(p.stack) && Managed(name) then [] else [t]))
    case Nop => Ok((p, [t]))
  }

  /// The rewritten tokens, for the tokens still to come.
  function PatchTokens(props: seq<Token>, strings: bytes, p: Patch, ts: seq<Token>): (r: Result<seq<Token>>)
    requires Fin !in props && Fin !in ts
    ensures r.Ok? ==> Fin !in r.value
    decreases |ts|
  {
    if ts == [] then
      if p.sawRoot && p.stack == [] then Ok([]) else InvalidData
    else
      var (p', out) :- PatchStep(props, strings, p, ts[0]);
      Before(out, PatchTokens(props, strings, p', ts[1..]))
  }

  lemma ChosenPropsWf(offsets: Offsets, cmdline: bytes, initrd: Option<Initrd>)
    requires |cmdline| + 1 < U32_LIMIT
    ensures AllWf(ChosenProps(offsets, cmdline, initrd))
  {
  }

  lemma PatchStepWf(props: seq<Token>, strings: bytes, p: Patch, t: Token)
    requires AllWf(props) && Wf(t) && t != Fin && PatchStep(props, strings, p, t).Ok?
    ensures AllWf(PatchStep(props, strings, p, t).value.1)
  {
    hide IsChosen, IsRoot, Managed;
    assert NulFree(CHOSEN);
  }

  lemma {:induction false} PatchTokensWf(props: seq<Token>, strings: bytes, p: Patch, ts: seq<Token>)
    requires AllWf(props) && AllWf(ts) && PatchTokens(props, strings, p, ts).Ok?
    ensures AllWf(PatchTokens(props, strings, p, ts).value)
    decreases |ts|
  {
    if ts != [] {
      PatchStepWf(props, strings, p, ts[0]);
      PatchTokensWf(props, strings, PatchStep(props, strings, p, ts[0]).value.0, ts[1..]);
    }
  }

  /// The rewritten structure block, for the part of the block from `cursor` on.
  function PatchedFrom(structure: bytes, cursor: nat, props: seq<Token>, strings: bytes, p: Patch): Result<seq<Token>>
    requires Fin !in props
  {
    match TokensFrom(structure, cursor)
    case None => InvalidData
    case Some(ts) => PatchTokens(props, strings, p, ts)
  }

  /// `patch_structure_block`.
  method PatchStructureBlock(structure: bytes, strings: bytes, offsets: Offsets, cmdline: bytes, initrd: Option<Initrd>)
    returns (r: Result<bytes>)
    requires |cmdline| + 1 < U32_LIMIT
    ensures
      var out := PatchedFrom(structure, 0, ChosenProps(offsets, cmdline, initrd), strings, PATCH_START);
      && (out.InvalidData? ==> r == InvalidData)
      && (out.Ok? ==> AllWf(out.value) && r == Ok(EncAll(out.value) + Enc(Fin)))
  {
    hide TokenAt, StringAt, Enc, IsChosen, IsRoot, Managed, ChosenProps;
    var props := ChosenProps(offsets, cmdline, initrd);
    ChosenPropsWf(offsets, cmdline, initrd);
    ghost var out := PatchedFrom(structure, 0, props, strings, PATCH_START);
    var cursor := 0;
    var output: bytes := [];
    var stack: seq<bytes> := [];
    var sawRoot, sawChosen := false, false;
    ghost var done: seq<Token> := [];
    assert out == Before(done, out) by { if out.Ok? { assert [] + out.value == out.value; } }
    while true
      invariant cursor % 4 == 0 && AllWf(done) && output == EncAll(done)
      invariant out == Before(done, PatchedFrom(structure, cursor, props, strings, Patch(stack, sawRoot, sawChosen)))
      decreases |structure| - cursor
    {
      var read := TokenAt(structure, cursor);
      if read.None? {
        return InvalidData;
      }
      var (token, next) := read.value;
      EncIsSlice(structure, cursor);
      ghost var p := Patch(stack, sawRoot, sawChosen);
      if token == Fin {
        if !sawRoot || stack != [] {
          return InvalidData;
        }
        assert done + [] == done;
        return Ok(output + Enc(Fin));
      }
      PatchedStep(structure, cursor, props, strings, p);
      var emitted: seq<Token> := [];
      match token {
        case Begin(name, _) =>
          if stack == [] {
            if name != [] {
              return InvalidData;
            }
            sawRoot := true;
          }
          emitted := [NewBegin(name)];
          stack := stack + [name];
          if IsChosen(stack) {
            sawChosen := true;
            emitted := emitted + props;
          }
        case End =>
          assert emitted + [End] == [End];
          if IsRoot(stack) && !sawChosen {
            emitted := [NewBegin(CHOSEN)] + props + [End];
            sawChosen := true;
          }
          emitted := emitted + [End];
          if stack == [] {
            return InvalidData;
          }
          stack := stack[..|stack| - 1];
        case Prop(nameoff, _, _) =>
          var at := StringAt(strings, nameoff);
          var name := if at.Some? then at.value else [];
          if !(IsChosen(stack) && Managed(name)) {
            emitted := [token];
          }
        case Nop =>
          emitted := [token];
      }
      PatchStepWf(props, strings, p, token);
      EncAllAppend(done, emitted);
      BeforeBefore(done, emitted, PatchedFrom(structure, next, props, strings, Patch(stack, sawRoot, sawChosen)));
      output := output + EncAll(emitted);
      done := done + emitted;
      cursor := next;
    }
  }

  lemma PatchedStep(structure: bytes, cursor: nat, props: seq<Token>, strings: bytes, p: Patch)
    requires Fin !in props && TokenAt(structure, cursor).Some? && TokenAt(structure, cursor).value.0 != Fin
    ensures
      var (t, next) := TokenAt(structure, cursor).value;
      PatchedFrom(structure, cursor, props, strings, p) ==
      var (p', out) :- PatchStep(props, strings, p, t);
      Before(out, PatchedFrom(structure, next, props, strings, p'))
  {
    var (t, next) := TokenAt(structure, cursor).value;
    var rest := TokensFrom(structure, next);
    if rest.Some? {
      assert ([t] + rest.value)[1..] == rest.value;
    }
  }

  // The same rewriting on events.

  function EventStep(props: seq<Event>, p: Patch, e: Event): Result<(Patch, seq<Event>)> {
    match e
    case Open(name) =>
      if p.stack == [] && name != [] then InvalidData
      else
        var stack := p.stack + [name];
        var chosen := IsChosen(stack);
        Ok((Patch(stack, p.sawRoot || p.stack == [], p.sawChosen || chosen), if chosen then [Open(name)] + props else [Open(name)]))
    case Close =>
      var append := IsRoot(p.stack) && !p.sawChosen;
      if p.stack == [] then InvalidData
      else
        Ok((Patch(p.stack[..|p.stack| - 1], p.sawRoot, p.sawChosen || append),
            if append then [Open(CHOSEN)] + props + [Close] + [Close] else [Close]))
    case Attr(name, _) => Ok((p, if IsChosen(p.stack) && Managed(name) then [] else [e]))
  }

  function PatchEvents(props: seq<Event>, p: Patch, evs: seq<Event>): Result<seq<Event>>
    decreases |evs|
  {
    if evs == [] then
      if p.sawRoot && p.stack == [] then Ok([]) else InvalidData
    else
      var (p', out) :- EventStep(props, p, evs[0]);
      Before(out, PatchEvents(props, p', evs[1..]))
  }

  /// One rewritten token resolves to the rewritten event.
  lemma StepSimulates(props: seq<Token>, strings: bytes, p: Patch, t: Token)
    requires Fin !in props && t != Fin && TokenEvents(strings, t).Some? && Resolve(strings, props).Some?
    ensures
      var evs, step := TokenEvents(strings, t).value, PatchStep(props, strings, p, t);
      if evs == [] then step == Ok((p, [t]))
      else
        var estep := EventStep(Resolve(strings, props).value, p, evs[0]);
        && |evs| == 1
        && (step.Ok? <==> estep.Ok?)
        && (step.Ok? ==> step.value.0 == estep.value.0 && Resolve(strings, step.value.1) == Some(estep.value.1))
  {
    hide IsChosen, IsRoot, Managed, StringAt, Resolve;
    ResolveOne(strings, t);
    assert Resolve(strings, []) == Some([]) by { ResolveNone(strings); }
    match t
    case Begin(name, _) =>
      ResolveOne(strings, NewBegin(name));
      ResolveAppend(strings, [NewBegin(name)], props);
    case End =>
      ResolveOne(strings, NewBegin(CHOSEN));
      ResolveAppend(strings, [NewBegin(CHOSEN)], props);
      ResolveAppend(strings, [NewBegin(CHOSEN)] + props, [End]);
      ResolveAppend(strings, [NewBegin(CHOSEN)] + props + [End], [End]);
      ResolveOne(strings, End);
    case _ =>
  }

  lemma ResolveNone(strings: bytes)
    ensures Resolve(strings, []) == Some([])
  {
  }

  lemma {:induction false} PatchSimulates(props: seq<Token>, strings: bytes, p: Patch, ts: seq<Token>)
    requires Fin !in props && Fin !in ts && Resolve(strings, ts).Some? && Resolve(strings, props).Some?
    ensures
      var out, evs := PatchTokens(props, strings, p, ts), PatchEvents(Resolve(strings, props).value, p, Resolve(strings, ts).value);
      && (out.Ok? <==> evs.Ok?)
      && (out.Ok? ==> Resolve(strings, out.value) == Some(evs.value))
    decreases |ts|
  {
    hide PatchStep, EventStep, TokenEvents;
    if ts != [] {
      StepSimulates(props, strings, p, ts[0]);
      var head, rest := TokenEvents(strings, ts[0]).value, Resolve(strings, ts[1..]).value;
      var evs := head + rest;
      assert head == [] ==> evs == rest;
      assert head != [] ==> evs[0] == head[0] && evs[1..] == rest;
      var step := PatchStep(props, strings, p, ts[0]);
      if step.Ok? {
        var (p', out) := step.value;
        PatchSimulates(props, strings, p', ts[1..]);
        var more := PatchTokens(props, strings, p', ts[1..]);
        if more.Ok? {
          ResolveAppend(strings, out, more.value);
          ResolveOne(strings, ts[0]);
          assert forall x: seq<Event> :: [] + x == x;
        }
      }
    }
  }

  // ... and on trees.

  function ChosenProperties(cmdline: bytes, initrd: Option<Initrd>): seq<Property> {
    (if cmdline != [] then [Property(PROP_BOOTARGS, cmdline + [0])] else [])
    + (if initrd.Some?
       then [Property(PROP_INITRD_START, Be64(initrd.value.start)), Property(PROP_INITRD_END, Be64(initrd.value.end))]
       else [])
    + [Property(PROP_BOOTED_FROM_KEXEC, [])]
  }

  function Unmanaged(props: seq<Property>): (r: seq<Property>) {
    if props == [] then []
    else (if Managed(props[0].name) then [] else [props[0]]) + Unmanaged(props[1..])
  }

  function PatchChosenNode(node: Node, props: seq<Property>): Node {
    node.(props := props + Unmanaged(node.props))
  }

  /// Only /chosen changes: its managed properties are replaced at the front, or a new
  /// last /chosen is appended when there is none.
  function PatchTree(root: Node, props: seq<Property>): Node {
    match ChildIndex(root.children, CHOSEN)
    case Some(i) => root.(children := root.children[i := PatchChosenNode(root.children[i], props)])
    case None => root.(children := root.children + [Node(CHOSEN, props, [])])
  }

  /// No node at or below this stack is the root or /chosen.
  predicate Elsewhere(stack: seq<bytes>) {
    |stack| >= 3 || (|stack| == 2 && !IsChosen(stack))
  }

  lemma {:induction false} PatchPropsElsewhere(new': seq<Event>, p: Patch, props: seq<Property>, rest: seq<Event>)
    requires !IsChosen(p.stack)
    ensures PatchEvents(new', p, PropEvents(props) + rest) == Before(PropEvents(props), PatchEvents(new', p, rest))
    decreases |props|
  {
    var out := PatchEvents(new', p, rest);
    if props == [] {
      assert PropEvents(props) + rest == rest;
      assert out.Ok? ==> [] + out.value == out.value;
    } else {
      assert (PropEvents(props) + rest)[1..] == PropEvents(props[1..]) + rest;
      PatchPropsElsewhere(new', p, props[1..], rest);
      BeforeBefore([Attr(props[0].name, props[0].value)], PropEvents(props[1..]), out);
    }
  }

  lemma {:induction false} PatchNodeElsewhere(new': seq<Event>, p: Patch, node: Node, rest: seq<Event>)
    requires Elsewhere(p.stack + [node.name]) && p.sawRoot
    ensures PatchEvents(new', p, Events(node) + rest) == Before(Events(node), PatchEvents(new', p, rest))
    decreases node, 1
  {
    var inside := p.(stack := p.stack + [node.name]);
    var tail, out := [Close] + rest, PatchEvents(new', p, rest);
    var props, kids := PropEvents(node.props), ForestEvents(node.children);
    assert Events(node) + rest == [Open(node.name)] + (props + (kids + tail));
    PatchPropsElsewhere(new', inside, node.props, kids + tail);
    PatchForestElsewhere(new', inside, node.children, tail);
    assert tail[1..] == rest && inside.stack[..|p.stack|] == p.stack;
    assert PatchEvents(new', inside, tail) == Before([Close], out);
    BeforeBefore(kids, [Close], out);
    BeforeBefore(props, kids + [Close], out);
    BeforeBefore([Open(node.name)], props + (kids + [Close]), out);
    assert [Open(node.name)] + (props + (kids + [Close])) == Events(node);
  }

  lemma {:induction false} PatchForestElsewhere(new': seq<Event>, p: Patch, nodes: seq<Node>, rest: seq<Event>)
    requires p.sawRoot && forall n <- nodes :: Elsewhere(p.stack + [n.name])
    ensures PatchEvents(new', p, ForestEvents(nodes) + rest) == Before(ForestEvents(nodes), PatchEvents(new', p, rest))
    decreases nodes, 0
  {
    var out := PatchEvents(new', p, rest);
    if nodes == [] {
      assert ForestEvents(nodes) + rest == rest;
      assert out.Ok? ==> [] + out.value == out.value;
    } else {
      var more := ForestEvents(nodes[1..]);
      assert ForestEvents(nodes) + rest == Events(nodes[0]) + (more + rest);
      PatchNodeElsewhere(new', p, nodes[0], more + rest);
      PatchForestElsewhere(new', p, nodes[1..], rest);
      BeforeBefore(Events(nodes[0]), more, out);
    }
  }

  lemma PatchAttr(new': seq<Event>, p: Patch, attr: Event, rest: seq<Event>)
    requires IsChosen(p.stack) && attr.Attr?
    ensures PatchEvents(new', p, [attr] + rest) ==
      Before(if Managed(attr.name) then [] else [attr], PatchEvents(new', p, rest))
  {
    hide IsChosen, Managed;
    assert ([attr] + rest)[1..] == rest;
  }

  lemma UnmanagedStep(props: seq<Property>)
    requires props != []
    ensures PropEvents(Unmanaged(props)) ==
      (if Managed(props[0].name) then [] else [Attr(props[0].name, props[0].value)]) + PropEvents(Unmanaged(props[1..]))
  {
    hide Managed;
    var rest := Unmanaged(props[1..]);
    if Managed(props[0].name) {
      assert [] + rest == rest && [] + PropEvents(rest) == PropEvents(rest);
    } else {
      assert ([props[0]] + rest)[1..] == rest;
    }
  }

  lemma PropEventsHead(props: seq<Property>, rest: seq<Event>)
    requires props != []
    ensures PropEvents(props) + rest == [Attr(props[0].name, props[0].value)] + (PropEvents(props[1..]) + rest)
  {
  }

  lemma {:induction false} PatchPropsChosen(new': seq<Event>, p: Patch, props: seq<Property>, rest: seq<Event>)
    requires IsChosen(p.stack)
    ensures PatchEvents(new', p, PropEvents(props) + rest) ==
      Before(PropEvents(Unmanaged(props)), PatchEvents(new', p, rest))
    decreases |props|
  {
    var out := PatchEvents(new', p, rest);
    if props == [] {
      assert PropEvents(props) + rest == rest;
      assert out.Ok? ==> [] + out.value == out.value;
    } else {
      hide IsChosen, Managed, PatchEvents, PropEvents, Unmanaged;
      var attr := Attr(props[0].name, props[0].value);
      PropEventsHead(props, rest);
      PatchAttr(new', p, attr, PropEvents(props[1..]) + rest);
      PatchPropsChosen(new', p, props[1..], rest);
      UnmanagedStep(props);
      BeforeBefore(if Managed(attr.name) then [] else [attr], PropEvents(Unmanaged(props[1..])), out);
    }
  }

  lemma PatchOpens(new': seq<Event>, p: Patch, name: bytes, body: seq<Event>)
    requires p.stack != []
    ensures
      var chosen := IsChosen(p.stack + [name]);
      PatchEvents(new', p, [Open(name)] + body) ==
      Before(if chosen then [Open(name)] + new' else [Open(name)],
             PatchEvents(new', p.(stack := p.stack + [name], sawChosen := p.sawChosen || chosen), body))
  {
    assert ([Open(name)] + body)[1..] == body;
  }

  lemma PatchCloses(new': seq<Event>, p: Patch, name: bytes, rest: seq<Event>)
    requires p.stack != []
    ensures PatchEvents(new', p.(stack := p.stack + [name]), [Close] + rest) == Before([Close], PatchEvents(new', p, rest))
  {
    assert ([Close] + rest)[1..] == rest && (p.stack + [name])[..|p.stack|] == p.stack;
  }

  lemma PatchedNodeEvents(node: Node, props: seq<Property>)
    requires node.name == CHOSEN
    ensures Events(PatchChosenNode(node, props)) ==
      [Open(CHOSEN)] + PropEvents(props) + (PropEvents(Unmanaged(node.props)) + (ForestEvents(node.children) + [Close]))
  {
    hide PropEvents, ForestEvents, Unmanaged;
    PropEventsAppend(props, Unmanaged(node.props));
  }

  lemma PatchNodeChosen(props: seq<Property>, p: Patch, node: Node, rest: seq<Event>)
    requires p.stack == [[]] && p.sawRoot && node.name == CHOSEN
    ensures PatchEvents(PropEvents(props), p, Events(node) + rest) ==
      Before(Events(PatchChosenNode(node, props)), PatchEvents(PropEvents(props), p.(sawChosen := true), rest))
  {
    var new', q := PropEvents(props), p.(sawChosen := true);
    var inside := q.(stack := p.stack + [CHOSEN]);
    assert IsChosen(inside.stack) && forall n <- node.children :: Elsewhere(inside.stack + [n.name]);
    var out := PatchEvents(new', q, rest);
    hide PatchEvents, IsChosen, Elsewhere, ForestEvents, PropEvents, Unmanaged, Before;
    var kept, kids := PropEvents(Unmanaged(node.props)), ForestEvents(node.children);
    var tail := [Close] + rest;
    EventsThen(node, rest);
    PatchOpens(new', p, CHOSEN, PropEvents(node.props) + (kids + tail));
    PatchPropsChosen(new', inside, node.props, kids + tail);
    PatchForestElsewhere(new', inside, node.children, tail);
    PatchCloses(new', q, CHOSEN, rest);
    BeforeBefore(kids, [Close], out);
    BeforeBefore(kept, kids + [Close], out);
    BeforeBefore([Open(CHOSEN)] + new', kept + (kids + [Close]), out);
    PatchedNodeEvents(node, props);
  }

  lemma NotChosenElsewhere(nodes: seq<Node>)
    requires forall n <- nodes :: n.name != CHOSEN
    ensures forall n <- nodes :: Elsewhere([[]] + [n.name])
  {
  }

  /// On an accepted tree the streaming rewriter computes `PatchTree`.
  lemma PatchTreeEvents(root: Node, props: seq<Property>)
    requires WfTree(root)
    ensures PatchEvents(PropEvents(props), PATCH_START, Events(root)) == Ok(Events(PatchTree(root, props)))
  {
    hide Elsewhere, UniqueChildren, WfNode, ForestEvents, PropEvents, PatchChosenNode;
    var new', p := PropEvents(props), Patch([[]], true, false);
    var old', kids, tail := PropEvents(root.props), ForestEvents(root.children), [Close];
    assert PATCH_START.stack + [[]] == p.stack && tail[1..] == [];
    assert Events(root) == [Open([])] + (old' + (kids + tail));
    PatchPropsElsewhere(new', p, root.props, kids + tail);
    PatchRootChildren(root, props);
    var kids' := ForestEvents(PatchTree(root, props).children);
    assert [Open([])] + (old' + (kids' + tail)) == Events(PatchTree(root, props));
  }

  lemma PatchAppendsChosen(nodes: seq<Node>, props: seq<Property>)
    requires forall n <- nodes :: n.name != CHOSEN
    ensures PatchEvents(PropEvents(props), Patch([[]], true, false), ForestEvents(nodes) + [Close]) ==
      Ok(ForestEvents(nodes + [Node(CHOSEN, props, [])]) + [Close])
  {
    var new', p, tail, added := PropEvents(props), Patch([[]], true, false), [Close], Node(CHOSEN, props, []);
    assert Events(added) == [Open(CHOSEN)] + new' + [Close] by {
      assert [Open(CHOSEN)] + new' + [] == [Open(CHOSEN)] + new';
    }
    assert PatchEvents(new', p, tail) == Ok(Events(added) + [Close]) by {
      assert tail[1..] == [] && p.stack[..0] == [];
      BeforeNil(Events(added) + [Close], Ok([]));
    }
    hide *;
    NotChosenElsewhere(nodes);
    PatchForestElsewhere(new', p, nodes, tail);
    ForestEventsSnoc(nodes, added);
    OkBefore(ForestEvents(nodes), Events(added) + [Close]);
    assert ForestEvents(nodes) + (Events(added) + [Close]) == ForestEvents(nodes) + Events(added) + [Close];
  }

  lemma OkBefore<T>(x: seq<T>, y: seq<T>)
    ensures Before(x, Ok(y)) == Ok(x + y)
  {
  }

  lemma PatchReplacesChosen(before: seq<Node>, node: Node, after: seq<Node>, props: seq<Property>)
    requires node.name == CHOSEN
    requires (forall n <- before :: n.name != CHOSEN) && (forall n <- after :: n.name != CHOSEN)
    ensures PatchEvents(PropEvents(props), Patch([[]], true, false),
                        ForestEvents(before) + (Events(node) + (ForestEvents(after) + [Close]))) ==
      Ok(ForestEvents(before) + (Events(PatchChosenNode(node, props)) + (ForestEvents(after) + [Close])))
  {
    var new', p, q := PropEvents(props), Patch([[]], true, false), Patch([[]], true, true);
    var more, tail := ForestEvents(after), [Close];
    assert PatchEvents(new', q, tail) == Ok(tail) by {
      assert tail[1..] == [] && q.stack[..0] == [];
      BeforeNil(tail, Ok([]));
    }
    hide *;
    NotChosenElsewhere(before);
    NotChosenElsewhere(after);
    PatchForestElsewhere(new', p, before, Events(node) + (more + tail));
    PatchNodeChosen(props, p, node, more + tail);
    PatchForestElsewhere(new', q, after, tail);
    var node' := PatchChosenNode(node, props);
    OkBefore(more, tail);
    OkBefore(Events(node'), more + tail);
    OkBefore(ForestEvents(before), Events(node') + (more + tail));
  }

  lemma PatchRootChildren(root: Node, props: seq<Property>)
    requires WfTree(root)
    ensures PatchEvents(PropEvents(props), Patch([[]], true, false), ForestEvents(root.children) + [Close]) ==
      Ok(ForestEvents(PatchTree(root, props).children) + [Close])
  {
    hide PatchEvents, Events, ForestEvents, PropEvents;
    var nodes, i := root.children, ChildIndex(root.children, CHOSEN);
    if i.None? {
      PatchAppendsChosen(nodes, props);
    } else {
      var before, node, after := nodes[..i.value], nodes[i.value], nodes[i.value + 1..];
      var nodes' := PatchTree(root, props).children;
      ForestEventsAround(nodes, i.value);
      ForestEventsAround(nodes', i.value);
      assert nodes'[..i.value] == before && nodes'[i.value + 1..] == after;
      AroundChosen(root, i.value);
      PatchReplacesChosen(before, node, after, props);
      assert forall x: seq<Event>, y: seq<Event>, z: seq<Event> :: x + (y + z) + [Close] == x + (y + (z + [Close]));
    }
  }

  lemma AroundChosen(root: Node, i: nat)
    requires WfTree(root) && ChildIndex(root.children, CHOSEN) == Some(i)
    ensures forall n <- root.children[..i] :: n.name != CHOSEN
    ensures forall n <- root.children[i + 1..] :: n.name != CHOSEN
  {
  }

  // The result is again an accepted tree.

  lemma {:induction false} UnmanagedIn(props: seq<Property>)
    ensures forall q <- Unmanaged(props) :: q in props && !Managed(q.name)
    ensures forall q <- props :: !Managed(q.name) ==> q in Unmanaged(props)
  {
    hide Managed;
    if props != [] {
      UnmanagedIn(props[1..]);
      assert forall q :: q in props <==> q == props[0] || q in props[1..];
    }
  }

  lemma UniqueHead(p: Property, rest: seq<Property>)
    requires UniqueProps(rest) && forall q <- rest :: q.name != p.name
    ensures UniqueProps([p] + rest)
  {
  }

  lemma {:induction false} UnmanagedMeaning(props: seq<Property>)
    requires UniqueProps(props)
    ensures UniqueProps(Unmanaged(props))
    ensures forall q <- Unmanaged(props) :: q in props && !Managed(q.name)
    ensures forall q <- props :: !Managed(q.name) ==> q in Unmanaged(props)
  {
    UnmanagedIn(props);
    if props != [] {
      UniqueTail(props);
      GetNone(props[1..], props[0].name);
      UnmanagedIn(props[1..]);
      assert Unmanaged(props) == (if Managed(props[0].name) then [] else [props[0]]) + Unmanaged(props[1..]);
      hide Managed, Unmanaged, UniqueProps;
      UnmanagedMeaning(props[1..]);
      EmptyConcat(Unmanaged(props[1..]));
      UniqueHead(props[0], Unmanaged(props[1..]));
    }
  }

  lemma ManagedNamesDiffer()
    ensures |PROP_BOOTARGS| == 8 && |PROP_INITRD_START| == 18 && |PROP_INITRD_END| == 16
    ensures |PROP_BOOTED_FROM_KEXEC| == 23
  {
  }

  lemma ChosenPropertiesUnique(cmdline: bytes, initrd: Option<Initrd>)
    ensures UniqueProps(ChosenProperties(cmdline, initrd))
    ensures forall q <- ChosenProperties(cmdline, initrd) :: Managed(q.name)
  {
    ManagedNamesDiffer();
    hide Bytes.Ascii, Bytes.Be64;
  }

  lemma JoinUnique(xs: seq<Property>, ys: seq<Property>)
    requires UniqueProps(xs) && UniqueProps(ys)
    requires forall q <- xs :: Managed(q.name)
    requires forall q <- ys :: !Managed(q.name)
    ensures UniqueProps(xs + ys)
  {
    forall i, j | 0 <= i < j < |xs + ys| ensures (xs + ys)[i].name != (xs + ys)[j].name {
      if i < |xs| <= j {
        assert (xs + ys)[i] in xs && (xs + ys)[j] in ys;
      }
    }
  }

  lemma PatchedWf(root: Node, cmdline: bytes, initrd: Option<Initrd>)
    requires WfTree(root)
    ensures WfTree(PatchTree(root, ChosenProperties(cmdline, initrd)))
  {
    hide ChosenProperties, Managed;
    var props, room := ChosenProperties(cmdline, initrd), MAX_DEPTH - 1;
    ChosenPropertiesUnique(cmdline, initrd);
    var nodes, i := root.children, ChildIndex(root.children, CHOSEN);
    if i.None? {
      var added := Node(CHOSEN, props, []);
      assert WfNode(added, room) by { assert WfForest([], room - 1); }
      assert WfForest([added], room) by { assert [added][1..] == []; }
      WfForestAppend(nodes, [added], room);
    } else {
      var node := nodes[i.value];
      WfForestAt(nodes, i.value, room);
      UnmanagedMeaning(node.props);
      JoinUnique(props, Unmanaged(node.props));
      var node' := PatchChosenNode(node, props);
      assert WfNode(node', room);
      WfForestUpdate(nodes, i.value, node', room);
    }
  }

  // What the blob reserves does not change.

  lemma PatchKeepsReserved(root: Node, props: seq<Property>)
    ensures TreeReserved(PatchTree(root, props)) == TreeReserved(root)
  {
    hide TreeReserved;
    var root' := PatchTree(root, props);
    assert |CHOSEN| != |RESERVED_MEMORY|;
    assert Child(root', RESERVED_MEMORY) == Child(root, RESERVED_MEMORY) by {
      var i, j := ChildIndex(root.children, RESERVED_MEMORY), ChildIndex(root'.children, RESERVED_MEMORY);
      assert forall k :: 0 <= k < |root.children| ==> root'.children[k].name == root.children[k].name;
    }
    TreeReservedDepends(root, root');
  }

  // The whole blob.

  function ChosenStrings(strings: bytes): Result<(bytes, Offsets)> {
    var (s1, bootargs) :- EnsureString(strings, PROP_BOOTARGS);
    var (s2, initrdStart) :- EnsureString(s1, PROP_INITRD_START);
    var (s3, initrdEnd) :- EnsureString(s2, PROP_INITRD_END);
    var (s4, bootedFromKexec) :- EnsureString(s3, PROP_BOOTED_FROM_KEXEC);
    Ok((s4, Offsets(bootargs, initrdStart, initrdEnd, bootedFromKexec)))
  }

  /// `patch_chosen`.
  method PatchChosen(dtb: bytes, cmdline: bytes, initrd: Option<Initrd>) returns (r: Result<bytes>)
    requires |cmdline| + 1 < U32_LIMIT
    ensures r == PatchedBlob(dtb, cmdline, initrd)
  {
    hide ParseHeader, PatchTokens, ChosenProps, EnsureString, BuildDtb, ReserveMap;
    var parsed := ParseHeader(dtb);
    if parsed.InvalidData? {
      return InvalidData;
    }
    var reserveMap := ReadReserveMap(dtb);
    if reserveMap.InvalidData? {
      return InvalidData;
    }
    var structure := StructBlock(dtb).value;
    var s1 := InternString(StringsBlock(dtb).value, PROP_BOOTARGS);
    if s1.InvalidData? {
      return InvalidData;
    }
    var s2 := InternString(s1.value.0, PROP_INITRD_START);
    if s2.InvalidData? {
      return InvalidData;
    }
    var s3 := InternString(s2.value.0, PROP_INITRD_END);
    if s3.InvalidData? {
      return InvalidData;
    }
    var s4 := InternString(s3.value.0, PROP_BOOTED_FROM_KEXEC);
    if s4.InvalidData? {
      return InvalidData;
    }
    var strings := s4.value.0;
    var offsets := Offsets(s1.value.1, s2.value.1, s3.value.1, s4.value.1);
    var structure' := PatchStructureBlock(structure, strings, offsets, cmdline, initrd);
    if structure'.InvalidData? {
      return InvalidData;
    }
    return BuildDtb(parsed.value, reserveMap.value, structure'.value, strings);
  }

  function PatchedBlob(dtb: bytes, cmdline: bytes, initrd: Option<Initrd>): Result<bytes>
    requires |cmdline| + 1 < U32_LIMIT
  {
    var header :- ParseHeader(dtb);
    var reserveMap :- ReserveMap(dtb);
    var structure :- StructBlock(dtb);
    var old' :- StringsBlock(dtb);
    var (strings, offsets) :- ChosenStrings(old');
    var tokens :- PatchedFrom(structure, 0, ChosenProps(offsets, cmdline, initrd), strings, PATCH_START);
    assert AllWf(tokens) by {
      ChosenPropsWf(offsets, cmdline, initrd);
      TokensAreEncoded(structure, 0);
      PatchTokensWf(ChosenProps(offsets, cmdline, initrd), strings, PATCH_START, TokensFrom(structure, 0).value);
    }
    BuildDtb(header, reserveMap, EncAll(tokens) + Enc(Fin), strings)
  }

  lemma PrefixTrans(a: bytes, b: bytes, c: bytes)
    requires a <= b <= c
    ensures a <= c
  {
  }

  lemma StringAtUnder(strings: bytes, strings': bytes, offset: nat)
    requires strings <= strings' && StringAt(strings, offset).Some?
    ensures StringAt(strings', offset) == StringAt(strings, offset)
  {
    StringAtGrows(strings, strings'[|strings|..], offset);
    assert strings' == strings + strings'[|strings|..];
  }

  ghost predicate Interned(strings: bytes, offsets: Offsets) {
    && StringAt(strings, offsets.bootargs) == Some(PROP_BOOTARGS)
    && StringAt(strings, offsets.initrdStart) == Some(PROP_INITRD_START)
    && StringAt(strings, offsets.initrdEnd) == Some(PROP_INITRD_END)
    && StringAt(strings, offsets.bootedFromKexec) == Some(PROP_BOOTED_FROM_KEXEC)
  }

  lemma InitrdNamesNulFree()
    ensures NulFree(PROP_INITRD_START) && NulFree(PROP_INITRD_END)
  {
  }

  lemma OtherNamesNulFree()
    ensures NulFree(PROP_BOOTARGS) && NulFree(PROP_BOOTED_FROM_KEXEC)
  {
  }

  lemma NamesNulFree()
    ensures NulFree(PROP_BOOTARGS) && NulFree(PROP_INITRD_START) && NulFree(PROP_INITRD_END)
    ensures NulFree(PROP_BOOTED_FROM_KEXEC)
  {
    hide *;
    InitrdNamesNulFree();
    OtherNamesNulFree();
  }

  /// The four names are interned together, without disturbing one another.
  lemma ChosenStringsMeaning(strings: bytes)
    requires ChosenStrings(strings).Ok?
    ensures strings <= ChosenStrings(strings).value.0
    ensures Interned(ChosenStrings(strings).value.0, ChosenStrings(strings).value.1)
  {
    NamesNulFree();
    hide Bytes.Ascii, Bytes.StringAt, EnsureString;
    var (s1, o1) := EnsureString(strings, PROP_BOOTARGS).value;
    EnsureStringMeaning(strings, PROP_BOOTARGS);
    var (s2, o2) := EnsureString(s1, PROP_INITRD_START).value;
    EnsureStringMeaning(s1, PROP_INITRD_START);
    var (s3, o3) := EnsureString(s2, PROP_INITRD_END).value;
    EnsureStringMeaning(s2, PROP_INITRD_END);
    var (s4, o4) := EnsureString(s3, PROP_BOOTED_FROM_KEXEC).value;
    EnsureStringMeaning(s3, PROP_BOOTED_FROM_KEXEC);
    PrefixTrans(s2, s3, s4);
    PrefixTrans(s1, s2, s4);
    PrefixTrans(strings, s1, s4);
    StringAtUnder(s1, s4, o1);
    StringAtUnder(s2, s4, o2);
    StringAtUnder(s3, s4, o3);
  }

  /// The tokens of the managed properties resolve to the properties themselves.
  lemma ChosenPropsResolve(strings: bytes, offsets: Offsets, cmdline: bytes, initrd: Option<Initrd>)
    requires Interned(strings, offsets)
    ensures Resolve(strings, ChosenProps(offsets, cmdline, initrd)) == Some(PropEvents(ChosenProperties(cmdline, initrd)))
  {
    hide Bytes.Ascii, Bytes.StringAt, Bytes.Be64, Bytes.Zeros;
    var a := if cmdline != [] then [NewProp(offsets.bootargs, cmdline + [0])] else [];
    var pa := if cmdline != [] then [Property(PROP_BOOTARGS, cmdline + [0])] else [];
    if cmdline != [] {
      ResolveProp(strings, offsets.bootargs, PROP_BOOTARGS, cmdline + [0]);
    }
    var last, plast := [NewProp(offsets.bootedFromKexec, [])], [Property(PROP_BOOTED_FROM_KEXEC, [])];
    ResolveProp(strings, offsets.bootedFromKexec, PROP_BOOTED_FROM_KEXEC, []);
    if initrd.None? {
      assert ChosenProps(offsets, cmdline, initrd) == a + last;
      assert ChosenProperties(cmdline, initrd) == pa + plast;
      ResolveAppend(strings, a, last);
      PropEventsAppend(pa, plast);
    } else {
      var i, j := Be64(initrd.value.start), Be64(initrd.value.end);
      var x, y := [NewProp(offsets.initrdStart, i)], [NewProp(offsets.initrdEnd, j)];
      var px, py := [Property(PROP_INITRD_START, i)], [Property(PROP_INITRD_END, j)];
      ResolveProp(strings, offsets.initrdStart, PROP_INITRD_START, i);
      ResolveProp(strings, offsets.initrdEnd, PROP_INITRD_END, j);
      assert ChosenProps(offsets, cmdline, initrd) == a + (x + y) + last;
      assert ChosenProperties(cmdline, initrd) == pa + (px + py) + plast;
      ResolveAppend(strings, x, y);
      PropEventsAppend(px, py);
      ResolveAppend(strings, a, x + y);
      PropEventsAppend(pa, px + py);
      ResolveAppend(strings, a + (x + y), last);
      PropEventsAppend(pa + (px + py), plast);
    }
  }

  lemma ResolveProp(strings: bytes, offset: u32, name: bytes, value: bytes)
    requires StringAt(strings, offset) == Some(name)
    ensures Resolve(strings, [NewProp(offset, value)]) == Some(PropEvents([Property(name, value)]))
  {
    ResolveOne(strings, NewProp(offset, value));
    assert [Property(name, value)][1..] == [];
    assert [Attr(name, value)] + [] == [Attr(name, value)];
  }

  /// `patch_chosen` preserves meaning: only /chosen changes, and what the blob reserves does not.
  lemma PatchChosenMeaning(dtb: bytes, cmdline: bytes, initrd: Option<Initrd>)
    requires |cmdline| + 1 < U32_LIMIT
    requires ContractTree(dtb).Ok? && PatchedBlob(dtb, cmdline, initrd).Ok?
    ensures
      var t, out := ContractTree(dtb).value, PatchedBlob(dtb, cmdline, initrd).value;
      && ContractTree(out) == Ok(PatchTree(t, ChosenProperties(cmdline, initrd)))
      && ReservedRanges(out) == ReservedRanges(dtb)
  {
    hide *;
    var new' := PatchTree(ContractTree(dtb).value, ChosenProperties(cmdline, initrd));
    var out := PatchedBlob(dtb, cmdline, initrd).value;
    PatchedBlobParses(dtb, cmdline, initrd);
    PatchKeepsReserved(ContractTree(dtb).value, ChosenProperties(cmdline, initrd));
    ReservedRangesAreTree(dtb);
    ReservedRangesAreTree(out);
  }

  /// The rewritten blocks denote the rewritten tree.
  lemma PatchedBlocksParse(structure: bytes, names: bytes, cmdline: bytes, initrd: Option<Initrd>)
    requires |cmdline| + 1 < U32_LIMIT
    requires TreeOf(structure, names).Ok? && ChosenStrings(names).Ok?
    ensures
      var (strings, offsets) := ChosenStrings(names).value;
      var tokens := PatchedFrom(structure, 0, ChosenProps(offsets, cmdline, initrd), strings, PATCH_START);
      && tokens.Ok? && AllWf(tokens.value)
      && TreeOf(EncAll(tokens.value) + Enc(Fin), strings) ==
         Ok(PatchTree(TreeOf(structure, names).value, ChosenProperties(cmdline, initrd)))
  {
    var t := TreeOf(structure, names).value;
    var (strings, offsets) := ChosenStrings(names).value;
    var props, props' := ChosenProps(offsets, cmdline, initrd), ChosenProperties(cmdline, initrd);
    TreeOfExact(structure, names, t);
    var ts := TokensFrom(structure, 0).value;
    hide EnsureString, ChosenProps, ChosenProperties, PatchTokens, PatchEvents, Resolve, Enc, WfTree;
    ChosenStringsMeaning(names);
    ResolveUnder(names, strings, ts);
    ChosenPropsResolve(strings, offsets, cmdline, initrd);
    ChosenPropsWf(offsets, cmdline, initrd);
    PatchTreeEvents(t, props');
    PatchSimulates(props, strings, PATCH_START, ts);
    TokensAreEncoded(structure, 0);
    PatchTokensWf(props, strings, PATCH_START, ts);
    var tokens := PatchTokens(props, strings, PATCH_START, ts).value;
    PatchedWf(t, cmdline, initrd);
    EncodedDenotes(tokens, strings, PatchTree(t, props'));
  }

  lemma PatchedBlobParses(dtb: bytes, cmdline: bytes, initrd: Option<Initrd>)
    requires |cmdline| + 1 < U32_LIMIT
    requires ContractTree(dtb).Ok? && PatchedBlob(dtb, cmdline, initrd).Ok?
    ensures
      var t, out := ContractTree(dtb).value, PatchedBlob(dtb, cmdline, initrd).value;
      && ContractTree(out) == Ok(PatchTree(t, ChosenProperties(cmdline, initrd)))
      && ReserveMapRanges(out) == ReserveMapRanges(dtb)
  {
    var structure, names := StructBlock(dtb).value, StringsBlock(dtb).value;
    var header, reserveMap := ParseHeader(dtb).value, ReserveMap(dtb).value;
    PatchedBlocksParse(structure, names, cmdline, initrd);
    ReadMapOk(dtb);
    hide TreeOf, ParseHeader, BuildDtb, ReserveMap, EnsureString, ChosenProps, PatchTokens;
    var (strings, offsets) := ChosenStrings(names).value;
    var tokens := PatchedFrom(structure, 0, ChosenProps(offsets, cmdline, initrd), strings, PATCH_START).value;
    BuiltBlocks(header, reserveMap, EncAll(tokens) + Enc(Fin), strings);
    BuiltMap(header, reserveMap, EncAll(tokens) + Enc(Fin), strings);
  }
}
