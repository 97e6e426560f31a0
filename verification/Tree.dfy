/// Devicetrees as trees: the meaning of an event stream, and the stack parser that
/// recovers the tree from it.
module Tree {
  import opened Bytes
  import opened Tokens

  datatype Property = Property(name: bytes, value: bytes)

  datatype Node = Node(name: bytes, props: seq<Property>, children: seq<Node>)

  const MAX_DEPTH: nat := 64

  function NewNode(name: bytes): Node { Node(name, [], []) }

  /// The first property with this name.
  function GetProp(props: seq<Property>, name: bytes): Option<bytes> {
    if props == [] then None
    else if props[0].name == name then Some(props[0].value)
    else GetProp(props[1..], name)
  }

  function Get(node: Node, name: bytes): Option<bytes> { GetProp(node.props, name) }

  lemma GetOne(p: Property, name: bytes)
    ensures GetProp([p], name) == if p.name == name then Some(p.value) else None
  {
    assert [p][1..] == [] && GetProp([], name).None?;
  }

  lemma GetThree(p: Property, q: Property, r: Property, name: bytes)
    ensures GetProp([p, q, r], name) ==
      if p.name == name then Some(p.value) else if q.name == name then Some(q.value)
      else if r.name == name then Some(r.value) else None
  {
    assert [p, q, r][1..] == [q, r] && [q, r][1..] == [r];
    GetOne(r, name);
  }

  /// Index of the first child with this name.
  function ChildIndex(children: seq<Node>, name: bytes): (r: Option<nat>)
    ensures r.Some? ==> r.value < |children| && children[r.value].name == name
    ensures r.Some? ==> forall i :: 0 <= i < r.value ==> children[i].name != name
    ensures r.None? ==> forall i :: 0 <= i < |children| ==> children[i].name != name
  {
    if children == [] then None
    else if children[0].name == name then Some(0)
    else
      var r := ChildIndex(children[1..], name);
      if r.None? then
        assert forall i :: 1 <= i < |children| ==> children[i] == children[1..][i - 1];
        None
      else
        assert forall i :: 1 <= i <= r.value ==> children[i] == children[1..][i - 1];
        Some(r.value + 1)
  }

  function Child(node: Node, name: bytes): Option<Node> {
    var i :- ChildIndex(node.children, name);
    Some(node.children[i])
  }

  // The event stream of a tree.

  function PropEvents(props: seq<Property>): seq<Event> {
    if props == [] then [] else [Attr(props[0].name, props[0].value)] + PropEvents(props[1..])
  }

  function Events(node: Node): seq<Event>
    decreases node, 1
  {
    [Open(node.name)] + PropEvents(node.props) + ForestEvents(node.children) + [Close]
  }

  function ForestEvents(nodes: seq<Node>): seq<Event>
    decreases nodes, 0
  {
    if nodes == [] then [] else Events(nodes[0]) + ForestEvents(nodes[1..])
  }

  lemma EventsThen(node: Node, rest: seq<Event>)
    ensures Events(node) + rest ==
      [Open(node.name)] + (PropEvents(node.props) + (ForestEvents(node.children) + ([Close] + rest)))
  {
    hide PropEvents, ForestEvents;
  }

  lemma {:induction false} PropEventsAppend(xs: seq<Property>, ys: seq<Property>)
    ensures PropEvents(xs + ys) == PropEvents(xs) + PropEvents(ys)
  {
    if xs == [] {
      EmptyConcat(ys);
      EmptyConcat(PropEvents(ys));
    } else {
      ConsConcat(xs, ys);
      PropEventsAppend(xs[1..], ys);
      Assoc([Attr(xs[0].name, xs[0].value)], PropEvents(xs[1..]), PropEvents(ys));
    }
  }

  lemma {:induction false} ForestEventsAppend(xs: seq<Node>, ys: seq<Node>)
    ensures ForestEvents(xs + ys) == ForestEvents(xs) + ForestEvents(ys)
    decreases |xs|
  {
    hide Events;
    if xs == [] {
      EmptyConcat(ys);
      EmptyConcat(ForestEvents(ys));
    } else {
      ConsConcat(xs, ys);
      ForestEventsAppend(xs[1..], ys);
      Assoc(Events(xs[0]), ForestEvents(xs[1..]), ForestEvents(ys));
    }
  }

  lemma ForestEventsAround(nodes: seq<Node>, i: nat)
    requires i < |nodes|
    ensures ForestEvents(nodes) == ForestEvents(nodes[..i]) + (Events(nodes[i]) + ForestEvents(nodes[i + 1..]))
  {
    hide Events;
    SplitAround(nodes, i);
    var rest := [nodes[i]] + nodes[i + 1..];
    assert ForestEvents(rest) == Events(nodes[i]) + ForestEvents(nodes[i + 1..]) by {
      ConsConcat([nodes[i]], nodes[i + 1..]);
      EmptyConcat(nodes[i + 1..]);
    }
    hide *;
    ForestEventsAppend(nodes[..i], rest);
  }

  // The trees that the parser accepts.

  ghost predicate UniqueProps(props: seq<Property>) {
    forall i, j :: 0 <= i < j < |props| ==> props[i].name != props[j].name
  }

  ghost predicate UniqueChildren(nodes: seq<Node>) {
    forall i, j :: 0 <= i < j < |nodes| ==> nodes[i].name != nodes[j].name
  }

  /// Unique property and sibling names, and no node nested deeper than `room`.
  ghost predicate WfNode(node: Node, room: nat)
    decreases node, 1
  {
    room > 0 && UniqueProps(node.props) && UniqueChildren(node.children) && WfForest(node.children, room - 1)
  }

  ghost predicate WfForest(nodes: seq<Node>, room: nat)
    decreases nodes, 0
  {
    nodes == [] || (WfNode(nodes[0], room) && WfForest(nodes[1..], room))
  }

  ghost predicate WfTree(root: Node) {
    root.name == [] && WfNode(root, MAX_DEPTH)
  }

  lemma {:induction false} WfForestAppend(xs: seq<Node>, ys: seq<Node>, room: nat)
    ensures WfForest(xs + ys, room) <==> WfForest(xs, room) && WfForest(ys, room)
    decreases |xs|
  {
    hide WfNode;
    if xs == [] {
      EmptyConcat(ys);
    } else {
      ConsConcat(xs, ys);
      WfForestAppend(xs[1..], ys, room);
    }
  }

  lemma {:induction false} WfForestAt(nodes: seq<Node>, i: nat, room: nat)
    requires i < |nodes| && WfForest(nodes, room)
    ensures WfNode(nodes[i], room)
    decreases |nodes|
  {
    if i > 0 {
      WfForestAt(nodes[1..], i - 1, room);
    }
  }

  lemma {:induction false} WfForestUpdate(nodes: seq<Node>, i: nat, node: Node, room: nat)
    requires i < |nodes| && WfForest(nodes, room) && WfNode(node, room)
    ensures WfForest(nodes[i := node], room)
    decreases |nodes|
  {
    var nodes' := nodes[i := node];
    if i == 0 {
      assert nodes'[1..] == nodes[1..];
    } else {
      WfForestUpdate(nodes[1..], i - 1, node, room);
      assert nodes'[1..] == nodes[1..][i - 1 := node];
    }
  }

  lemma {:induction false} WfForestFromAll(nodes: seq<Node>, room: nat)
    requires forall i :: 0 <= i < |nodes| ==> WfNode(nodes[i], room)
    ensures WfForest(nodes, room)
    decreases |nodes|
  {
    if nodes != [] {
      WfForestFromAll(nodes[1..], room);
    }
  }

  /// One step of the stack parser; `stack` holds the open nodes, innermost last.
  function AddProp(stack: seq<Node>, p: Property): Result<seq<Node>> {
    if stack == [] then InvalidData
    else
      var top := stack[|stack| - 1];
      if Get(top, p.name).Some? || top.children != [] then InvalidData
      else Ok(stack[|stack| - 1 := top.(props := top.props + [p])])
  }

  /// Closes the innermost node into its parent; requires a parent.
  function AddChild(stack: seq<Node>): Result<seq<Node>>
    requires |stack| >= 2
  {
    var node, parent := stack[|stack| - 1], stack[|stack| - 2];
    if Child(parent, node.name).Some? then InvalidData
    else Ok(stack[..|stack| - 2] + [parent.(children := parent.children + [node])])
  }

  /// The token loop of `contract_tree`, as a function of the events still to come.
  function Parse(stack: seq<Node>, root: Option<Node>, evs: seq<Event>): Result<Node>
    decreases |evs|
  {
    if evs == [] then
      if stack == [] && root.Some? then Ok(root.value) else InvalidData
    else
      match evs[0]
      case Open(name) =>
        if stack == [] && (root.Some? || name != []) then InvalidData
        else if |stack| >= MAX_DEPTH then InvalidData
        else Parse(stack + [NewNode(name)], root, evs[1..])
      case Close =>
        if stack == [] then InvalidData
        else if |stack| == 1 then Parse([], Some(stack[0]), evs[1..])
        else
          var stack' :- AddChild(stack);
          Parse(stack', root, evs[1..])
      case Attr(name, value) =>
        var stack' :- AddProp(stack, Property(name, value));
        Parse(stack', root, evs[1..])
  }

  // Soundness: whatever the parser accepts is the event stream of the tree it returns.

  /// Events already consumed to build the open nodes.
  function OpenEvents(stack: seq<Node>): seq<Event> {
    if stack == [] then []
    else
      var top := stack[|stack| - 1];
      OpenEvents(stack[..|stack| - 1]) +
      ([Open(top.name)] + PropEvents(top.props) + ForestEvents(top.children))
  }

  ghost predicate WfStack(stack: seq<Node>) {
    && |stack| <= MAX_DEPTH
    && (stack != [] ==> stack[0].name == [])
    && forall d :: 0 <= d < |stack| ==> WfNode(stack[d], MAX_DEPTH - d)
  }

  lemma {:induction false} GetNone(props: seq<Property>, name: bytes)
    ensures GetProp(props, name).None? <==> forall i :: 0 <= i < |props| ==> props[i].name != name
  {
    if props != [] {
      GetNone(props[1..], name);
      assert forall i :: 1 <= i < |props| ==> props[i] == props[1..][i - 1];
      assert forall i :: 0 <= i < |props| - 1 ==> props[1..][i] == props[i + 1];
    }
  }

  lemma OpenEventsPush(stack: seq<Node>, node: Node)
    ensures OpenEvents(stack + [node]) ==
      OpenEvents(stack) + ([Open(node.name)] + PropEvents(node.props) + ForestEvents(node.children))
  {
    assert (stack + [node])[..|stack|] == stack;
  }

  lemma PropGrows(node: Node, p: Property)
    requires node.children == []
    ensures
      [Open(node.name)] + PropEvents(node.props + [p]) + ForestEvents([]) ==
      ([Open(node.name)] + PropEvents(node.props) + ForestEvents(node.children)) + [Attr(p.name, p.value)]
  {
    PropEventsAppend(node.props, [p]);
    assert PropEvents([p]) == [Attr(p.name, p.value)] by { assert [p][1..] == []; }
    assert ForestEvents([]) == [];
    hide PropEvents, ForestEvents;
  }

  lemma AddPropEvents(stack: seq<Node>, p: Property)
    requires WfStack(stack) && AddProp(stack, p).Ok?
    ensures
      var stack' := AddProp(stack, p).value;
      WfStack(stack') && OpenEvents(stack') == OpenEvents(stack) + [Attr(p.name, p.value)]
  {
    hide OpenEvents, PropEvents, ForestEvents, GetProp;
    var n, stack' := |stack| - 1, AddProp(stack, p).value;
    var top := stack[n];
    var top' := top.(props := top.props + [p]);
    SplitTop(stack, top');
    OpenEventsPush(stack[..n], top);
    OpenEventsPush(stack[..n], top');
    PropGrows(top, p);
    Assoc(OpenEvents(stack[..n]), [Open(top.name)] + PropEvents(top.props) + ForestEvents(top.children),
                [Attr(p.name, p.value)]);
    GetNone(top.props, p.name);
  }

  lemma SplitTop(stack: seq<Node>, top: Node)
    requires stack != []
    ensures stack == stack[..|stack| - 1] + [stack[|stack| - 1]]
    ensures stack[|stack| - 1 := top] == stack[..|stack| - 1] + [top]
  {
  }

  lemma {:induction false} ForestEventsSnoc(nodes: seq<Node>, node: Node)
    ensures ForestEvents(nodes + [node]) == ForestEvents(nodes) + Events(node)
  {
    ForestEventsAppend(nodes, [node]);
    assert [node][1..] == [];
    assert ForestEvents([node]) == Events(node) + ForestEvents([]);
  }

  lemma Regroup<T>(a: seq<T>, b: seq<T>, c: seq<T>, d: seq<T>, e: seq<T>)
    ensures a + (b + (c + (d + e))) == a + (b + c) + d + e
  {
  }

  lemma LastTwo<T>(s: seq<T>)
    requires |s| >= 2
    ensures s == s[..|s| - 2] + [s[|s| - 2]] + [s[|s| - 1]]
  {
  }

  lemma CloseEvents(base: seq<Node>, parent: Node, node: Node)
    ensures OpenEvents(base + [parent.(children := parent.children + [node])]) ==
      OpenEvents(base + [parent] + [node]) + [Close]
  {
    hide OpenEvents, ForestEvents, PropEvents;
    OpenEventsPush(base + [parent], node);
    OpenEventsPush(base, parent);
    OpenEventsPush(base, parent.(children := parent.children + [node]));
    ForestEventsSnoc(parent.children, node);
    Regroup(OpenEvents(base), [Open(parent.name)] + PropEvents(parent.props), ForestEvents(parent.children),
            [Open(node.name)] + PropEvents(node.props) + ForestEvents(node.children), [Close]);
  }

  lemma AddChildEvents(stack: seq<Node>)
    requires |stack| >= 2 && AddChild(stack).Ok?
    ensures OpenEvents(AddChild(stack).value) == OpenEvents(stack) + [Close]
  {
    hide OpenEvents, Child;
    var n := |stack| - 2;
    LastTwo(stack);
    CloseEvents(stack[..n], stack[n], stack[n + 1]);
  }

  lemma AddChildWf(stack: seq<Node>)
    requires |stack| >= 2 && WfStack(stack) && AddChild(stack).Ok?
    ensures WfStack(AddChild(stack).value)
  {
    hide OpenEvents, Events;
    var n := |stack| - 2;
    var parent, node := stack[n], stack[n + 1];
    WfForestAppend(parent.children, [node], MAX_DEPTH - n - 1);
    assert [node][1..] == [];
    assert WfForest([node], MAX_DEPTH - n - 1);
  }

  lemma EventsCons(before: seq<Event>, evs: seq<Event>)
    requires evs != []
    ensures before + evs == (before + [evs[0]]) + evs[1..]
  {
  }

  lemma OpenEventsNew(stack: seq<Node>, name: bytes)
    ensures OpenEvents(stack + [NewNode(name)]) == OpenEvents(stack) + [Open(name)]
  {
    hide OpenEvents;
    OpenEventsPush(stack, NewNode(name));
    assert [Open(name)] + [] + [] == [Open(name)];
  }

  lemma OpenEventsOne(node: Node)
    ensures OpenEvents([node]) + [Close] == Events(node)
  {
    hide PropEvents, ForestEvents;
    assert [node][..0] == [] && OpenEvents([]) == [];
  }

  lemma WfPush(stack: seq<Node>, name: bytes)
    requires WfStack(stack) && |stack| < MAX_DEPTH && (stack == [] ==> name == [])
    ensures WfStack(stack + [NewNode(name)])
  {
  }

  lemma {:induction false} ParseSound(stack: seq<Node>, root: Option<Node>, evs: seq<Event>)
    requires WfStack(stack) && (root.Some? ==> stack == [] && WfTree(root.value))
    requires Parse(stack, root, evs).Ok?
    ensures
      var t := Parse(stack, root, evs).value;
      && WfTree(t)
      && (root.None? ==> Events(t) == OpenEvents(stack) + evs)
      && (root.Some? ==> evs == [] && t == root.value)
    decreases |evs|
  {
    hide Events, OpenEvents, AddChild, WfNode, Get;
    if evs != [] {
      var e, rest := evs[0], evs[1..];
      EventsCons(OpenEvents(stack), evs);
      match e
      case Open(name) =>
        OpenEventsNew(stack, name);
        WfPush(stack, name);
        ParseSound(stack + [NewNode(name)], root, rest);
      case Close =>
        if |stack| == 1 {
          OpenEventsOne(stack[0]);
          assert [stack[0]] == stack;
          ParseSound([], Some(stack[0]), rest);
          ClosedRoot(stack[0], rest);
        } else {
          AddChildEvents(stack);
          AddChildWf(stack);
          ParseSound(AddChild(stack).value, root, rest);
        }
      case Attr(name, value) =>
        AddPropEvents(stack, Property(name, value));
        ParseSound(AddProp(stack, Property(name, value)).value, root, rest);
    }
  }

  lemma ClosedRoot(node: Node, rest: seq<Event>)
    ensures rest == [] ==> Events(node) + rest == Events(node)
  {
  }

  // Completeness: the event stream of every accepted tree parses to that tree.

  lemma {:induction false} ParseProps(stack: seq<Node>, node: Node, props: seq<Property>, root: Option<Node>, rest: seq<Event>)
    requires node.children == [] && UniqueProps(node.props + props)
    ensures Parse(stack + [node], root, PropEvents(props) + rest) ==
      Parse(stack + [node.(props := node.props + props)], root, rest)
    decreases |props|
  {
    var evs := PropEvents(props) + rest;
    if props == [] {
      assert evs == rest && node.props + props == node.props;
    } else {
      var p := props[0];
      var node' := node.(props := node.props + [p]);
      assert evs[0] == Attr(p.name, p.value) && evs[1..] == PropEvents(props[1..]) + rest;
      assert Get(node, p.name).None? by {
        GetNone(node.props, p.name);
        assert forall i :: 0 <= i < |node.props| ==> (node.props + props)[i] == node.props[i];
        assert (node.props + props)[|node.props|] == p;
      }
      assert (stack + [node])[|stack| := node'] == stack + [node'];
      assert p == Property(p.name, p.value);
      assert node'.props + props[1..] == node.props + props;
      ParseProps(stack, node', props[1..], root, rest);
    }
  }

  lemma ParseOpen(stack: seq<Node>, name: bytes, rest: seq<Event>)
    requires stack != [] && |stack| < MAX_DEPTH
    ensures Parse(stack, None, [Open(name)] + rest) == Parse(stack + [NewNode(name)], None, rest)
  {
    hide AddChild, AddProp;
    ConsConcat([Open(name)], rest);
    EmptyConcat(rest);
  }

  lemma ParseClose(stack: seq<Node>, node: Node, rest: seq<Event>)
    requires stack != [] && ChildIndex(stack[|stack| - 1].children, node.name).None?
    ensures
      var top := stack[|stack| - 1];
      Parse(stack + [node], None, [Close] + rest) ==
      Parse(stack[..|stack| - 1] + [top.(children := top.children + [node])], None, rest)
  {
    hide AddProp, ChildIndex;
    ConsConcat([Close], rest);
    EmptyConcat(rest);
    var full := stack + [node];
    assert full[..|full| - 2] == stack[..|stack| - 1];
  }

  lemma NodeThen(node: Node, rest: seq<Event>)
    ensures Events(node) + rest == [Open(node.name)] + (PropEvents(node.props) + ForestEvents(node.children) + ([Close] + rest))
  {
    hide PropEvents, ForestEvents;
  }

  lemma {:induction false} ParseNode(stack: seq<Node>, node: Node, rest: seq<Event>)
    requires stack != [] && |stack| < MAX_DEPTH && WfNode(node, MAX_DEPTH - |stack|)
    requires ChildIndex(stack[|stack| - 1].children, node.name).None?
    ensures
      var top := stack[|stack| - 1];
      Parse(stack, None, Events(node) + rest) ==
      Parse(stack[..|stack| - 1] + [top.(children := top.children + [node])], None, rest)
    decreases node, 1
  {
    hide *;
    var tail := [Close] + rest;
    NodeThen(node, rest);
    ParseOpen(stack, node.name, PropEvents(node.props) + ForestEvents(node.children) + tail);
    ParseInside(stack, node, tail);
    ParseClose(stack, node, rest);
  }

  /// From an opened node to its closing event.
  lemma {:induction false} ParseInside(stack: seq<Node>, node: Node, tail: seq<Event>)
    requires |stack| < MAX_DEPTH && WfNode(node, MAX_DEPTH - |stack|)
    ensures Parse(stack + [NewNode(node.name)], None, PropEvents(node.props) + ForestEvents(node.children) + tail)
         == Parse(stack + [node], None, tail)
    decreases node, 0
  {
    var blank := NewNode(node.name);
    var bare := Node(node.name, node.props, []);
    assert [] + node.props == node.props;
    ParseProps(stack, blank, node.props, None, ForestEvents(node.children) + tail);
    assert PropEvents(node.props) + (ForestEvents(node.children) + tail)
        == PropEvents(node.props) + ForestEvents(node.children) + tail;
    assert bare.children + node.children == node.children;
    ParseForest(stack, bare, node.children, tail);
    assert bare.(children := node.children) == node;
  }

  lemma NewSibling(before: seq<Node>, nodes: seq<Node>)
    requires nodes != [] && UniqueChildren(before + nodes)
    ensures ChildIndex(before, nodes[0].name).None?
  {
    assert forall i :: 0 <= i < |before| ==> (before + nodes)[i] == before[i];
    assert (before + nodes)[|before|] == nodes[0];
  }

  lemma ForestHead(nodes: seq<Node>, tail: seq<Event>)
    requires nodes != []
    ensures ForestEvents(nodes) + tail == Events(nodes[0]) + (ForestEvents(nodes[1..]) + tail)
  {
    hide Events;
    Assoc(Events(nodes[0]), ForestEvents(nodes[1..]), tail);
  }

  lemma RoomLeft(node: Node, room: nat)
    requires WfNode(node, room)
    ensures room > 0
  {
  }

  lemma TopOf(stack: seq<Node>, node: Node)
    ensures (stack + [node])[..|stack|] == stack && (stack + [node])[|stack|] == node && |stack + [node]| == |stack| + 1
  {
  }

  lemma {:induction false} ParseForest(stack: seq<Node>, node: Node, nodes: seq<Node>, tail: seq<Event>)
    requires |stack| < MAX_DEPTH && WfForest(nodes, MAX_DEPTH - |stack| - 1)
    requires UniqueChildren(node.children + nodes)
    ensures Parse(stack + [node], None, ForestEvents(nodes) + tail)
         == Parse(stack + [node.(children := node.children + nodes)], None, tail)
    decreases nodes, 0
  {
    hide UniqueChildren, ChildIndex, Parse, Events, WfNode;
    if nodes == [] {
      EmptyConcat(tail);
      EmptyConcat(node.children);
    } else {
      hide ForestEvents;
      var node' := node.(children := node.children + [nodes[0]]);
      ForestHead(nodes, tail);
      NewSibling(node.children, nodes);
      TopOf(stack, node);
      RoomLeft(nodes[0], MAX_DEPTH - |stack| - 1);
      ParseNode(stack + [node], nodes[0], ForestEvents(nodes[1..]) + tail);
      assert nodes == [nodes[0]] + nodes[1..];
      Assoc(node.children, [nodes[0]], nodes[1..]);
      ParseForest(stack, node', nodes[1..], tail);
    }
  }

  /// The parser accepts exactly the event streams of well-formed trees, and returns that tree.
  lemma {:induction false} ParseExact(evs: seq<Event>, t: Node)
    ensures Parse([], None, evs) == Ok(t) <==> WfTree(t) && evs == Events(t)
  {
    if Parse([], None, evs) == Ok(t) {
      ParseSound([], None, evs);
      assert [] + evs == evs;
    }
    if WfTree(t) && evs == Events(t) {
      ParseInside([], t, [Close]);
      assert evs[1..] == PropEvents(t.props) + ForestEvents(t.children) + [Close];
      assert [] + [NewNode([])] == [NewNode([])] && [] + [t] == [t];
      assert [Close][1..] == [];
    }
  }
}
