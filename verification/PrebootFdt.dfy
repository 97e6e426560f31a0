/// The reader of `pocketpreboot/src/fdt.rs`: lookup by path, iteration over the children of a
/// node, and the skipping of a subtree, on the bytes of a structure block.
module PrebootFdt {
  import opened Bytes
  import opened Tokens
  import opened Tree

  const READER_DEPTH: nat := 32

  datatype Error = BadOffset | BadToken | BadValue | NotFound | TooDeep | Unterminated

  datatype FdtResult<+T> = Found(value: T) | Failed(error: Error)

  /// The block read from `offset` on has these events.
  ghost predicate At(b: bytes, strings: bytes, offset: nat, evs: seq<Event>) {
    offset % 4 == 0 && EventsFrom(b, strings, offset) == Some(evs)
  }

  /// A node's encoding starts at `offset`.
  ghost predicate Encodes(b: bytes, strings: bytes, offset: nat, n: Node) {
    && offset % 4 == 0 && TokenAt(b, offset).Some? && TokenAt(b, offset).value.0.Begin?
    && EventsFrom(b, strings, offset).Some? && Events(n) <= EventsFrom(b, strings, offset).value
  }

  // Reading one token.

  datatype Read = BeginAt(name: bytes) | EndAt | PropAt | NopAt | FinAt

  /// `read_be32` at the cursor and what each arm of the match reads after it.
  method ReadToken(b: bytes, cursor: nat) returns (r: FdtResult<(Read, nat)>)
    ensures r.Found? ==> r.value.1 > cursor && (cursor % 4 == 0 ==> r.value.1 % 4 == 0)
    ensures r.Found? ==> cursor + 4 <= |b| && (r.value.0.NopAt? ==> r.value.1 == cursor + 4)
    ensures TokenAt(b, cursor).Some? ==>
      var (t, next) := TokenAt(b, cursor).value;
      && r.Found? && r.value.1 == next
      && (t.Begin? ==> r.value.0 == BeginAt(t.name)) && (t.End? <==> r.value.0 == EndAt)
      && (t.Prop? <==> r.value.0 == PropAt) && (t.Nop? <==> r.value.0 == NopAt) && (t.Fin? <==> r.value.0 == FinAt)
      && (r.value.0.BeginAt? ==> t.Begin?)
  {
    hide Bytes.De32, Bytes.FindNul;
    if cursor + 4 > |b| {
      return Failed(BadOffset);
    }
    var tag := De32(b[cursor..cursor + 4]);
    if tag == FDT_BEGIN_NODE {
      var end := FindNul(b, cursor + 4);
      if end.None? {
        return Failed(Unterminated);
      }
      Align4Bounds(end.value + 1);
      return Found((BeginAt(b[cursor + 4..end.value]), Align4(end.value + 1)));
    } else if tag == FDT_END_NODE {
      return Found((EndAt, cursor + 4));
    } else if tag == FDT_PROP {
      if cursor + 12 > |b| {
        return Failed(BadOffset);
      }
      var next := Align4(cursor + 12 + De32(b[cursor + 4..cursor + 8]));
      if next > |b| {
        return Failed(BadOffset);
      }
      return Found((PropAt, next));
    } else if tag == FDT_NOP {
      return Found((NopAt, cursor + 4));
    } else if tag == FDT_END {
      return Found((FinAt, cursor + 4));
    }
    return Failed(BadToken);
  }

  lemma Align4Bounds(n: nat)
    ensures n <= Align4(n) && Align4(n) % 4 == 0
  {
  }

  /// Stepping over one token.
  lemma AtStep(b: bytes, strings: bytes, offset: nat, evs: seq<Event>)
    requires At(b, strings, offset, evs)
    ensures TokenAt(b, offset).Some?
    ensures
      var (t, next) := TokenAt(b, offset).value;
      && (t.Begin? ==> evs != [] && evs[0] == Open(t.name) && At(b, strings, next, evs[1..]))
      && (t.End? ==> evs != [] && evs[0] == Close && At(b, strings, next, evs[1..]))
      && (t.Prop? ==> evs != [] && evs[0].Attr? && At(b, strings, next, evs[1..]))
      && (t.Nop? ==> At(b, strings, next, evs))
      && (t.Fin? ==> evs == [])
  {
    hide TokenAt, StringAt, EventsFrom;
    EventsStep(b, strings, offset);
    var (t, next) := TokenAt(b, offset).value;
    EncIsSlice(b, offset);
    if t != Fin {
      var head, rest := TokenEvents(strings, t).value, EventsFrom(b, strings, next).value;
      assert evs == head + rest;
      assert head == [] ==> evs == rest;
      assert head != [] ==> evs[0] == head[0] && evs[1..] == rest;
    }
  }

  // Skipping a subtree.

  function SkipEvents(depth: nat, evs: seq<Event>): Option<seq<Event>>
    decreases |evs|
  {
    if evs == [] then None
    else match evs[0]
      case Open(_) => SkipEvents(depth + 1, evs[1..])
      case Close => if depth == 0 then None else if depth == 1 then Some(evs[1..]) else SkipEvents(depth - 1, evs[1..])
      case Attr(_, _) => SkipEvents(depth, evs[1..])
  }

  lemma {:induction false} SkipProps(depth: nat, props: seq<Property>, rest: seq<Event>)
    ensures SkipEvents(depth, PropEvents(props) + rest) == SkipEvents(depth, rest)
  {
    var evs := PropEvents(props) + rest;
    if props == [] {
      assert evs == rest;
    } else {
      SkipProps(depth, props[1..], rest);
      assert evs[0].Attr? && evs[1..] == PropEvents(props[1..]) + rest;
    }
  }

  lemma {:induction false} SkipNode(depth: nat, n: Node, rest: seq<Event>)
    ensures SkipEvents(depth, Events(n) + rest) == if depth == 0 then Some(rest) else SkipEvents(depth, rest)
    decreases n, 1
  {
    hide Events, ForestEvents, PropEvents;
    var tail := [Close] + rest;
    var inner := PropEvents(n.props) + (ForestEvents(n.children) + tail);
    EventsThen(n, rest);
    assert (Events(n) + rest)[0] == Open(n.name) && (Events(n) + rest)[1..] == inner;
    SkipProps(depth + 1, n.props, ForestEvents(n.children) + tail);
    SkipForest(depth + 1, n.children, tail);
    assert tail[0] == Close && tail[1..] == rest;
  }

  lemma {:induction false} SkipForest(depth: nat, nodes: seq<Node>, rest: seq<Event>)
    requires depth > 0
    ensures SkipEvents(depth, ForestEvents(nodes) + rest) == SkipEvents(depth, rest)
    decreases nodes, 0
  {
    hide Events;
    if nodes == [] {
      assert ForestEvents(nodes) + rest == rest;
    } else {
      var more := ForestEvents(nodes[1..]) + rest;
      assert ForestEvents(nodes) + rest == Events(nodes[0]) + more;
      SkipNode(depth, nodes[0], more);
      SkipForest(depth, nodes[1..], rest);
    }
  }

  /// `skip_node_subtree`: from a node to just after its end, whatever it contains.
  method SkipNodeSubtree(b: bytes, start: nat, ghost strings: bytes, ghost n: Node, ghost tail: seq<Event>)
    returns (r: FdtResult<nat>)
    ensures r.Found? ==> start < r.value
    ensures At(b, strings, start, Events(n) + tail) ==> r.Found? && At(b, strings, r.value, tail)
  {
    hide TokenAt, At, Events, SkipEvents;
    var cursor, depth := start, 0;
    ghost var known := At(b, strings, start, Events(n) + tail);
    ghost var evs := Events(n) + tail;
    SkipNode(0, n, tail);
    while true
      invariant start <= cursor
      invariant known ==> At(b, strings, cursor, evs) && SkipEvents(depth, evs) == Some(tail)
      decreases |b| - cursor
    {
      if known {
        AtStep(b, strings, cursor, evs);
        SkipStep(depth, evs);
      }
      var read := ReadToken(b, cursor);
      if read.Failed? {
        return Failed(read.error);
      }
      cursor := read.value.1;
      match read.value.0 {
        case BeginAt(_) =>
          depth := depth + 1;
          evs := if known then evs[1..] else evs;
        case EndAt =>
          if depth == 0 {
            return Failed(BadToken);
          }
          depth := depth - 1;
          evs := if known then evs[1..] else evs;
          if depth == 0 {
            return Found(cursor);
          }
        case PropAt =>
          evs := if known then evs[1..] else evs;
        case NopAt =>
        case FinAt =>
          return Failed(Unterminated);
      }
    }
  }

  lemma SkipStep(depth: nat, evs: seq<Event>)
    requires SkipEvents(depth, evs).Some?
    ensures evs != []
    ensures evs[0].Open? ==> SkipEvents(depth, evs) == SkipEvents(depth + 1, evs[1..])
    ensures evs[0].Close? ==>
              (depth > 0 && SkipEvents(depth, evs) == if depth == 1 then Some(evs[1..]) else SkipEvents(depth - 1, evs[1..]))
    ensures evs[0].Attr? ==> SkipEvents(depth, evs) == SkipEvents(depth, evs[1..])
  {
  }

  // The children of a node.

  /// What follows inside a node: properties still to come, children still to come, its end.
  function Content(props: seq<Property>, nodes: seq<Node>, tail: seq<Event>): seq<Event> {
    PropEvents(props) + (ForestEvents(nodes) + ([Close] + tail))
  }

  lemma InsideHead(props: seq<Property>, nodes: seq<Node>, tail: seq<Event>)
    ensures
      var evs := Content(props, nodes, tail);
      && evs != []
      && (props != [] ==> evs[0].Attr? && evs[1..] == Content(props[1..], nodes, tail))
      && (props == [] && nodes != [] ==> evs[0].Open? && evs == Events(nodes[0]) + Content([], nodes[1..], tail))
      && (props == [] && nodes == [] ==> evs[0] == Close && evs[1..] == tail)
  {
    var evs := Content(props, nodes, tail);
    var more := ForestEvents(nodes) + ([Close] + tail);
    if props != [] {
      assert evs[1..] == PropEvents(props[1..]) + more;
    } else {
      assert evs == more;
      if nodes != [] {
        var rest := ForestEvents(nodes[1..]) + ([Close] + tail);
        assert Events(nodes[0])[0] == Open(nodes[0].name);
        assert more == Events(nodes[0]) + rest;
        assert [] + rest == rest;
      } else {
        assert more == [Close] + tail;
      }
    }
  }

  lemma NodeInside(n: Node, tail: seq<Event>)
    ensures
      var evs := Events(n) + tail;
      evs != [] && evs[0] == Open(n.name) && evs[1..] == Content(n.props, n.children, tail)
  {
    EventsThen(n, tail);
  }

  lemma EncodesNode(b: bytes, strings: bytes, offset: nat, n: Node, tail: seq<Event>)
    requires At(b, strings, offset, Events(n) + tail)
    requires TokenAt(b, offset).Some? && TokenAt(b, offset).value.0.Begin?
    ensures Encodes(b, strings, offset, n)
  {
  }

  /// The iterator over the children of a node.
  class Subnodes {
    const b: bytes
    var cursor: nat
    var done: bool

    constructor (b: bytes, start: nat)
      ensures this.b == b && cursor == start && !done
    {
      this.b, cursor, done := b, start, false;
    }

    /// `Subnodes::next`: exactly the children, one by one, then nothing.
    method Next(ghost strings: bytes, ghost props: seq<Property>, ghost nodes: seq<Node>, ghost tail: seq<Event>)
      returns (r: Option<FdtResult<nat>>)
      modifies this
      ensures !old(done) && r.Some? && r.value.Found? ==>
                !done && old(cursor) < cursor && old(cursor) <= r.value.value && r.value.value + 4 <= |b|
      ensures old(done) ==> r.None?
      ensures old(!done && At(b, strings, cursor, Content(props, nodes, tail))) ==>
        if nodes == [] then r.None? && done
        else
          && r.Some? && r.value.Found?
          && At(b, strings, r.value.value, Events(nodes[0]) + Content([], nodes[1..], tail))
          && Encodes(b, strings, r.value.value, nodes[0])
          && !done && At(b, strings, cursor, Content([], nodes[1..], tail))
    {
      hide TokenAt, At, Events, Content, Encodes;
      if done {
        return None;
      }
      ghost var known := At(b, strings, cursor, Content(props, nodes, tail));
      ghost var left := props;
      while true
        invariant !done && old(cursor) <= cursor
        invariant known ==> At(b, strings, cursor, Content(left, nodes, tail))
        decreases |b| - cursor
      {
        ghost var evs := Content(left, nodes, tail);
        if known {
          AtStep(b, strings, cursor, evs);
          InsideHead(left, nodes, tail);
        }
        var start := cursor;
        var read := ReadToken(b, cursor);
        if read.Failed? {
          return Some(Failed(read.error));
        }
        cursor := cursor + 4;
        match read.value.0 {
          case BeginAt(_) =>
            if known {
              EncodesNode(b, strings, start, nodes[0], Content([], nodes[1..], tail));
            }
            var next := SkipNodeSubtree(b, start, strings, if nodes == [] then NewNode([]) else nodes[0],
                                        if nodes == [] then [] else Content([], nodes[1..], tail));
            if next.Failed? {
              return Some(Failed(next.error));
            }
            cursor := next.value;
            return Some(Found(start));
          case EndAt =>
            done := true;
            return None;
          case FinAt =>
            done := true;
            return None;
          case PropAt =>
            cursor := read.value.1;
            left := if left == [] then [] else left[1..];
          case NopAt =>
        }
      }
    }
  }

  // Paths.

  const SLASH: byte := '/' as int

  /// The end of the component that starts at `cursor`.
  function ComponentEnd(path: bytes, cursor: nat): (end: nat)
    requires cursor <= |path|
    ensures cursor <= end <= |path| && (end < |path| ==> path[end] == SLASH)
    ensures forall i :: cursor <= i < end ==> path[i] != SLASH
    decreases |path| - cursor
  {
    if cursor == |path| || path[cursor] == SLASH then cursor else ComponentEnd(path, cursor + 1)
  }

  /// The components from `cursor` on; none when one of them is empty.
  function Components(path: bytes, cursor: nat): (r: Option<seq<bytes>>)
    decreases |path| - cursor
  {
    if cursor >= |path| then Some([])
    else if path[cursor] == SLASH then None
    else
      var end := ComponentEnd(path, cursor);
      var rest :- Components(path, end + 1);
      Some([path[cursor..end]] + rest)
  }

  function JoinPath(components: seq<bytes>): bytes {
    if components == [] then [] else [SLASH] + components[0] + JoinPath(components[1..])
  }

  predicate PlainName(c: bytes) { c != [] && forall i :: 0 <= i < |c| ==> c[i] != SLASH }

  predicate PlainNames(components: seq<bytes>) { components == [] || (PlainName(components[0]) && PlainNames(components[1..])) }

  lemma JoinStep(before: bytes, c: bytes, tail: bytes)
    requires PlainName(c) && (tail != [] ==> tail[0] == SLASH)
    ensures
      var path, start := before + ([SLASH] + c + tail), |before| + 1;
      && path == (before + [SLASH] + c) + tail
      && start < |path| && path[start] != SLASH
      && ComponentEnd(path, start) == start + |c| && path[start..start + |c|] == c
  {
    var path, start := before + ([SLASH] + c + tail), |before| + 1;
    assert forall i :: 0 <= i < |c| ==> path[start + i] == c[i];
    assert forall i :: start <= i < start + |c| ==> path[i] == c[i - start];
    EndOf(path, start, start + |c|);
  }

  lemma ComponentsStep(path: bytes, start: nat, end: nat, rest: seq<bytes>)
    requires start < |path| && path[start] != SLASH && ComponentEnd(path, start) == end
    requires Components(path, end + 1) == Some(rest)
    ensures Components(path, start) == Some([path[start..end]] + rest)
  {
    hide ComponentEnd;
  }

  lemma JoinHead(components: seq<bytes>)
    ensures JoinPath(components) != [] ==> JoinPath(components)[0] == SLASH
    ensures components != [] ==> JoinPath(components) == [SLASH] + components[0] + JoinPath(components[1..])
  {
  }

  lemma JoinedEnd(before: bytes)
    ensures Components(before + JoinPath([]), |before| + 1) == Some([])
  {
  }

  lemma JoinedStep(before: bytes, c: bytes, tail: bytes, rest: seq<bytes>)
    requires PlainName(c) && (tail != [] ==> tail[0] == SLASH)
    requires Components((before + [SLASH] + c) + tail, |before| + 1 + |c| + 1) == Some(rest)
    ensures Components(before + ([SLASH] + c + tail), |before| + 1) == Some([c] + rest)
  {
    hide ComponentEnd, Components, PlainName;
    JoinStep(before, c, tail);
    ComponentsStep(before + ([SLASH] + c + tail), |before| + 1, |before| + 1 + |c|, rest);
  }

  /// A path that is put together from non-empty components without slashes has those components.
  lemma {:induction false} ComponentsOfJoined(before: bytes, components: seq<bytes>)
    requires PlainNames(components)
    ensures Components(before + JoinPath(components), |before| + 1) == Some(components)
    decreases |components|
  {
    if components == [] {
      JoinedEnd(before);
    } else {
      assert PlainName(components[0]) && PlainNames(components[1..]);
      hide *;
      var c, rest := components[0], components[1..];
      JoinHead(components);
      JoinHead(rest);
      StartLength(before, c);
      ComponentsOfJoined(before + [SLASH] + c, rest);
      JoinedStep(before, c, JoinPath(rest), rest);
      Reassemble(components);
    }
  }

  lemma StartLength(before: bytes, c: bytes)
    ensures |before + [SLASH] + c| == |before| + 1 + |c|
  {
  }

  lemma Reassemble(components: seq<bytes>)
    requires components != []
    ensures [components[0]] + components[1..] == components
  {
  }

  lemma {:induction false} EndOf(path: bytes, cursor: nat, end: nat)
    requires cursor <= end <= |path| && (end < |path| ==> path[end] == SLASH)
    requires forall i :: cursor <= i < end ==> path[i] != SLASH
    ensures ComponentEnd(path, cursor) == end
  {
    var e := ComponentEnd(path, cursor);
    assert e < |path| ==> path[e] == SLASH;
  }

  /// `count_path_components`.
  method CountPathComponents(path: bytes) returns (r: FdtResult<nat>)
    ensures r == if Components(path, 1).None? then Failed(BadValue) else Found(|Components(path, 1).value|)
  {
    var count, cursor := 0, 1;
    while cursor < |path|
      invariant cursor >= 1
      invariant Components(path, 1).None? <==> Components(path, cursor).None?
      invariant Components(path, 1).Some? ==> |Components(path, 1).value| == count + |Components(path, cursor).value|
      decreases |path| - cursor
    {
      if path[cursor] == SLASH {
        return Failed(BadValue);
      }
      count := count + 1;
      cursor := ComponentEnd(path, cursor) + 1;
    }
    return Found(count);
  }

  /// `component_at`.
  method ComponentAt(path: bytes, index: nat) returns (r: Option<bytes>)
    ensures Components(path, 1).Some? ==>
      var components := Components(path, 1).value;
      r == if index < |components| then Some(components[index]) else None
  {
    var current, cursor := 0, 1;
    ghost var all := Components(path, 1);
    while cursor < |path|
      invariant cursor >= 1 && current <= index
      invariant all.Some? ==> Components(path, cursor).Some? && current <= |all.value|
                              && all.value[current..] == Components(path, cursor).value
      decreases |path| - cursor
    {
      var start := cursor;
      cursor := ComponentEnd(path, cursor);
      if all.Some? {
        assert all.value[current] == path[start..cursor];
        assert all.value[current + 1..] == all.value[current..][1..];
      }
      if current == index {
        return Some(path[start..cursor]);
      }
      current := current + 1;
      cursor := cursor + 1;
    }
    return None;
  }

  // The search.

  /// No node is nested deeper than `room`.
  ghost predicate FitsDepth(n: Node, room: nat)
    decreases n, 1
  {
    room > 0 && ForestFitsDepth(n.children, room - 1)
  }

  ghost predicate ForestFitsDepth(nodes: seq<Node>, room: nat)
    decreases nodes, 0
  {
    nodes == [] || (FitsDepth(nodes[0], room) && ForestFitsDepth(nodes[1..], room))
  }

  /// The first node, in document order, that these names lead to.
  function LookupPath(n: Node, components: seq<bytes>): Option<Node>
    decreases n, 1
  {
    if components == [] then Some(n) else LookupIn(n.children, components)
  }

  function LookupIn(nodes: seq<Node>, components: seq<bytes>): Option<Node>
    requires components != []
    decreases nodes, 0
  {
    if nodes == [] then None
    else if nodes[0].name == components[0] && LookupPath(nodes[0], components[1..]).Some?
    then LookupPath(nodes[0], components[1..])
    else LookupIn(nodes[1..], components)
  }

  datatype Search = Hit(evs: seq<Event>) | Miss(error: Error)

  /// Does the node that opens now continue the path?
  predicate Matches(components: seq<bytes>, matches: seq<bool>, name: bytes) {
    if matches == [] then name == []
    else matches[|matches| - 1] && |matches| - 1 < |components| && components[|matches| - 1] == name
  }

  /// The token loop of `find_path`, for the events still to come.
  function FindEvents(components: seq<bytes>, matches: seq<bool>, evs: seq<Event>): Search
    decreases |evs|
  {
    if evs == [] then Miss(NotFound)
    else match evs[0]
      case Open(name) =>
        if |matches| >= READER_DEPTH then Miss(TooDeep)
        else if Matches(components, matches, name) && |components| == |matches| then Hit(evs)
        else FindEvents(components, matches + [Matches(components, matches, name)], evs[1..])
      case Close =>
        if matches == [] then Miss(BadToken) else FindEvents(components, matches[..|matches| - 1], evs[1..])
      case Attr(_, _) => FindEvents(components, matches, evs[1..])
  }

  lemma {:induction false} FindProps(components: seq<bytes>, matches: seq<bool>, props: seq<Property>, rest: seq<Event>)
    ensures FindEvents(components, matches, PropEvents(props) + rest) == FindEvents(components, matches, rest)
  {
    var evs := PropEvents(props) + rest;
    if props == [] {
      assert evs == rest;
    } else {
      FindProps(components, matches, props[1..], rest);
      assert evs[0].Attr? && evs[1..] == PropEvents(props[1..]) + rest;
    }
  }

  /// The events from the found node on.
  ghost predicate HitsNode(s: Search, n: Node) { s.Hit? && Events(n) <= s.evs }

  lemma FindOpen(components: seq<bytes>, matches: seq<bool>, n: Node, rest: seq<Event>)
    requires |matches| < READER_DEPTH
    ensures
      var m := Matches(components, matches, n.name);
      FindEvents(components, matches, Events(n) + rest) ==
      if m && |components| == |matches| then Hit(Events(n) + rest)
      else FindEvents(components, matches + [m], Content(n.props, n.children, rest))
  {
    hide Matches, Events, Content;
    NodeInside(n, rest);
  }

  lemma FindClose(components: seq<bytes>, matches: seq<bool>, m: bool, rest: seq<Event>)
    ensures FindEvents(components, matches + [m], [Close] + rest) == FindEvents(components, matches, rest)
  {
    var evs := [Close] + rest;
    assert evs[0] == Close && evs[1..] == rest && (matches + [m])[..|matches|] == matches;
  }

  /// The node that a search of a node finds, when the path has come this far.
  function FoundIn(components: seq<bytes>, matches: seq<bool>, n: Node): Option<Node> {
    if Matches(components, matches, n.name) && |matches| <= |components|
    then LookupPath(n, components[|matches|..]) else None
  }

  /// Searching a node finds what the tree lookup finds, or goes on behind the node.
  lemma {:induction false} FindNode(components: seq<bytes>, matches: seq<bool>, n: Node, rest: seq<Event>)
    requires |matches| < READER_DEPTH && FitsDepth(n, READER_DEPTH - |matches|)
    ensures
      var s, found := FindEvents(components, matches, Events(n) + rest), FoundIn(components, matches, n);
      if found.Some? then HitsNode(s, found.value) else s == FindEvents(components, matches, rest)
    decreases n, 1
  {
    hide FindEvents, Matches, Events, PropEvents, ForestEvents;
    FindOpen(components, matches, n, rest);
    var m := Matches(components, matches, n.name);
    if !(m && |components| == |matches|) {
      FindProps(components, matches + [m], n.props, ForestEvents(n.children) + ([Close] + rest));
      FindForest(components, matches + [m], n.children, [Close] + rest);
      FindClose(components, matches, m, rest);
    }
  }

  /// Below a node that does not match there is nothing to find.
  function FoundBelow(components: seq<bytes>, matches: seq<bool>, nodes: seq<Node>): Option<Node>
    requires matches != []
  {
    if matches[|matches| - 1] && |matches| <= |components| then LookupIn(nodes, components[|matches| - 1..]) else None
  }

  lemma {:induction false} FindForest(components: seq<bytes>, matches: seq<bool>, nodes: seq<Node>, rest: seq<Event>)
    requires 0 < |matches| <= READER_DEPTH && ForestFitsDepth(nodes, READER_DEPTH - |matches|)
    ensures
      var s, found := FindEvents(components, matches, ForestEvents(nodes) + rest), FoundBelow(components, matches, nodes);
      if found.Some? then HitsNode(s, found.value) else s == FindEvents(components, matches, rest)
    decreases nodes, 0
  {
    hide FindEvents, Events;
    if nodes == [] {
      assert ForestEvents(nodes) + rest == rest;
    } else {
      var more := ForestEvents(nodes[1..]) + rest;
      assert ForestEvents(nodes) + rest == Events(nodes[0]) + more;
      FindNode(components, matches, nodes[0], more);
      FindForest(components, matches, nodes[1..], rest);
      var d := |matches|;
      if d <= |components| {
        assert components[d - 1..][1..] == components[d..] && components[d - 1..][0] == components[d - 1];
      }
    }
  }

  /// `find_path` refines the tree lookup.
  lemma FindIsLookup(components: seq<bytes>, t: Node)
    requires t.name == [] && FitsDepth(t, READER_DEPTH)
    ensures
      var s, found := FindEvents(components, [], Events(t)), LookupPath(t, components);
      if found.Some? then HitsNode(s, found.value) else s == Miss(NotFound)
  {
    hide Events;
    FindNode(components, [], t, []);
    assert Events(t) + [] == Events(t) && components[0..] == components;
  }

  // The code of the search.

  /// What `find_path` answers on the encoding of `t`.
  ghost predicate FindsPath(b: bytes, strings: bytes, path: bytes, t: Node, r: FdtResult<nat>)
  {
    if path == [SLASH] then
      r == if TokenAt(b, 0).Some? && TokenAt(b, 0).value.0.Begin? then Found(0) else Failed(BadToken)
    else if path == [] || path[0] != SLASH || Components(path, 1).None? then r == Failed(BadValue)
    else
      var found := LookupPath(t, Components(path, 1).value);
      if found.Some? then r.Found? && Encodes(b, strings, r.value, found.value) else r == Failed(NotFound)
  }

  /// The answer is the tree lookup's: the first node that the names lead to, or `NotFound`.
  ghost predicate AnswersLookup(b: bytes, strings: bytes, components: seq<bytes>, t: Node, r: FdtResult<nat>) {
    var found := LookupPath(t, components);
    if found.Some? then r.Found? && Encodes(b, strings, r.value, found.value) else r == Failed(NotFound)
  }

  /// A path without empty components is answered by the tree lookup exactly when it is not "/" or the
  /// block starts with the root: behind a leading NOP the root is not found by "/".
  lemma LookupAnswered(b: bytes, strings: bytes, path: bytes, t: Node, r: FdtResult<nat>)
    requires At(b, strings, 0, Events(t)) && FindsPath(b, strings, path, t, r)
    requires path != [] && path[0] == SLASH && Components(path, 1).Some?
    ensures TokenAt(b, 0).Some?
    ensures AnswersLookup(b, strings, Components(path, 1).value, t, r) <==> path != [SLASH] || TokenAt(b, 0).value.0.Begin?
  {
    AtStep(b, strings, 0, Events(t));
    if path == [SLASH] {
      assert Components(path, 1) == Some([]) && LookupPath(t, []) == Some(t);
      if TokenAt(b, 0).value.0.Begin? {
        hide Events, TokenAt;
        assert Events(t) + [] == Events(t);
        EncodesNode(b, strings, 0, t, []);
      }
    }
  }

  /// `find_path`: on every block that encodes a tree of depth at most 32, the first node that the
  /// names lead to, and `NotFound` exactly when there is none; "/" is the node the block starts with,
  /// and `BadToken` when it starts with something else.
  method FindPath(b: bytes, path: bytes, ghost strings: bytes, ghost t: Node) returns (r: FdtResult<nat>)
    ensures At(b, strings, 0, Events(t)) && t.name == [] && FitsDepth(t, READER_DEPTH) ==> FindsPath(b, strings, path, t, r)
  {
    hide TokenAt, At, Events, FindEvents, Matches, Components, Encodes, EventsFrom, FitsDepth, LookupPath;
    ghost var known := At(b, strings, 0, Events(t)) && t.name == [] && FitsDepth(t, READER_DEPTH);
    ghost var evs := Events(t);
    if path == [SLASH] {
      if known {
        AtStep(b, strings, 0, evs);
      }
      var first := ReadTag(b);
      return first;
    }
    if path == [] || path[0] != SLASH {
      return Failed(BadValue);
    }
    var target := CountPathComponents(path);
    if target.Failed? {
      return Failed(target.error);
    }
    ghost var components := if Components(path, 1).Some? then Components(path, 1).value else [];
    ghost var result := FindEvents(components, [], Events(t));
    if known {
      FindIsLookup(components, t);
    }
    var cursor, depth := 0, 0;
    var matches := new bool[READER_DEPTH](_ => false);
    while true
      invariant depth <= READER_DEPTH
      invariant known ==> At(b, strings, cursor, evs) && FindEvents(components, matches[..depth], evs) == result
      decreases |b| - cursor
    {
      if known {
        AtStep(b, strings, cursor, evs);
        FindStep(components, matches[..depth], evs);
      }
      var start := cursor;
      var read := ReadToken(b, cursor);
      if read.Failed? {
        return Failed(read.error);
      }
      cursor := read.value.1;
      match read.value.0 {
        case BeginAt(name) =>
          var newDepth := depth + 1;
          if newDepth > READER_DEPTH {
            if known {
              DepthSuffices(components, t);
            }
            return Failed(TooDeep);
          }
          var isMatch := IsMatch(path, name, matches, depth);
          ghost var before := matches[..depth];
          matches[newDepth - 1] := isMatch;
          assert matches[..newDepth] == before + [isMatch];
          depth := newDepth;
          if isMatch && target.value == depth - 1 {
            if known {
              HitEncodes(b, strings, start, evs, LookupPath(t, components));
            }
            return Found(start);
          }
          evs := if known then evs[1..] else evs;
        case EndAt =>
          if depth == 0 {
            if known {
              DepthSuffices(components, t);
            }
            return Failed(BadToken);
          }
          assert matches[..depth][..depth - 1] == matches[..depth - 1];
          depth := depth - 1;
          evs := if known then evs[1..] else evs;
        case PropAt =>
          evs := if known then evs[1..] else evs;
        case NopAt =>
        case FinAt =>
          return Failed(NotFound);
      }
    }
  }

  /// Whether a node below `depth` matching nodes continues the path.
  method IsMatch(path: bytes, name: bytes, matches: array<bool>, depth: nat) returns (isMatch: bool)
    requires depth <= matches.Length
    ensures Components(path, 1).Some? ==> isMatch == Matches(Components(path, 1).value, matches[..depth], name)
  {
    hide Components;
    if Components(path, 1).Some? {
      MatchesIs(Components(path, 1).value, matches[..depth], name);
    }
    if depth == 0 {
      return name == [];
    }
    if !matches[depth - 1] {
      return false;
    }
    var component := ComponentAt(path, depth - 1);
    return component.Some? && component.value == name;
  }

  /// `root`.
  method ReadTag(b: bytes) returns (r: FdtResult<nat>)
    ensures TokenAt(b, 0).Some? ==> r == if TokenAt(b, 0).value.0.Begin? then Found(0) else Failed(BadToken)
  {
    if |b| < 4 {
      return Failed(BadOffset);
    }
    return if De32(b[0..4]) == FDT_BEGIN_NODE then Found(0) else Failed(BadToken);
  }

  lemma MatchesIs(components: seq<bytes>, matches: seq<bool>, name: bytes)
    ensures Matches(components, matches, name) ==
      if matches == [] then name == []
      else matches[|matches| - 1] && |matches| - 1 < |components| && components[|matches| - 1] == name
  {
  }

  lemma FindStep(components: seq<bytes>, matches: seq<bool>, evs: seq<Event>)
    ensures
      var s := FindEvents(components, matches, evs);
      && (evs == [] ==> s == Miss(NotFound))
      && (evs != [] && evs[0].Open? ==>
            var m := Matches(components, matches, evs[0].name);
            s == if |matches| >= READER_DEPTH then Miss(TooDeep)
                 else if m && |components| == |matches| then Hit(evs)
                 else FindEvents(components, matches + [m], evs[1..]))
      && (evs != [] && evs[0].Close? ==>
            s == if matches == [] then Miss(BadToken) else FindEvents(components, matches[..|matches| - 1], evs[1..]))
      && (evs != [] && evs[0].Attr? ==> s == FindEvents(components, matches, evs[1..]))
  {
  }

  /// On a tree that fits, the search never runs out of depth.
  lemma DepthSuffices(components: seq<bytes>, t: Node)
    requires t.name == [] && FitsDepth(t, READER_DEPTH)
    ensures FindEvents(components, [], Events(t)) != Miss(TooDeep)
    ensures FindEvents(components, [], Events(t)) != Miss(BadToken)
  {
    FindIsLookup(components, t);
  }

  lemma HitEncodes(b: bytes, strings: bytes, start: nat, evs: seq<Event>, n: Option<Node>)
    requires At(b, strings, start, evs) && n.Some? && Events(n.value) <= evs
    requires TokenAt(b, start).Some? && TokenAt(b, start).value.0.Begin?
    ensures Encodes(b, strings, start, n.value)
  {
  }
}
