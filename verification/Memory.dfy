/// `graft_memory` of `src/kexec.rs`: replacing the root memory nodes of a supplied blob
/// by the memory subtrees of the live one, re-interning their property names.
module Memory {
  import opened Bytes
  import opened Tokens
  import opened Tree
  import opened Dtb
  import opened Contract
  import opened Reserved
  import Chosen

  /// `is_memory_node_name`.
  predicate IsMemory(name: bytes) { name == Ascii("memory") || Ascii("memory@") <= name }

  // Copying and skipping one subtree.

  datatype Copied = Copied(tokens: seq<Token>, rest: seq<Token>, strings: bytes)

  /// `copy_node_subtree` on tokens: everything up to the end of the node that starts at
  /// depth zero, with property names moved from `names` to `strings`.
  function Copy(names: bytes, strings: bytes, depth: nat, ts: seq<Token>): (r: Result<Copied>)
    requires Fin !in ts
    ensures r.Ok? ==> Fin !in r.value.tokens && Fin !in r.value.rest && |r.value.rest| < |ts|
    decreases |ts|
  {
    if ts == [] then InvalidData
    else
      match ts[0]
      case Begin(_, _) => Then(ts[0], Copy(names, strings, depth + 1, ts[1..]))
      case End =>
        if depth == 0 then InvalidData
        else if depth == 1 then Ok(Copied([End], ts[1..], strings))
        else Then(End, Copy(names, strings, depth - 1, ts[1..]))
      case Prop(nameoff, value, _) =>
        (match StringAt(names, nameoff)
         case None => InvalidData
         case Some(name) =>
           var (strings', offset) :- EnsureString(strings, name);
           Then(NewProp(offset, value), Copy(names, strings', depth, ts[1..])))
      case Nop => Then(Nop, Copy(names, strings, depth, ts[1..]))
  }

  function Then(t: Token, rest: Result<Copied>): Result<Copied> {
    if rest.Ok? then Ok(rest.value.(tokens := [t] + rest.value.tokens)) else InvalidData
  }

  /// `skip_node_subtree` on tokens.
  function Skip(depth: nat, ts: seq<Token>): (r: Result<seq<Token>>)
    requires Fin !in ts
    ensures r.Ok? ==> Fin !in r.value && |r.value| < |ts|
    decreases |ts|
  {
    if ts == [] then InvalidData
    else
      match ts[0]
      case Begin(_, _) => Skip(depth + 1, ts[1..])
      case End =>
        if depth == 0 then InvalidData
        else if depth == 1 then Ok(ts[1..])
        else Skip(depth - 1, ts[1..])
      case Prop(_, _, _) | Nop => Skip(depth, ts[1..])
      case Fin => InvalidData
  }

  lemma {:induction false} CopyWf(names: bytes, strings: bytes, depth: nat, ts: seq<Token>)
    requires AllWf(ts) && Copy(names, strings, depth, ts).Ok?
    ensures AllWf(Copy(names, strings, depth, ts).value.tokens)
    ensures AllWf(Copy(names, strings, depth, ts).value.rest)
    decreases |ts|
  {
    var t, rest := ts[0], ts[1..];
    assert Wf(t);
    match t
    case Begin(_, _) => CopyWf(names, strings, depth + 1, rest);
    case End =>
      if depth > 1 {
        CopyWf(names, strings, depth - 1, rest);
      }
    case Prop(nameoff, value, _) =>
      CopyWf(names, EnsureString(strings, StringAt(names, nameoff).value).value.0, depth, rest);
    case Nop => CopyWf(names, strings, depth, rest);
  }

  lemma TokensStep(structure: bytes, cursor: nat)
    requires TokenAt(structure, cursor).Some?
    ensures
      var (t, next) := TokenAt(structure, cursor).value;
      TokensFrom(structure, cursor) ==
      if t == Fin then Some([])
      else if TokensFrom(structure, next).None? then None
      else Some([t] + TokensFrom(structure, next).value)
    ensures
      var (t, next) := TokenAt(structure, cursor).value;
      t != Fin && TokensFrom(structure, next).Some? ==>
        var ts := TokensFrom(structure, cursor).value;
        ts != [] && ts[0] == t && ts[1..] == TokensFrom(structure, next).value
  {
  }

  /// `copy_node_subtree`.
  method CopyNodeSubtree(structure: bytes, names: bytes, start: nat, outputStrings: bytes)
    returns (r: Result<(bytes, nat, bytes)>)
    requires start % 4 == 0
    ensures r.Ok? ==> start < r.value.1 <= |structure| && r.value.1 % 4 == 0
    ensures r.Ok? ==> (TokensFrom(structure, start).None? <==> TokensFrom(structure, r.value.1).None?)
    ensures TokensFrom(structure, start).Some? ==>
      var copied := Copy(names, outputStrings, 0, TokensFrom(structure, start).value);
      && (r.Ok? <==> copied.Ok?)
      && (r.Ok? ==>
            && AllWf(copied.value.tokens) && r.value.0 == EncAll(copied.value.tokens)
            && TokensFrom(structure, r.value.1) == Some(copied.value.rest)
            && r.value.2 == copied.value.strings)
  {
    hide TokenAt, TokensFrom, StringAt, EnsureString, Enc;
    var cursor, depth := start, 0;
    var output: bytes := [];
    var strings := outputStrings;
    ghost var done: seq<Token> := [];
    ghost var whole := TokensFrom(structure, start);
    if whole.Some? {
      AfterThen([], Nop, Copy(names, strings, depth, whole.value));
    }
    while true
      invariant start <= cursor && cursor % 4 == 0
      invariant AllWf(done) && output == EncAll(done)
      invariant whole.None? <==> TokensFrom(structure, cursor).None?
      invariant whole.Some? ==>
        Copy(names, outputStrings, 0, whole.value) == After(done, Copy(names, strings, depth, TokensFrom(structure, cursor).value))
      decreases |structure| - cursor
    {
      var read := TokenAt(structure, cursor);
      if read.None? {
        NoTokens(structure, cursor);
        return InvalidData;
      }
      var (token, next) := read.value;
      EncIsSlice(structure, cursor);
      TokensStep(structure, cursor);
      cursor := next;
      var emitted := token;
      match token {
        case Begin(_, _) =>
          depth := depth + 1;
        case End =>
          if depth == 0 {
            return InvalidData;
          }
          depth := depth - 1;
          if depth == 0 {
            EncAllSnoc(done, End);
            return Ok((output + Enc(End), cursor, strings));
          }
        case Prop(nameoff, value, _) =>
          var name := StringAt(names, nameoff);
          if name.None? {
            return InvalidData;
          }
          var interned := InternString(strings, name.value);
          if interned.InvalidData? {
            return InvalidData;
          }
          strings := interned.value.0;
          emitted := NewProp(interned.value.1, value);
        case Nop =>
        case Fin =>
          return InvalidData;
      }
      EncAllSnoc(done, emitted);
      if whole.Some? {
        AfterThen(done, emitted, Copy(names, strings, depth, TokensFrom(structure, cursor).value));
      }
      output := output + Enc(emitted);
      done := done + [emitted];
    }
  }

  function After(done: seq<Token>, rest: Result<Copied>): Result<Copied> {
    if rest.Ok? then Ok(rest.value.(tokens := done + rest.value.tokens)) else InvalidData
  }

  lemma AfterThen(done: seq<Token>, t: Token, rest: Result<Copied>)
    ensures After(done, Then(t, rest)) == After(done + [t], rest)
    ensures After([], rest) == rest
  {
    if rest.Ok? {
      assert done + ([t] + rest.value.tokens) == done + [t] + rest.value.tokens;
      assert [] + rest.value.tokens == rest.value.tokens;
    }
  }

  lemma NoTokens(structure: bytes, cursor: nat)
    requires TokenAt(structure, cursor).None?
    ensures TokensFrom(structure, cursor).None?
  {
  }

  /// `skip_node_subtree`.
  method SkipNodeSubtree(structure: bytes, start: nat) returns (r: Result<nat>)
    requires start % 4 == 0
    ensures r.Ok? ==> start < r.value <= |structure| && r.value % 4 == 0
    ensures r.Ok? ==> (TokensFrom(structure, start).None? <==> TokensFrom(structure, r.value).None?)
    ensures TokensFrom(structure, start).Some? ==>
      var rest := Skip(0, TokensFrom(structure, start).value);
      && (r.Ok? <==> rest.Ok?)
      && (r.Ok? ==> TokensFrom(structure, r.value) == Some(rest.value))
  {
    hide TokenAt, TokensFrom;
    var cursor, depth := start, 0;
    ghost var whole := TokensFrom(structure, start);
    while true
      invariant start <= cursor && cursor % 4 == 0
      invariant whole.None? <==> TokensFrom(structure, cursor).None?
      invariant whole.Some? ==> Skip(0, whole.value) == Skip(depth, TokensFrom(structure, cursor).value)
      decreases |structure| - cursor
    {
      var read := TokenAt(structure, cursor);
      if read.None? {
        NoTokens(structure, cursor);
        return InvalidData;
      }
      var (token, next) := read.value;
      EncIsSlice(structure, cursor);
      TokensStep(structure, cursor);
      cursor := next;
      match token {
        case Begin(_, _) =>
          depth := depth + 1;
        case End =>
          if depth == 0 {
            return InvalidData;
          }
          depth := depth - 1;
          if depth == 0 {
            return Ok(cursor);
          }
        case Prop(_, _, _) =>
        case Nop =>
        case Fin =>
          return InvalidData;
      }
    }
  }

  // Extracting the live memory nodes.

  datatype Extracted = Extracted(fragments: seq<seq<Token>>, strings: bytes)

  /// `extract_memory_fragments`, for the live tokens still to come.
  function Extract(names: bytes, strings: bytes, depth: nat, sawRoot: bool, ts: seq<Token>): Result<Extracted>
    requires Fin !in ts
    decreases |ts|
  {
    if ts == [] then
      if sawRoot && depth == 0 then Ok(Extracted([], strings)) else InvalidData
    else
      match ts[0]
      case Begin(name, _) =>
        if depth == 0 then
          if sawRoot || name != [] then InvalidData else Extract(names, strings, 1, true, ts[1..])
        else if depth == 1 && IsMemory(name) then
          var copied :- Copy(names, strings, 0, ts);
          Fragment(copied.tokens, Extract(names, copied.strings, depth, sawRoot, copied.rest))
        else Extract(names, strings, depth + 1, sawRoot, ts[1..])
      case End => if depth == 0 then InvalidData else Extract(names, strings, depth - 1, sawRoot, ts[1..])
      case Prop(_, _, _) | Nop => Extract(names, strings, depth, sawRoot, ts[1..])
      case Fin => InvalidData
  }

  function Fragment(tokens: seq<Token>, rest: Result<Extracted>): Result<Extracted> {
    if rest.Ok? then Ok(rest.value.(fragments := [tokens] + rest.value.fragments)) else InvalidData
  }

  function Fragments(done: seq<seq<Token>>, rest: Result<Extracted>): Result<Extracted> {
    if rest.Ok? then Ok(rest.value.(fragments := done + rest.value.fragments)) else InvalidData
  }

  lemma FragmentsThen(done: seq<seq<Token>>, tokens: seq<Token>, rest: Result<Extracted>)
    ensures Fragments(done, Fragment(tokens, rest)) == Fragments(done + [tokens], rest)
    ensures Fragments([], rest) == rest
  {
    if rest.Ok? {
      assert done + ([tokens] + rest.value.fragments) == done + [tokens] + rest.value.fragments;
      assert [] + rest.value.fragments == rest.value.fragments;
    }
  }

  /// The fragments one after the other, which is how they are inserted.
  function Joined(fragments: seq<seq<Token>>): seq<Token> {
    if fragments == [] then [] else fragments[0] + Joined(fragments[1..])
  }

  lemma {:induction false} JoinedSnoc(fragments: seq<seq<Token>>, last: seq<Token>)
    ensures Joined(fragments + [last]) == Joined(fragments) + last
  {
    if fragments == [] {
      assert [last][1..] == [] && fragments + [last] == [last];
    } else {
      JoinedSnoc(fragments[1..], last);
      assert (fragments + [last])[1..] == fragments[1..] + [last];
    }
  }

  /// `extract_memory_fragments`: the fragments' bytes, joined, and the grown strings block.
  method ExtractMemoryFragments(structure: bytes, names: bytes, outputStrings: bytes)
    returns (r: Result<(nat, bytes, bytes)>)
    ensures
      var ts := TokensFrom(structure, 0);
      var found := if ts.None? then InvalidData else Extract(names, outputStrings, 0, false, ts.value);
      && (r.Ok? <==> found.Ok?)
      && (r.Ok? ==>
            var memory := Joined(found.value.fragments);
            && AllWf(memory) && r.value == (|found.value.fragments|, EncAll(memory), found.value.strings))
  {
    hide TokenAt, TokensFrom, Copy, EnsureString, Enc, IsMemory, EncAll;
    var cursor, depth, sawRoot := 0, 0, false;
    var strings := outputStrings;
    var count: nat, memory: bytes := 0, [];
    ghost var done: seq<seq<Token>> := [];
    ghost var whole := TokensFrom(structure, 0);
    EncAllNil();
    if whole.Some? {
      FragmentsThen([], [], Extract(names, strings, 0, false, whole.value));
    }
    while true
      invariant cursor % 4 == 0
      invariant whole.Some? ==> AllWf(Joined(done)) && memory == EncAll(Joined(done)) && count == |done|
      invariant whole.None? <==> TokensFrom(structure, cursor).None?
      invariant whole.Some? ==>
        Extract(names, outputStrings, 0, false, whole.value) ==
        Fragments(done, Extract(names, strings, depth, sawRoot, TokensFrom(structure, cursor).value))
      decreases |structure| - cursor
    {
      var start := cursor;
      var read := TokenAt(structure, cursor);
      if read.None? {
        NoTokens(structure, cursor);
        return InvalidData;
      }
      var (token, next) := read.value;
      EncIsSlice(structure, cursor);
      TokensStep(structure, cursor);
      match token {
        case Begin(name, _) =>
          if depth == 0 {
            if sawRoot || name != [] {
              return InvalidData;
            }
            sawRoot := true;
            depth := 1;
            cursor := next;
          } else if depth == 1 && IsMemory(name) {
            var copied := CopyNodeSubtree(structure, names, start, strings);
            if copied.InvalidData? {
              return InvalidData;
            }
            if whole.Some? {
              ghost var c := Copy(names, strings, 0, TokensFrom(structure, start).value).value;
              EncAllAppend(Joined(done), c.tokens);
              JoinedSnoc(done, c.tokens);
              FragmentsThen(done, c.tokens, Extract(names, c.strings, depth, sawRoot, c.rest));
              done := done + [c.tokens];
            }
            memory := memory + copied.value.0;
            count := count + 1;
            strings := copied.value.2;
            cursor := copied.value.1;
          } else {
            depth := depth + 1;
            cursor := next;
          }
        case End =>
          if depth == 0 {
            return InvalidData;
          }
          depth := depth - 1;
          cursor := next;
        case Prop(_, _, _) =>
          cursor := next;
        case Nop =>
          cursor := next;
        case Fin =>
          if !sawRoot || depth != 0 {
            return InvalidData;
          }
          assert done + [] == done;
          return Ok((count, memory, strings));
      }
    }
  }

  // Grafting.

  /// State of the token loop of `graft_memory_structure`.
  datatype Graft = Graft(depth: nat, sawRoot: bool, inserted: bool)

  const GRAFT_START := Graft(0, false, false)

  function Emit(tokens: seq<Token>, rest: Result<seq<Token>>): Result<seq<Token>> {
    if rest.Ok? then Ok(tokens + rest.value) else InvalidData
  }

  lemma EmitEmit(x: seq<Token>, y: seq<Token>, rest: Result<seq<Token>>)
    ensures Emit(x, Emit(y, rest)) == Emit(x + y, rest) && Emit([], rest) == rest
  {
    if rest.Ok? {
      assert x + (y + rest.value) == x + y + rest.value && [] + rest.value == rest.value;
    }
  }

  /// The grafted tokens, for the supplied tokens still to come.
  function GraftTokens(memory: seq<Token>, g: Graft, ts: seq<Token>): (r: Result<seq<Token>>)
    requires Fin !in ts && Fin !in memory
    ensures r.Ok? ==> Fin !in r.value
    decreases |ts|
  {
    if ts == [] then
      if g.sawRoot && g.depth == 0 then Ok([]) else InvalidData
    else
      match ts[0]
      case Begin(name, _) =>
        if g.depth == 0 then
          if g.sawRoot || name != [] then InvalidData
          else Emit([ts[0]], GraftTokens(memory, Graft(1, true, g.inserted), ts[1..]))
        else if g.depth == 1 && IsMemory(name) then
          var rest :- Skip(0, ts);
          GraftTokens(memory, g, rest)
        else
          var insert := g.depth == 1 && !g.inserted;
          Emit(if insert then memory + [ts[0]] else [ts[0]],
               GraftTokens(memory, Graft(g.depth + 1, g.sawRoot, g.inserted || insert), ts[1..]))
      case End =>
        if g.depth == 0 then InvalidData
        else
          var insert := g.depth == 1 && !g.inserted;
          Emit(if insert then memory + [End] else [End],
               GraftTokens(memory, Graft(g.depth - 1, g.sawRoot, g.inserted || insert), ts[1..]))
      case Prop(_, _, _) | Nop => Emit([ts[0]], GraftTokens(memory, g, ts[1..]))
      case Fin => InvalidData
  }

  /// `graft_memory_structure`; `memory` holds the joined fragments.
  method GraftMemoryStructure(structure: bytes, memory: bytes, ghost tokens: seq<Token>) returns (r: Result<bytes>)
    requires AllWf(tokens) && memory == EncAll(tokens)
    ensures
      var ts := TokensFrom(structure, 0);
      var out := if ts.None? then InvalidData else GraftTokens(tokens, GRAFT_START, ts.value);
      && (r.Ok? <==> out.Ok?)
      && (r.Ok? ==> AllWf(out.value) && r.value == EncAll(out.value) + Enc(Fin))
  {
    hide TokenAt, TokensFrom, Skip, Enc, IsMemory, EncAll;
    var cursor, depth, sawRoot, inserted := 0, 0, false, false;
    var output: bytes := [];
    ghost var done: seq<Token> := [];
    ghost var whole := TokensFrom(structure, 0);
    EncAllNil();
    if whole.Some? {
      EmitEmit([], [], GraftTokens(tokens, GRAFT_START, whole.value));
    }
    while true
      invariant cursor % 4 == 0
      invariant AllWf(done) && output == EncAll(done)
      invariant whole.None? <==> TokensFrom(structure, cursor).None?
      invariant whole.Some? ==>
        GraftTokens(tokens, GRAFT_START, whole.value) ==
        Emit(done, GraftTokens(tokens, Graft(depth, sawRoot, inserted), TokensFrom(structure, cursor).value))
      decreases |structure| - cursor
    {
      var start := cursor;
      var read := TokenAt(structure, cursor);
      if read.None? {
        NoTokens(structure, cursor);
        return InvalidData;
      }
      var (token, next) := read.value;
      EncIsSlice(structure, cursor);
      TokensStep(structure, cursor);
      ghost var emitted: seq<Token> := [];
      match token {
        case Begin(name, _) =>
          if depth == 0 {
            if sawRoot || name != [] {
              return InvalidData;
            }
            sawRoot := true;
            emitted := [token];
            output := output + structure[start..next];
            depth := 1;
            cursor := next;
          } else if depth == 1 && IsMemory(name) {
            var skipped := SkipNodeSubtree(structure, start);
            if skipped.InvalidData? {
              return InvalidData;
            }
            cursor := skipped.value;
          } else {
            if depth == 1 && !inserted {
              output := output + memory;
              emitted := tokens;
              inserted := true;
            }
            output := output + structure[start..next];
            assert [] + [token] == [token];
            emitted := emitted + [token];
            depth := depth + 1;
            cursor := next;
          }
        case End =>
          if depth == 0 {
            return InvalidData;
          }
          if depth == 1 && !inserted {
            output := output + memory;
            emitted := tokens;
            inserted := true;
          }
          output := output + structure[start..next];
          assert [] + [token] == [token];
          emitted := emitted + [token];
          depth := depth - 1;
          cursor := next;
        case Prop(_, _, _) =>
          output := output + structure[start..next];
          emitted := [token];
          cursor := next;
        case Nop =>
          output := output + structure[start..next];
          emitted := [token];
          cursor := next;
        case Fin =>
          if !sawRoot || depth != 0 {
            return InvalidData;
          }
          assert done + [] == done;
          return Ok(output + structure[start..next]);
      }
      EncAllOne(token);
      EncAllAppend(tokens, [token]);
      assert structure[start..next] == Enc(token);
      assert output == EncAll(done) + EncAll(emitted);
      EncAllAppend(done, emitted);
      if whole.Some? {
        EmitEmit(done, emitted, GraftTokens(tokens, Graft(depth, sawRoot, inserted), TokensFrom(structure, cursor).value));
      }
      done := done + emitted;
    }
  }

  // The same on events.

  /// The events up to the end of the node that starts at depth zero, and the rest.
  function Take(depth: nat, evs: seq<Event>): (r: Option<(seq<Event>, seq<Event>)>)
    ensures r.Some? ==> |r.value.1| < |evs|
    decreases |evs|
  {
    if evs == [] then None
    else
      match evs[0]
      case Open(_) => TakeMore(evs[0], Take(depth + 1, evs[1..]))
      case Close =>
        if depth == 0 then None
        else if depth == 1 then Some(([Close], evs[1..]))
        else TakeMore(Close, Take(depth - 1, evs[1..]))
      case Attr(_, _) => TakeMore(evs[0], Take(depth, evs[1..]))
  }

  function TakeMore(e: Event, rest: Option<(seq<Event>, seq<Event>)>): Option<(seq<Event>, seq<Event>)> {
    if rest.Some? then Some(([e] + rest.value.0, rest.value.1)) else None
  }

  function TakeAfter(done: seq<Event>, rest: Option<(seq<Event>, seq<Event>)>): Option<(seq<Event>, seq<Event>)> {
    if rest.Some? then Some((done + rest.value.0, rest.value.1)) else None
  }

  lemma TakeAfterMore(e: Event, done: seq<Event>, rest: Option<(seq<Event>, seq<Event>)>)
    ensures TakeMore(e, TakeAfter(done, rest)) == TakeAfter([e] + done, rest)
    ensures TakeAfter([], rest) == rest
  {
    if rest.Some? {
      assert [e] + (done + rest.value.0) == [e] + done + rest.value.0;
      assert [] + rest.value.0 == rest.value.0;
    }
  }

  lemma TakeAfterAfter(x: seq<Event>, y: seq<Event>, rest: Option<(seq<Event>, seq<Event>)>)
    ensures TakeAfter(x, TakeAfter(y, rest)) == TakeAfter(x + y, rest)
  {
    if rest.Some? {
      assert x + (y + rest.value.0) == x + y + rest.value.0;
    }
  }

  lemma {:induction false} TakeProps(depth: nat, props: seq<Property>, rest: seq<Event>)
    ensures Take(depth, PropEvents(props) + rest) == TakeAfter(PropEvents(props), Take(depth, rest))
    decreases |props|
  {
    var more := Take(depth, rest);
    if props == [] {
      assert PropEvents(props) + rest == rest;
      TakeAfterMore(Close, [], more);
    } else {
      assert (PropEvents(props) + rest)[1..] == PropEvents(props[1..]) + rest;
      TakeProps(depth, props[1..], rest);
      TakeAfterMore(Attr(props[0].name, props[0].value), PropEvents(props[1..]), more);
    }
  }

  lemma TakeOpen(depth: nat, name: bytes, evs: seq<Event>)
    ensures Take(depth, [Open(name)] + evs) == TakeAfter([Open(name)], Take(depth + 1, evs))
  {
    ConsConcat([Open(name)], evs);
    EmptyConcat(evs);
  }

  lemma TakeClose(depth: nat, rest: seq<Event>)
    ensures Take(depth + 1, [Close] + rest) ==
      if depth == 0 then Some(([Close], rest)) else TakeAfter([Close], Take(depth, rest))
  {
    ConsConcat([Close], rest);
    EmptyConcat(rest);
  }

  lemma TakenNow(body: seq<Event>, last: seq<Event>, rest: seq<Event>)
    ensures TakeAfter(body, Some((last, rest))) == Some((body + last, rest))
  {
  }

  lemma EventsEnd(node: Node)
    ensures Events(node) == [Open(node.name)] + (PropEvents(node.props) + ForestEvents(node.children)) + [Close]
  {
    hide PropEvents, ForestEvents;
  }

  /// A whole node is passed over unless the search started with it.
  lemma {:induction false} TakeNode(depth: nat, node: Node, rest: seq<Event>)
    ensures Take(depth, Events(node) + rest) ==
      if depth == 0 then Some((Events(node), rest)) else TakeAfter(Events(node), Take(depth, rest))
    decreases node, 1
  {
    var tail := [Close] + rest;
    var props, kids := PropEvents(node.props), ForestEvents(node.children);
    var body := [Open(node.name)] + (props + kids);
    TakeClose(depth, rest);
    EventsThen(node, rest);
    TakeOpen(depth, node.name, props + (kids + tail));
    TakeProps(depth + 1, node.props, kids + tail);
    TakeForest(depth + 1, node.children, tail);
    EventsEnd(node);
    var last := Take(depth + 1, tail);
    hide *;
    TakeAfterAfter(props, kids, last);
    TakeAfterAfter([Open(node.name)], props + kids, last);
    if depth == 0 {
      TakenNow(body, [Close], rest);
    } else {
      TakeAfterAfter(body, [Close], Take(depth, rest));
    }
  }

  lemma {:induction false} TakeForest(depth: nat, nodes: seq<Node>, rest: seq<Event>)
    requires depth > 0
    ensures Take(depth, ForestEvents(nodes) + rest) == TakeAfter(ForestEvents(nodes), Take(depth, rest))
    decreases nodes, 0
  {
    var more := Take(depth, rest);
    if nodes == [] {
      assert ForestEvents(nodes) + rest == rest;
      TakeAfterMore(Close, [], more);
    } else {
      var kids := ForestEvents(nodes[1..]);
      assert ForestEvents(nodes) + rest == Events(nodes[0]) + (kids + rest);
      TakeNode(depth, nodes[0], kids + rest);
      TakeForest(depth, nodes[1..], rest);
      TakeAfterAfter(Events(nodes[0]), kids, more);
    }
  }

  lemma ResolveCons(strings: bytes, ts: seq<Token>)
    requires Fin !in ts && ts != [] && Resolve(strings, ts).Some?
    ensures TokenEvents(strings, ts[0]).Some? && Resolve(strings, ts[1..]).Some?
    ensures ts[0].Prop? ==> StringAt(strings, ts[0].nameoff).Some?
    ensures ts[0].Begin? ==> TokenEvents(strings, ts[0]).value == [Open(ts[0].name)]
    ensures ts[0].End? ==> TokenEvents(strings, ts[0]).value == [Close]
    ensures ts[0].Prop? ==>
      TokenEvents(strings, ts[0]).value == [Attr(StringAt(strings, ts[0].nameoff).value, ts[0].value)]
    ensures ts[0].Nop? ==> TokenEvents(strings, ts[0]).value == []
    ensures
      var head, rest, evs := TokenEvents(strings, ts[0]).value, Resolve(strings, ts[1..]).value, Resolve(strings, ts).value;
      && (ts[0] == Nop <==> head == []) && |head| <= 1
      && (head == [] ==> evs == rest)
      && (head != [] ==> evs != [] && evs[0] == head[0] && evs[1..] == rest)
  {
  }

  /// Copying keeps the events of the subtree and only appends to the strings block.
  lemma {:induction false} CopyMeaning(names: bytes, strings: bytes, depth: nat, ts: seq<Token>)
    requires AllWf(ts) && Resolve(names, ts).Some? && Copy(names, strings, depth, ts).Ok?
    ensures
      var copied, taken := Copy(names, strings, depth, ts).value, Take(depth, Resolve(names, ts).value);
      && strings <= copied.strings && taken.Some?
      && Resolve(copied.strings, copied.tokens) == Some(taken.value.0)
      && Resolve(names, copied.rest) == Some(taken.value.1)
    decreases |ts|
  {
    hide EnsureString, StringAt, Wf, TokenEvents;
    ResolveCons(names, ts);
    var t, rest, out := ts[0], ts[1..], Copy(names, strings, depth, ts).value;
    match t
    case Begin(_, _) =>
      CopyMeaning(names, strings, depth + 1, rest);
      CopyHead(out.strings, names, t, Copy(names, strings, depth + 1, rest).value.tokens);
    case End =>
      if depth > 1 {
        CopyMeaning(names, strings, depth - 1, rest);
        CopyHead(out.strings, names, t, Copy(names, strings, depth - 1, rest).value.tokens);
      } else {
        CopyHead(out.strings, names, t, []);
        ResolveNil(out.strings);
        assert [Close] + [] == [Close] && [End] + [] == [End];
      }
    case Prop(nameoff, value, _) =>
      var name := StringAt(names, nameoff).value;
      StringAtNulFree(names, nameoff);
      EnsureStringMeaning(strings, name);
      var (strings', offset) := EnsureString(strings, name).value;
      CopyMeaning(names, strings', depth, rest);
      StringAtUnder(strings', out.strings, offset);
      CopyProp(out.strings, names, t, offset, Copy(names, strings', depth, rest).value.tokens);
    case Nop =>
      CopyMeaning(names, strings, depth, rest);
      CopyHead(out.strings, names, t, Copy(names, strings, depth, rest).value.tokens);
  }

  lemma ResolveNil(strings: bytes)
    ensures Resolve(strings, []) == Some([])
  {
  }

  lemma StringAtNulFree(strings: bytes, offset: nat)
    requires StringAt(strings, offset).Some?
    ensures NulFree(StringAt(strings, offset).value)
  {
  }

  lemma StringAtUnder(strings: bytes, strings': bytes, offset: nat)
    requires strings <= strings' && StringAt(strings, offset).Some?
    ensures StringAt(strings', offset) == StringAt(strings, offset)
  {
    Chosen.StringAtUnder(strings, strings', offset);
  }

  /// A token other than a property means the same under any strings block.
  lemma CopyHead(strings: bytes, names: bytes, t: Token, rest: seq<Token>)
    requires t != Fin && !t.Prop? && Fin !in rest && Resolve(strings, rest).Some?
    ensures TokenEvents(names, t) == TokenEvents(strings, t) && TokenEvents(names, t).Some?
    ensures
      var head := TokenEvents(names, t).value;
      && Resolve(strings, [t] + rest) == Some(head + Resolve(strings, rest).value)
      && (head == [] ==> Resolve(strings, [t] + rest) == Resolve(strings, rest))
  {
    assert ([t] + rest)[1..] == rest;
    assert [] + Resolve(strings, rest).value == Resolve(strings, rest).value;
  }

  lemma CopyProp(strings: bytes, names: bytes, t: Token, offset: u32, rest: seq<Token>)
    requires t.Prop? && Fin !in rest && Resolve(strings, rest).Some?
    requires StringAt(names, t.nameoff).Some? && StringAt(strings, offset) == StringAt(names, t.nameoff)
    ensures TokenEvents(names, t).Some?
    ensures Resolve(strings, [NewProp(offset, t.value)] + rest) ==
      Some(TokenEvents(names, t).value + Resolve(strings, rest).value)
  {
    assert ([NewProp(offset, t.value)] + rest)[1..] == rest;
  }

  /// Skipping leaves what copying would leave.
  lemma {:induction false} SkipMeaning(names: bytes, depth: nat, ts: seq<Token>)
    requires AllWf(ts) && Resolve(names, ts).Some?
    ensures
      var rest, taken := Skip(depth, ts), Take(depth, Resolve(names, ts).value);
      && (rest.Ok? <==> taken.Some?)
      && (rest.Ok? ==> AllWf(rest.value) && Resolve(names, rest.value) == Some(taken.value.1))
    decreases |ts|
  {
    if ts == [] {
      ResolveNil(names);
    } else {
      ResolveCons(names, ts);
      match ts[0]
      case Begin(_, _) => SkipMeaning(names, depth + 1, ts[1..]);
      case End =>
        if depth > 1 {
          SkipMeaning(names, depth - 1, ts[1..]);
        }
      case Prop(_, _, _) | Nop => SkipMeaning(names, depth, ts[1..]);
      case Fin => assert false;
    }
  }

  /// The events of the memory subtrees at depth one.
  function ExtractEvents(depth: nat, evs: seq<Event>): seq<Event>
    decreases |evs|
  {
    if evs == [] then []
    else
      match evs[0]
      case Open(name) =>
        if depth == 1 && IsMemory(name) && Take(0, evs).Some? then
          var (node, rest) := Take(0, evs).value;
          node + ExtractEvents(depth, rest)
        else ExtractEvents(depth + 1, evs[1..])
      case Close => if depth == 0 then [] else ExtractEvents(depth - 1, evs[1..])
      case Attr(_, _) => ExtractEvents(depth, evs[1..])
  }

  lemma {:induction false} ExtractMeaning(names: bytes, strings: bytes, depth: nat, sawRoot: bool, ts: seq<Token>)
    requires AllWf(ts) && Resolve(names, ts).Some? && Extract(names, strings, depth, sawRoot, ts).Ok?
    ensures
      var out := Extract(names, strings, depth, sawRoot, ts).value;
      && strings <= out.strings && AllWf(Joined(out.fragments))
      && Resolve(out.strings, Joined(out.fragments)) == Some(ExtractEvents(depth, Resolve(names, ts).value))
    decreases |ts|
  {
    hide Copy, Take, IsMemory, Wf;
    if ts == [] {
      ResolveNil(names);
      ResolveNil(strings);
    } else {
      ResolveCons(names, ts);
      match ts[0]
      case Begin(name, _) =>
        if depth == 0 {
          ExtractMeaning(names, strings, 1, true, ts[1..]);
        } else if depth == 1 && IsMemory(name) {
          var copied := Copy(names, strings, 0, ts).value;
          CopyMeaning(names, strings, 0, ts);
          CopyWf(names, strings, 0, ts);
          ExtractMeaning(names, copied.strings, depth, sawRoot, copied.rest);
          var out := Extract(names, copied.strings, depth, sawRoot, copied.rest).value;
          var whole := Extract(names, strings, depth, sawRoot, ts).value.fragments;
          assert whole[0] == copied.tokens && whole[1..] == out.fragments;
          ResolveUnder(copied.strings, out.strings, copied.tokens);
          ResolveAppend(out.strings, copied.tokens, Joined(out.fragments));
        } else {
          ExtractMeaning(names, strings, depth + 1, sawRoot, ts[1..]);
        }
      case End => ExtractMeaning(names, strings, depth - 1, sawRoot, ts[1..]);
      case Prop(_, _, _) | Nop => ExtractMeaning(names, strings, depth, sawRoot, ts[1..]);
      case Fin => assert false;
    }
  }

  function GraftEvents(memory: seq<Event>, depth: nat, inserted: bool, evs: seq<Event>): seq<Event>
    decreases |evs|
  {
    if evs == [] then []
    else
      match evs[0]
      case Open(name) =>
        if depth == 1 && IsMemory(name) && Take(0, evs).Some? then GraftEvents(memory, depth, inserted, Take(0, evs).value.1)
        else
          var insert := depth == 1 && !inserted;
          (if insert then memory + [evs[0]] else [evs[0]]) + GraftEvents(memory, depth + 1, inserted || insert, evs[1..])
      case Close =>
        if depth == 0 then []
        else
          var insert := depth == 1 && !inserted;
          (if insert then memory + [Close] else [Close]) + GraftEvents(memory, depth - 1, inserted || insert, evs[1..])
      case Attr(_, _) => [evs[0]] + GraftEvents(memory, depth, inserted, evs[1..])
  }

  lemma {:induction false} GraftMeaning(strings: bytes, memory: seq<Token>, g: Graft, ts: seq<Token>)
    requires AllWf(ts) && AllWf(memory) && Resolve(strings, ts).Some? && Resolve(strings, memory).Some?
    requires GraftTokens(memory, g, ts).Ok?
    ensures Resolve(strings, GraftTokens(memory, g, ts).value) ==
      Some(GraftEvents(Resolve(strings, memory).value, g.depth, g.inserted, Resolve(strings, ts).value))
    decreases |ts|
  {
    hide Skip, Take, IsMemory, Wf, TokenEvents;
    if ts == [] {
      ResolveNil(strings);
    } else {
      ResolveCons(strings, ts);
      ResolveOne(strings, ts[0]);
      ResolveAppend(strings, memory, [ts[0]]);
      match ts[0]
      case Begin(name, _) =>
        if g.depth == 0 {
          GraftMeaning(strings, memory, Graft(1, true, g.inserted), ts[1..]);
          ResolveAppend(strings, [ts[0]], GraftTokens(memory, Graft(1, true, g.inserted), ts[1..]).value);
        } else if g.depth == 1 && IsMemory(name) {
          SkipMeaning(strings, 0, ts);
          GraftMeaning(strings, memory, g, Skip(0, ts).value);
        } else {
          var insert := g.depth == 1 && !g.inserted;
          var g' := Graft(g.depth + 1, g.sawRoot, g.inserted || insert);
          GraftMeaning(strings, memory, g', ts[1..]);
          ResolveAppend(strings, if insert then memory + [ts[0]] else [ts[0]], GraftTokens(memory, g', ts[1..]).value);
        }
      case End =>
        var insert := g.depth == 1 && !g.inserted;
        var g' := Graft(g.depth - 1, g.sawRoot, g.inserted || insert);
        GraftMeaning(strings, memory, g', ts[1..]);
        ResolveAppend(strings, if insert then memory + [End] else [End], GraftTokens(memory, g', ts[1..]).value);
      case Prop(_, _, _) | Nop =>
        GraftMeaning(strings, memory, g, ts[1..]);
        var more := GraftTokens(memory, g, ts[1..]).value;
        ResolveAppend(strings, [ts[0]], more);
        assert [] + Resolve(strings, more).value == Resolve(strings, more).value;
      case Fin => assert false;
    }
  }

  // ... and on trees.

  function MemoryNodes(nodes: seq<Node>): seq<Node> {
    if nodes == [] then []
    else (if IsMemory(nodes[0].name) then [nodes[0]] else []) + MemoryNodes(nodes[1..])
  }

  function OtherNodes(nodes: seq<Node>): seq<Node> {
    if nodes == [] then []
    else (if IsMemory(nodes[0].name) then [] else [nodes[0]]) + OtherNodes(nodes[1..])
  }

  /// The supplied tree with its memory nodes removed and the live ones inserted first.
  function GraftTree(root: Node, live: Node): Node {
    root.(children := MemoryNodes(live.children) + OtherNodes(root.children))
  }

  lemma {:induction false} ExtractProps(depth: nat, props: seq<Property>, rest: seq<Event>)
    ensures ExtractEvents(depth, PropEvents(props) + rest) == ExtractEvents(depth, rest)
    decreases |props|
  {
    if props == [] {
      assert PropEvents(props) + rest == rest;
    } else {
      assert (PropEvents(props) + rest)[1..] == PropEvents(props[1..]) + rest;
      ExtractProps(depth, props[1..], rest);
    }
  }

  lemma {:induction false} ExtractNode(depth: nat, node: Node, rest: seq<Event>)
    requires depth >= 1
    ensures ExtractEvents(depth, Events(node) + rest) ==
      if depth == 1 && IsMemory(node.name) then Events(node) + ExtractEvents(depth, rest) else ExtractEvents(depth, rest)
    decreases node, 1
  {
    hide Take, IsMemory;
    var tail := [Close] + rest;
    var props, kids := PropEvents(node.props), ForestEvents(node.children);
    TakeNode(0, node, rest);
    EventsThen(node, rest);
    assert ([Open(node.name)] + (props + (kids + tail)))[1..] == props + (kids + tail);
    if !(depth == 1 && IsMemory(node.name)) {
      ExtractProps(depth + 1, node.props, kids + tail);
      ExtractForest(depth + 1, node.children, tail);
      assert tail[1..] == rest;
    }
  }

  lemma {:induction false} ExtractForest(depth: nat, nodes: seq<Node>, rest: seq<Event>)
    requires depth >= 1
    ensures ExtractEvents(depth, ForestEvents(nodes) + rest) ==
      if depth == 1 then ForestEvents(MemoryNodes(nodes)) + ExtractEvents(depth, rest) else ExtractEvents(depth, rest)
    decreases nodes, 0
  {
    hide Take, IsMemory, ExtractEvents;
    var more := ExtractEvents(depth, rest);
    if nodes == [] {
      assert ForestEvents(nodes) + rest == rest && ForestEvents([]) + more == more;
    } else {
      ForestThen(nodes, rest);
      ExtractNode(depth, nodes[0], ForestEvents(nodes[1..]) + rest);
      ExtractForest(depth, nodes[1..], rest);
      var tail := MemoryNodes(nodes[1..]);
      if IsMemory(nodes[0].name) {
        assert MemoryNodes(nodes)[1..] == tail;
        Assoc(Events(nodes[0]), ForestEvents(tail), more);
      } else {
        assert MemoryNodes(nodes) == tail;
      }
    }
  }

  lemma ForestThen(nodes: seq<Node>, rest: seq<Event>)
    requires nodes != []
    ensures ForestEvents(nodes) + rest == Events(nodes[0]) + (ForestEvents(nodes[1..]) + rest)
  {
    hide Events;
  }

  /// Exactly the memory subtrees of the root are extracted.
  lemma ExtractRoot(root: Node)
    ensures ExtractEvents(0, Events(root)) == ForestEvents(MemoryNodes(root.children))
  {
    hide MemoryNodes, PropEvents, ForestEvents, IsMemory, Take;
    var kids, tail: seq<Event> := ForestEvents(root.children), [Close];
    assert Events(root) == [Open(root.name)] + (PropEvents(root.props) + (kids + tail));
    assert ([Open(root.name)] + (PropEvents(root.props) + (kids + tail)))[1..] == PropEvents(root.props) + (kids + tail);
    ExtractProps(1, root.props, kids + tail);
    ExtractForest(1, root.children, tail);
    assert tail[1..] == [] && ExtractEvents(1, tail) == [];
    assert ForestEvents(MemoryNodes(root.children)) + [] == ForestEvents(MemoryNodes(root.children));
  }

  lemma {:induction false} GraftProps(memory: seq<Event>, depth: nat, inserted: bool, props: seq<Property>, rest: seq<Event>)
    ensures GraftEvents(memory, depth, inserted, PropEvents(props) + rest) ==
      PropEvents(props) + GraftEvents(memory, depth, inserted, rest)
    decreases |props|
  {
    var more := GraftEvents(memory, depth, inserted, rest);
    if props == [] {
      assert PropEvents(props) + rest == rest && PropEvents(props) + more == more;
    } else {
      assert (PropEvents(props) + rest)[1..] == PropEvents(props[1..]) + rest;
      GraftProps(memory, depth, inserted, props[1..], rest);
      Assoc([Attr(props[0].name, props[0].value)], PropEvents(props[1..]), more);
    }
  }

  /// Below the children of the root nothing changes.
  lemma GraftOpens(memory: seq<Event>, depth: nat, inserted: bool, name: bytes, rest: seq<Event>)
    requires depth >= 2
    ensures GraftEvents(memory, depth, inserted, [Open(name)] + rest) == [Open(name)] + GraftEvents(memory, depth + 1, inserted, rest)
  {
    hide Take, IsMemory;
    assert ([Open(name)] + rest)[1..] == rest;
  }

  lemma GraftCloses(memory: seq<Event>, depth: nat, inserted: bool, rest: seq<Event>)
    requires depth >= 2
    ensures GraftEvents(memory, depth + 1, inserted, [Close] + rest) == [Close] + GraftEvents(memory, depth, inserted, rest)
  {
    hide Take, IsMemory;
    assert ([Close] + rest)[1..] == rest;
  }

  lemma {:induction false} GraftDeepNode(memory: seq<Event>, depth: nat, inserted: bool, node: Node, rest: seq<Event>)
    requires depth >= 2
    ensures GraftEvents(memory, depth, inserted, Events(node) + rest) == Events(node) + GraftEvents(memory, depth, inserted, rest)
    decreases node, 1
  {
    hide GraftEvents, PropEvents, ForestEvents, Events;
    var tail, more := [Close] + rest, GraftEvents(memory, depth, inserted, rest);
    var props, kids := PropEvents(node.props), ForestEvents(node.children);
    EventsThen(node, rest);
    GraftOpens(memory, depth, inserted, node.name, props + (kids + tail));
    GraftProps(memory, depth + 1, inserted, node.props, kids + tail);
    GraftDeepForest(memory, depth + 1, inserted, node.children, tail);
    GraftCloses(memory, depth, inserted, rest);
    EventsThen(node, more);
  }

  lemma {:induction false} GraftDeepForest(memory: seq<Event>, depth: nat, inserted: bool, nodes: seq<Node>, rest: seq<Event>)
    requires depth >= 2
    ensures GraftEvents(memory, depth, inserted, ForestEvents(nodes) + rest) ==
      ForestEvents(nodes) + GraftEvents(memory, depth, inserted, rest)
    decreases nodes, 0
  {
    hide GraftEvents;
    var more := GraftEvents(memory, depth, inserted, rest);
    if nodes == [] {
      assert ForestEvents(nodes) + rest == rest && ForestEvents(nodes) + more == more;
    } else {
      ForestThen(nodes, rest);
      GraftDeepNode(memory, depth, inserted, nodes[0], ForestEvents(nodes[1..]) + rest);
      GraftDeepForest(memory, depth, inserted, nodes[1..], rest);
      ForestThen(nodes, more);
    }
  }

  /// One child of the root.
  lemma GraftRootChild(memory: seq<Event>, inserted: bool, node: Node, rest: seq<Event>)
    ensures GraftEvents(memory, 1, inserted, Events(node) + rest) ==
      if IsMemory(node.name) then GraftEvents(memory, 1, inserted, rest)
      else (if inserted then [] else memory) + (Events(node) + GraftEvents(memory, 1, true, rest))
  {
    hide Take, IsMemory;
    var tail := [Close] + rest;
    var props, kids := PropEvents(node.props), ForestEvents(node.children);
    TakeNode(0, node, rest);
    EventsThen(node, rest);
    assert ([Open(node.name)] + (props + (kids + tail)))[1..] == props + (kids + tail);
    if !IsMemory(node.name) {
      var more := GraftEvents(memory, 1, true, rest);
      GraftProps(memory, 2, true, node.props, kids + tail);
      GraftDeepForest(memory, 2, true, node.children, tail);
      assert tail[1..] == rest;
      EventsThen(node, more);
      var body := props + (kids + ([Close] + more));
      Assoc(memory, [Open(node.name)], body);
      assert [] + ([Open(node.name)] + body) == [Open(node.name)] + body;
    }
  }

  lemma {:induction false} GraftRootForest(memory: seq<Event>, inserted: bool, nodes: seq<Node>)
    ensures GraftEvents(memory, 1, inserted, ForestEvents(nodes) + [Close]) ==
      (if inserted then [] else memory) + (ForestEvents(OtherNodes(nodes)) + [Close])
    decreases |nodes|
  {
    hide IsMemory, GraftEvents;
    if nodes == [] {
      GraftLast(memory, inserted);
      assert ForestEvents(nodes) + [Close] == [Close];
    } else {
      ForestThen(nodes, [Close]);
      GraftRootChild(memory, inserted, nodes[0], ForestEvents(nodes[1..]) + [Close]);
      var tail := OtherNodes(nodes[1..]);
      if IsMemory(nodes[0].name) {
        assert OtherNodes(nodes) == tail;
        GraftRootForest(memory, inserted, nodes[1..]);
      } else {
        GraftRootForest(memory, true, nodes[1..]);
        assert [] + (ForestEvents(tail) + [Close]) == ForestEvents(tail) + [Close];
        assert OtherNodes(nodes)[1..] == tail;
        Assoc(Events(nodes[0]), ForestEvents(tail), [Close]);
      }
    }
  }

  lemma GraftLast(memory: seq<Event>, inserted: bool)
    ensures GraftEvents(memory, 1, inserted, [Close]) == (if inserted then [] else memory) + [Close]
  {
    var last := [Close];
    assert last[1..] == [] && GraftEvents(memory, 0, true, []) == [];
    assert [Close] + [] == [Close] && memory + [Close] + [] == memory + [Close];
  }

  /// Streaming over the supplied tree computes `GraftTree`.
  lemma GraftRoot(root: Node, live: Node)
    ensures GraftEvents(ForestEvents(MemoryNodes(live.children)), 0, false, Events(root)) == Events(GraftTree(root, live))
  {
    hide MemoryNodes, OtherNodes, PropEvents, ForestEvents, IsMemory, Take;
    var memory := ForestEvents(MemoryNodes(live.children));
    var props, kids, tail := PropEvents(root.props), ForestEvents(root.children), [Close];
    assert Events(root) == [Open(root.name)] + (props + (kids + tail));
    assert ([Open(root.name)] + (props + (kids + tail)))[1..] == props + (kids + tail);
    GraftProps(memory, 1, false, root.props, kids + tail);
    GraftRootForest(memory, false, root.children);
    var others := ForestEvents(OtherNodes(root.children));
    ForestEventsAppend(MemoryNodes(live.children), OtherNodes(root.children));
    assert [Open(root.name)] + (props + (memory + (others + tail))) == Events(GraftTree(root, live));
  }

  // The grafted tree is again an accepted tree.

  lemma {:induction false} MemoryNodesIn(nodes: seq<Node>)
    ensures forall n <- MemoryNodes(nodes) :: n in nodes && IsMemory(n.name)
    ensures forall n <- OtherNodes(nodes) :: n in nodes && !IsMemory(n.name)
    decreases |nodes|
  {
    hide IsMemory;
    if nodes != [] {
      MemoryNodesIn(nodes[1..]);
      assert forall n <- nodes[1..] :: n in nodes;
    }
  }

  lemma UniqueRest(nodes: seq<Node>)
    requires nodes != [] && UniqueChildren(nodes)
    ensures UniqueChildren(nodes[1..]) && forall n <- nodes[1..] :: n.name != nodes[0].name
  {
    var rest := nodes[1..];
    assert forall i :: 0 <= i < |rest| ==> rest[i] == nodes[i + 1];
  }

  lemma WfCons(head: Node, nodes: seq<Node>, room: nat)
    requires WfNode(head, room) && WfForest(nodes, room)
    ensures WfForest([head] + nodes, room)
  {
    hide WfNode;
    assert ([head] + nodes)[1..] == nodes;
  }

  lemma {:induction false} MemoryNodesWf(nodes: seq<Node>, room: nat)
    requires WfForest(nodes, room) && UniqueChildren(nodes)
    ensures WfForest(MemoryNodes(nodes), room) && UniqueChildren(MemoryNodes(nodes))
    ensures WfForest(OtherNodes(nodes), room) && UniqueChildren(OtherNodes(nodes))
    ensures forall n <- MemoryNodes(nodes) :: n in nodes && IsMemory(n.name)
    ensures forall n <- OtherNodes(nodes) :: n in nodes && !IsMemory(n.name)
    decreases |nodes|
  {
    MemoryNodesIn(nodes);
    if nodes != [] {
      var head, rest := nodes[0], nodes[1..];
      var m, o := MemoryNodes(rest), OtherNodes(rest);
      MemoryNodesIn(rest);
      UniqueRest(nodes);
      assert WfNode(head, room) && WfForest(rest, room);
      assert MemoryNodes(nodes) == (if IsMemory(head.name) then [head] else []) + m;
      assert OtherNodes(nodes) == (if IsMemory(head.name) then [] else [head]) + o;
      hide IsMemory, WfNode, WfForest, MemoryNodes, OtherNodes, UniqueChildren;
      MemoryNodesWf(rest, room);
      EmptyConcat(m);
      EmptyConcat(o);
      if IsMemory(head.name) {
        UniqueCons(head, m);
        WfCons(head, m, room);
      } else {
        UniqueCons(head, o);
        WfCons(head, o, room);
      }
    }
  }

  lemma UniqueCons(head: Node, nodes: seq<Node>)
    requires UniqueChildren(nodes) && forall n <- nodes :: n.name != head.name
    ensures UniqueChildren([head] + nodes)
  {
  }

  lemma GraftedWf(root: Node, live: Node)
    requires WfTree(root) && WfTree(live)
    ensures WfTree(GraftTree(root, live))
  {
    hide IsMemory;
    MemoryNodesWf(root.children, MAX_DEPTH - 1);
    MemoryNodesWf(live.children, MAX_DEPTH - 1);
    var m, o := MemoryNodes(live.children), OtherNodes(root.children);
    WfForestAppend(m, o, MAX_DEPTH - 1);
    forall i, j | 0 <= i < j < |m + o| ensures (m + o)[i].name != (m + o)[j].name {
      if i < |m| <= j {
        assert (m + o)[i] in m && (m + o)[j] in o;
      }
    }
  }

  // The whole blob.

  datatype Grafted = Grafted(tokens: seq<Token>, strings: bytes)

  /// The grafted structure and strings blocks of two pairs of blocks.
  function GraftBlocks(structure: bytes, names: bytes, liveStructure: bytes, liveNames: bytes): Result<Grafted> {
    match TokensFrom(liveStructure, 0)
    case None => InvalidData
    case Some(liveTokens) =>
      var found :- Extract(liveNames, names, 0, false, liveTokens);
      if found.fragments == [] || Fin in Joined(found.fragments) then InvalidData
      else
        match TokensFrom(structure, 0)
        case None => InvalidData
        case Some(ts) =>
          var tokens :- GraftTokens(Joined(found.fragments), GRAFT_START, ts);
          Ok(Grafted(tokens, found.strings))
  }

  lemma {:induction false} ExtractWf(names: bytes, strings: bytes, depth: nat, sawRoot: bool, ts: seq<Token>)
    requires AllWf(ts) && Extract(names, strings, depth, sawRoot, ts).Ok?
    ensures AllWf(Joined(Extract(names, strings, depth, sawRoot, ts).value.fragments))
    decreases |ts|
  {
    hide Copy, IsMemory, Wf;
    if ts != [] {
      match ts[0]
      case Begin(name, _) =>
        if depth == 0 {
          ExtractWf(names, strings, 1, true, ts[1..]);
        } else if depth == 1 && IsMemory(name) {
          var copied := Copy(names, strings, 0, ts).value;
          CopyWf(names, strings, 0, ts);
          ExtractWf(names, copied.strings, depth, sawRoot, copied.rest);
          var out := Extract(names, copied.strings, depth, sawRoot, copied.rest).value;
          var whole := Extract(names, strings, depth, sawRoot, ts).value.fragments;
          assert whole[0] == copied.tokens && whole[1..] == out.fragments;
        } else {
          ExtractWf(names, strings, depth + 1, sawRoot, ts[1..]);
        }
      case End => ExtractWf(names, strings, depth - 1, sawRoot, ts[1..]);
      case Prop(_, _, _) | Nop => ExtractWf(names, strings, depth, sawRoot, ts[1..]);
      case Fin => assert false;
    }
  }

  lemma {:induction false} GraftTokensWf(memory: seq<Token>, g: Graft, ts: seq<Token>)
    requires AllWf(ts) && AllWf(memory) && GraftTokens(memory, g, ts).Ok?
    ensures AllWf(GraftTokens(memory, g, ts).value)
    decreases |ts|
  {
    hide Skip, IsMemory, Wf;
    if ts != [] {
      match ts[0]
      case Begin(name, _) =>
        if g.depth == 0 {
          GraftTokensWf(memory, Graft(1, true, g.inserted), ts[1..]);
        } else if g.depth == 1 && IsMemory(name) {
          SkipWf(0, ts);
          GraftTokensWf(memory, g, Skip(0, ts).value);
        } else {
          var insert := g.depth == 1 && !g.inserted;
          GraftTokensWf(memory, Graft(g.depth + 1, g.sawRoot, g.inserted || insert), ts[1..]);
        }
      case End =>
        var insert := g.depth == 1 && !g.inserted;
        GraftTokensWf(memory, Graft(g.depth - 1, g.sawRoot, g.inserted || insert), ts[1..]);
      case Prop(_, _, _) | Nop => GraftTokensWf(memory, g, ts[1..]);
      case Fin => assert false;
    }
  }

  lemma {:induction false} SkipWf(depth: nat, ts: seq<Token>)
    requires AllWf(ts) && Skip(depth, ts).Ok?
    ensures AllWf(Skip(depth, ts).value)
    decreases |ts|
  {
    match ts[0]
    case Begin(_, _) => SkipWf(depth + 1, ts[1..]);
    case End =>
      if depth > 1 {
        SkipWf(depth - 1, ts[1..]);
      }
    case Prop(_, _, _) | Nop => SkipWf(depth, ts[1..]);
    case Fin => assert false;
  }

  lemma GraftBlocksWf(structure: bytes, names: bytes, liveStructure: bytes, liveNames: bytes)
    requires GraftBlocks(structure, names, liveStructure, liveNames).Ok?
    ensures AllWf(GraftBlocks(structure, names, liveStructure, liveNames).value.tokens)
  {
    TokensAreEncoded(structure, 0);
    TokensAreEncoded(liveStructure, 0);
    var liveTokens, ts := TokensFrom(liveStructure, 0).value, TokensFrom(structure, 0).value;
    ExtractWf(liveNames, names, 0, false, liveTokens);
    GraftTokensWf(Joined(Extract(liveNames, names, 0, false, liveTokens).value.fragments), GRAFT_START, ts);
  }

  function GraftedBlob(dtb: bytes, liveDtb: bytes): Result<bytes> {
    var header :- ParseHeader(dtb);
    var reserveMap :- ReserveMap(dtb);
    var structure :- StructBlock(dtb);
    var names :- StringsBlock(dtb);
    var liveStructure :- StructBlock(liveDtb);
    var liveNames :- StringsBlock(liveDtb);
    var out :- GraftBlocks(structure, names, liveStructure, liveNames);
    assert AllWf(out.tokens) by { GraftBlocksWf(structure, names, liveStructure, liveNames); }
    BuildDtb(header, reserveMap, EncAll(out.tokens) + Enc(Fin), out.strings)
  }

  /// `graft_memory`.
  method GraftMemory(dtb: bytes, liveDtb: bytes) returns (r: Result<bytes>)
    ensures r == GraftedBlob(dtb, liveDtb)
  {
    hide ParseHeader, ReserveMap, TokensFrom, Extract, GraftTokens, BuildDtb, EncAll, Enc;
    var header := ParseHeader(dtb);
    if header.InvalidData? {
      return InvalidData;
    }
    var reserveMap := ReadReserveMap(dtb);
    if reserveMap.InvalidData? {
      return InvalidData;
    }
    var structure, names := StructBlock(dtb).value, StringsBlock(dtb).value;
    var liveHeader := ParseHeader(liveDtb);
    if liveHeader.InvalidData? {
      return InvalidData;
    }
    var liveStructure, liveNames := StructBlock(liveDtb).value, StringsBlock(liveDtb).value;
    var memory := ExtractMemoryFragments(liveStructure, liveNames, names);
    if memory.InvalidData? {
      return InvalidData;
    }
    if memory.value.0 == 0 {
      return InvalidData;
    }
    ghost var tokens := Joined(Extract(liveNames, names, 0, false, TokensFrom(liveStructure, 0).value).value.fragments);
    var structure' := GraftMemoryStructure(structure, memory.value.1, tokens);
    if structure'.InvalidData? {
      return InvalidData;
    }
    return BuildDtb(header.value, reserveMap.value, structure'.value, memory.value.2);
  }

  lemma GraftedBlocksParse(structure: bytes, names: bytes, liveStructure: bytes, liveNames: bytes)
    requires TreeOf(structure, names).Ok? && TreeOf(liveStructure, liveNames).Ok?
    requires GraftBlocks(structure, names, liveStructure, liveNames).Ok?
    ensures
      var out := GraftBlocks(structure, names, liveStructure, liveNames).value;
      && AllWf(out.tokens)
      && TreeOf(EncAll(out.tokens) + Enc(Fin), out.strings) ==
         Ok(GraftTree(TreeOf(structure, names).value, TreeOf(liveStructure, liveNames).value))
  {
    hide Extract, GraftTokens, Resolve, Enc, EncAll, WfTree, TokensFrom, Joined, Events, AllWf;
    var t, l := TreeOf(structure, names).value, TreeOf(liveStructure, liveNames).value;
    TreeOfExact(structure, names, t);
    TreeOfExact(liveStructure, liveNames, l);
    var ts, liveTokens := TokensFrom(structure, 0).value, TokensFrom(liveStructure, 0).value;
    TokensAreEncoded(structure, 0);
    TokensAreEncoded(liveStructure, 0);
    var found := Extract(liveNames, names, 0, false, liveTokens).value;
    ExtractMeaning(liveNames, names, 0, false, liveTokens);
    ExtractRoot(l);
    ResolveUnder(names, found.strings, ts);
    GraftMeaning(found.strings, Joined(found.fragments), GRAFT_START, ts);
    GraftTokensWf(Joined(found.fragments), GRAFT_START, ts);
    GraftRoot(t, l);
    GraftedWf(t, l);
    EncodedDenotes(GraftTokens(Joined(found.fragments), GRAFT_START, ts).value, found.strings, GraftTree(t, l));
  }

  lemma GraftedBlobParses(dtb: bytes, liveDtb: bytes)
    requires ContractTree(dtb).Ok? && ContractTree(liveDtb).Ok? && GraftedBlob(dtb, liveDtb).Ok?
    ensures
      var out := GraftedBlob(dtb, liveDtb).value;
      && ContractTree(out) == Ok(GraftTree(ContractTree(dtb).value, ContractTree(liveDtb).value))
      && ReserveMap(out) == ReserveMap(dtb)
      && ReserveMapRanges(out) == ReserveMapRanges(dtb)
  {
    var structure, names := StructBlock(dtb).value, StringsBlock(dtb).value;
    var liveStructure, liveNames := StructBlock(liveDtb).value, StringsBlock(liveDtb).value;
    GraftedBlocksParse(structure, names, liveStructure, liveNames);
    ReadMapOk(dtb);
    hide TreeOf, ParseHeader, BuildDtb, ReserveMap, GraftBlocks, GraftTree, MapRanges, AllWf;
    var blocks := GraftBlocks(structure, names, liveStructure, liveNames).value;
    var header, reserveMap := ParseHeader(dtb).value, ReserveMap(dtb).value;
    BuiltBlocks(header, reserveMap, EncAll(blocks.tokens) + Enc(Fin), blocks.strings);
    BuiltMap(header, reserveMap, EncAll(blocks.tokens) + Enc(Fin), blocks.strings);
  }

  /// `graft_memory` preserves meaning: the result parses to the supplied tree with its memory
  /// nodes removed and the live memory subtrees inserted first; what the blob reserves is unchanged.
  lemma GraftMemoryMeaning(dtb: bytes, liveDtb: bytes)
    requires ContractTree(dtb).Ok? && ContractTree(liveDtb).Ok? && GraftedBlob(dtb, liveDtb).Ok?
    ensures
      var out := GraftedBlob(dtb, liveDtb).value;
      && ContractTree(out) == Ok(GraftTree(ContractTree(dtb).value, ContractTree(liveDtb).value))
      && ReserveMap(out) == ReserveMap(dtb)
      && ReservedRanges(out) == ReservedRanges(dtb)
  {
    ParsedWf(liveDtb);
    hide *;
    GraftedBlobParses(dtb, liveDtb);
    GraftKeepsReserved(ContractTree(dtb).value, ContractTree(liveDtb).value);
    ReservedRangesAreTree(dtb);
    ReservedRangesAreTree(GraftedBlob(dtb, liveDtb).value);
  }

  lemma IndexCons(n: Node, rest: seq<Node>, name: bytes)
    ensures ChildIndex([n] + rest, name) ==
      if n.name == name then Some(0)
      else if ChildIndex(rest, name).None? then None else Some(ChildIndex(rest, name).value + 1)
  {
    ConsConcat([n], rest);
    EmptyConcat(rest);
  }

  lemma OtherNodesStep(nodes: seq<Node>)
    requires nodes != []
    ensures OtherNodes(nodes) == if IsMemory(nodes[0].name) then OtherNodes(nodes[1..]) else [nodes[0]] + OtherNodes(nodes[1..])
  {
    EmptyConcat(OtherNodes(nodes[1..]));
  }

  lemma {:induction false} OtherNodesKeepReserved(nodes: seq<Node>)
    ensures
      var i, j := ChildIndex(nodes, RESERVED_MEMORY), ChildIndex(OtherNodes(nodes), RESERVED_MEMORY);
      && (i.Some? <==> j.Some?)
      && (i.Some? ==> OtherNodes(nodes)[j.value] == nodes[i.value])
    decreases |nodes|
  {
    ReservedIsNotMemory();
    hide IsMemory;
    if nodes != [] {
      OtherNodesKeepReserved(nodes[1..]);
      OtherNodesStep(nodes);
      IndexCons(nodes[0], nodes[1..], RESERVED_MEMORY);
      IndexCons(nodes[0], OtherNodes(nodes[1..]), RESERVED_MEMORY);
      ConsParts(nodes);
      hide *;
      if IsMemory(nodes[0].name) {
        assert nodes[0].name != RESERVED_MEMORY;
      } else if nodes[0].name != RESERVED_MEMORY {
        var i, j := ChildIndex(nodes[1..], RESERVED_MEMORY), ChildIndex(OtherNodes(nodes[1..]), RESERVED_MEMORY);
        assert i.Some? ==> nodes[i.value + 1] == nodes[1..][i.value];
        assert j.Some? ==> OtherNodes(nodes)[j.value + 1] == OtherNodes(nodes[1..])[j.value];
      }
    }
  }

  lemma ConsParts(nodes: seq<Node>)
    requires nodes != []
    ensures nodes == [nodes[0]] + nodes[1..]
  {
  }

  lemma ReservedIsNotMemory()
    ensures !IsMemory(RESERVED_MEMORY)
  {
    assert RESERVED_MEMORY[0] == 114 && Ascii("memory")[0] == 109 && Ascii("memory@")[0] == 109;
  }

  lemma {:induction false} MemoryBeforeReserved(memory: seq<Node>, others: seq<Node>)
    requires forall n <- memory :: n.name != RESERVED_MEMORY
    ensures
      var i, j := ChildIndex(memory + others, RESERVED_MEMORY), ChildIndex(others, RESERVED_MEMORY);
      && (i.Some? <==> j.Some?)
      && (i.Some? ==> (memory + others)[i.value] == others[j.value])
    decreases |memory|
  {
    if memory == [] {
      assert memory + others == others;
    } else {
      MemoryBeforeReserved(memory[1..], others);
      assert (memory + others)[1..] == memory[1..] + others;
    }
  }

  lemma GraftKeepsReserved(root: Node, live: Node)
    requires WfTree(live)
    ensures TreeReserved(GraftTree(root, live)) == TreeReserved(root)
  {
    ReservedIsNotMemory();
    MemoryNodesWf(live.children, MAX_DEPTH - 1);
    hide TreeReserved, IsMemory, WfTree, MemoryNodes, OtherNodes, ChildIndex;
    OtherNodesKeepReserved(root.children);
    MemoryBeforeReserved(MemoryNodes(live.children), OtherNodes(root.children));
    TreeReservedDepends(root, GraftTree(root, live));
  }
}
