/// The structure block of a flattened devicetree as a stream of tokens.
///
/// A token keeps its padding bytes, so reading is lossless: `Enc` is the exact
/// inverse of `TokenAt`, and a rewriter that copies a slice of the block copies tokens.
module Tokens {
  import opened Bytes

  const FDT_BEGIN_NODE: u32 := 1
  const FDT_END_NODE: u32 := 2
  const FDT_PROP: u32 := 3
  const FDT_NOP: u32 := 4
  const FDT_END: u32 := 9

  datatype Token =
    | Begin(name: bytes, pad: bytes)
    | End
    | Prop(nameoff: u32, value: bytes, pad: bytes)
    | Nop
    | Fin

  /// The token that starts at `cursor`, and the cursor after it.
  function TokenAt(b: bytes, cursor: nat): (r: Option<(Token, nat)>)
    ensures r.Some? ==> cursor + 4 <= r.value.1 <= |b|
  {
    if cursor + 4 > |b| then None
    else
      var tag := De32(b[cursor..cursor + 4]);
      if tag == FDT_BEGIN_NODE then
        var end :- FindNul(b, cursor + 4);
        var next := Align4(end + 1);
        if next > |b| then None else Some((Begin(b[cursor + 4..end], b[end + 1..next]), next))
      else if tag == FDT_END_NODE then Some((End, cursor + 4))
      else if tag == FDT_PROP then
        if cursor + 12 > |b| then None
        else
          var len, nameoff := De32(b[cursor + 4..cursor + 8]), De32(b[cursor + 8..cursor + 12]);
          var end := cursor + 12 + len;
          var next := Align4(end);
          if next > |b| then None else Some((Prop(nameoff, b[cursor + 12..end], b[end..next]), next))
      else if tag == FDT_NOP then Some((Nop, cursor + 4))
      else if tag == FDT_END then Some((Fin, cursor + 4))
      else None
  }

  ghost predicate Wf(t: Token) {
    match t
    case Begin(name, pad) => NulFree(name) && |pad| == PadLen(|name| + 1)
    case Prop(_, value, pad) => |value| < U32_LIMIT && |pad| == PadLen(|value|)
    case _ => true
  }

  function Enc(t: Token): bytes
    requires Wf(t)
  {
    match t
    case Begin(name, pad) => Be32(FDT_BEGIN_NODE) + name + [0] + pad
    case End => Be32(FDT_END_NODE)
    case Prop(nameoff, value, pad) => Be32(FDT_PROP) + Be32(|value|) + Be32(nameoff) + value + pad
    case Nop => Be32(FDT_NOP)
    case Fin => Be32(FDT_END)
  }

  /// `write_begin_node` and `write_prop` pad with zeros.
  function NewBegin(name: bytes): Token { Begin(name, Zeros(PadLen(|name| + 1))) }

  function NewProp(nameoff: u32, value: bytes): Token { Prop(nameoff, value, Zeros(PadLen(|value|))) }

  lemma EncLength(t: Token)
    requires Wf(t)
    ensures |Enc(t)| % 4 == 0 && |Enc(t)| >= 4
  {
    hide Bytes.Be32;
  }

  lemma Inside(before: bytes, e: bytes, after: bytes, i: nat, j: nat)
    requires i <= j <= |e|
    ensures (before + e + after)[|before| + i..|before| + j] == e[i..j]
  {
  }

  lemma BeginFromSlices(b: bytes, lo: nat, end: nat, hi: nat)
    requires lo + 4 <= end < hi <= |b| && b[end] == 0
    ensures b[lo..hi] == b[lo..lo + 4] + b[lo + 4..end] + [0] + b[end + 1..hi]
  {
  }

  lemma PropFromSlices(b: bytes, lo: nat, end: nat, hi: nat)
    requires lo + 12 <= end <= hi <= |b|
    ensures b[lo..hi] == b[lo..lo + 4] + b[lo + 4..lo + 8] + b[lo + 8..lo + 12] + b[lo + 12..end] + b[end..hi]
  {
  }

  /// What was read is exactly the bytes that were passed over.
  lemma EncIsSlice(b: bytes, cursor: nat)
    requires cursor % 4 == 0 && TokenAt(b, cursor).Some?
    ensures
      var (t, next) := TokenAt(b, cursor).value;
      Wf(t) && next % 4 == 0 && b[cursor..next] == Enc(t)
  {
    hide Bytes.Be32, Bytes.De32, Bytes.FindNul, Bytes.Align4, Bytes.PadLen;
    var (t, next) := TokenAt(b, cursor).value;
    Be32De32(b[cursor..cursor + 4]);
    match t
    case Begin(name, pad) =>
      var end := cursor + 4 + |name|;
      Align4Shift(cursor + 4, 1 + |name|);
      BeginFromSlices(b, cursor, end, next);
    case Prop(nameoff, value, pad) =>
      Align4Shift(cursor + 12, |value|);
      Be32De32(b[cursor + 4..cursor + 8]);
      Be32De32(b[cursor + 8..cursor + 12]);
      PropFromSlices(b, cursor, cursor + 12 + |value|, next);
    case _ =>
  }

  lemma PropLayout(t: Token)
    requires Wf(t) && t.Prop?
    ensures
      var e, n := Enc(t), |t.value|;
      && |e| == 12 + n + |t.pad| && n < U32_LIMIT
      && e[0..4] == Be32(FDT_PROP) && e[4..8] == Be32(n) && e[8..12] == Be32(t.nameoff)
      && e[12..12 + n] == t.value && e[12 + n..|e|] == t.pad
  {
    hide Bytes.Be32;
  }

  lemma BeginLayout(t: Token)
    requires Wf(t) && t.Begin?
    ensures
      var e, n := Enc(t), |t.name|;
      && |e| == 5 + n + |t.pad|
      && e[0..4] == Be32(FDT_BEGIN_NODE) && e[4..4 + n] == t.name
      && e[4 + n] == 0 && e[5 + n..|e|] == t.pad
  {
    hide Bytes.Be32;
  }

  lemma SliceIsBegin(before: bytes, t: Token, after: bytes)
    requires |before| % 4 == 0 && Wf(t) && t.Begin?
    ensures TokenAt(before + Enc(t) + after, |before|) == Some((t, |before| + |Enc(t)|))
  {
    hide *;
    BeginLayout(t);
    var c, e, n := |before|, Enc(t), |t.name|;
    var b := before + e + after;
    assert De32(b[c..c + 4]) == FDT_BEGIN_NODE by {
      Inside(before, e, after, 0, 4);
      De32Be32(FDT_BEGIN_NODE);
    }
    assert b[c + 4..c + 4 + n] == t.name by { Inside(before, e, after, 4, 4 + n); }
    assert b[c + 5 + n..c + |e|] == t.pad by { Inside(before, e, after, 5 + n, |e|); }
    assert b[c + 4 + n] == 0;
    TokenAtBegin(b, c, t);
  }

  lemma TokenAtBegin(b: bytes, c: nat, t: Token)
    requires c % 4 == 0 && Wf(t) && t.Begin?
    requires
      var n := |t.name|;
      && c + 5 + n + |t.pad| <= |b|
      && De32(b[c..c + 4]) == FDT_BEGIN_NODE
      && b[c + 4..c + 4 + n] == t.name && b[c + 4 + n] == 0
      && b[c + 5 + n..c + 5 + n + |t.pad|] == t.pad
    ensures TokenAt(b, c) == Some((t, c + 5 + |t.name| + |t.pad|))
  {
    Align4Shift(c + 4, 1 + |t.name|);
    hide Bytes.De32, Bytes.FindNul, Bytes.Align4, Bytes.PadLen;
    assert forall k :: c + 4 <= k < c + 4 + |t.name| ==> b[k] == t.name[k - c - 4];
    FindNulIs(b, c + 4, c + 4 + |t.name|);
  }

  lemma SliceIsProp(before: bytes, t: Token, after: bytes)
    requires |before| % 4 == 0 && Wf(t) && t.Prop?
    ensures TokenAt(before + Enc(t) + after, |before|) == Some((t, |before| + |Enc(t)|))
  {
    hide *;
    PropLayout(t);
    var c, e, n := |before|, Enc(t), |t.value|;
    var b := before + e + after;
    assert De32(b[c..c + 4]) == FDT_PROP by {
      Inside(before, e, after, 0, 4);
      De32Be32(FDT_PROP);
    }
    assert De32(b[c + 4..c + 8]) == n by {
      Inside(before, e, after, 4, 8);
      De32Be32(n);
    }
    assert De32(b[c + 8..c + 12]) == t.nameoff by {
      Inside(before, e, after, 8, 12);
      De32Be32(t.nameoff);
    }
    assert b[c + 12..c + 12 + n] == t.value by { Inside(before, e, after, 12, 12 + n); }
    assert b[c + 12 + n..c + |e|] == t.pad by { Inside(before, e, after, 12 + n, |e|); }
    TokenAtProp(b, c, t);
  }

  lemma TokenAtProp(b: bytes, c: nat, t: Token)
    requires c % 4 == 0 && Wf(t) && t.Prop?
    requires
      var n := |t.value|;
      && c + 12 + n + |t.pad| <= |b|
      && De32(b[c..c + 4]) == FDT_PROP
      && De32(b[c + 4..c + 8]) == n && De32(b[c + 8..c + 12]) == t.nameoff
      && b[c + 12..c + 12 + n] == t.value
      && b[c + 12 + n..c + 12 + n + |t.pad|] == t.pad
    ensures TokenAt(b, c) == Some((t, c + 12 + |t.value| + |t.pad|))
  {
    Align4Shift(c + 12, |t.value|);
    hide Bytes.De32, Bytes.FindNul, Bytes.Align4, Bytes.PadLen;
  }

  /// What was written is read back, wherever it stands in the block.
  lemma SliceIsToken(before: bytes, t: Token, after: bytes)
    requires |before| % 4 == 0 && Wf(t)
    ensures TokenAt(before + Enc(t) + after, |before|) == Some((t, |before| + |Enc(t)|))
  {
    match t
    case Begin(_, _) => SliceIsBegin(before, t, after);
    case Prop(_, _, _) => SliceIsProp(before, t, after);
    case _ =>
      hide Bytes.Be32, Bytes.De32;
      De32Be32(FDT_END_NODE);
      De32Be32(FDT_NOP);
      De32Be32(FDT_END);
      Inside(before, Enc(t), after, 0, 4);
      assert Enc(t)[0..4] == Enc(t);
  }

  ghost predicate AllWf(ts: seq<Token>) {
    forall t <- ts :: Wf(t) && t != Fin
  }

  function EncAll(ts: seq<Token>): bytes
    requires AllWf(ts)
  {
    if ts == [] then [] else Enc(ts[0]) + EncAll(ts[1..])
  }

  lemma {:induction false} EncAllAppend(xs: seq<Token>, ys: seq<Token>)
    requires AllWf(xs) && AllWf(ys)
    ensures AllWf(xs + ys) && EncAll(xs + ys) == EncAll(xs) + EncAll(ys)
  {
    hide Enc, TokenAt;
    if xs == [] {
      assert xs + ys == ys;
    } else {
      EncAllAppend(xs[1..], ys);
      assert (xs + ys)[1..] == xs[1..] + ys;
    }
  }

  lemma EncAllNil()
    ensures EncAll([]) == []
  {
  }

  lemma EncAllOne(t: Token)
    requires Wf(t) && t != Fin
    ensures AllWf([t]) && EncAll([t]) == Enc(t)
  {
    hide Enc, Wf;
    assert [t][1..] == [];
    assert EncAll([t]) == Enc(t) + EncAll([]);
  }

  lemma EncAllSnoc(xs: seq<Token>, t: Token)
    requires AllWf(xs) && Wf(t) && t != Fin
    ensures AllWf(xs + [t]) && EncAll(xs + [t]) == EncAll(xs) + Enc(t)
  {
    hide Enc, Wf;
    EncAllOne(t);
    EncAllAppend(xs, [t]);
  }

  lemma {:induction false} EncAllLength(ts: seq<Token>)
    requires AllWf(ts)
    ensures |EncAll(ts)| % 4 == 0
  {
    hide Enc, TokenAt;
    if ts != [] {
      EncLength(ts[0]);
      EncAllLength(ts[1..]);
    }
  }

  /// The tokens from `cursor` up to, and without, `FDT_END`.
  function TokensFrom(b: bytes, cursor: nat): (r: Option<seq<Token>>)
    ensures r.Some? ==> Fin !in r.value
    decreases |b| - cursor
  {
    var (t, next) :- TokenAt(b, cursor);
    if t == Fin then Some([])
    else
      var rest :- TokensFrom(b, next);
      Some([t] + rest)
  }

  /// A block that reads as `ts` starts with the encoding of `ts` and of `FDT_END`.
  lemma {:induction false} TokensAreEncoded(b: bytes, cursor: nat)
    requires cursor % 4 == 0 && TokensFrom(b, cursor).Some?
    ensures cursor <= |b|
    ensures
      var ts := TokensFrom(b, cursor).value;
      AllWf(ts) && EncAll(ts) + Enc(Fin) <= b[cursor..]
    decreases |b| - cursor
  {
    hide Enc, TokenAt;
    var (t, next) := TokenAt(b, cursor).value;
    EncIsSlice(b, cursor);
    assert b[cursor..] == b[cursor..next] + b[next..];
    if t != Fin {
      TokensAreEncoded(b, next);
      var rest := TokensFrom(b, next).value;
      assert ([t] + rest)[1..] == rest;
      assert Enc(t) + EncAll(rest) + Enc(Fin) == Enc(t) + (EncAll(rest) + Enc(Fin));
    }
  }

  /// Reading back what `EncAll` wrote.
  lemma {:induction false} EncodedIsTokens(before: bytes, ts: seq<Token>, after: bytes)
    requires |before| % 4 == 0 && AllWf(ts)
    ensures TokensFrom(before + EncAll(ts) + Enc(Fin) + after, |before|) == Some(ts)
    decreases |ts|
  {
    hide Enc, TokenAt;
    var b := before + EncAll(ts) + Enc(Fin) + after;
    if ts == [] {
      assert b == before + Enc(Fin) + after;
      SliceIsToken(before, Fin, after);
    } else {
      var e, tail := Enc(ts[0]), EncAll(ts[1..]) + Enc(Fin) + after;
      assert b == before + e + tail;
      SliceIsToken(before, ts[0], tail);
      EncLength(ts[0]);
      EncodedIsTokens(before + e, ts[1..], after);
      assert before + e + EncAll(ts[1..]) + Enc(Fin) + after == b;
      assert TokensFrom(b, |before + e|) == Some(ts[1..]);
      assert [ts[0]] + ts[1..] == ts;
    }
  }

  // Events: tokens with property names looked up and no-ops dropped.

  datatype Event = Open(name: bytes) | Close | Attr(name: bytes, value: bytes)

  function TokenEvents(strings: bytes, t: Token): Option<seq<Event>>
    requires t != Fin
  {
    match t
    case Begin(name, _) => Some([Open(name)])
    case End => Some([Close])
    case Prop(nameoff, value, _) =>
      var name :- StringAt(strings, nameoff);
      Some([Attr(name, value)])
    case Nop => Some([])
  }

  function Resolve(strings: bytes, ts: seq<Token>): Option<seq<Event>>
    requires Fin !in ts
  {
    if ts == [] then Some([])
    else
      var first :- TokenEvents(strings, ts[0]);
      var rest :- Resolve(strings, ts[1..]);
      Some(first + rest)
  }

  lemma ResolveOne(strings: bytes, t: Token)
    requires t != Fin
    ensures Resolve(strings, [t]) == TokenEvents(strings, t)
  {
    assert [t][1..] == [] && Resolve(strings, []) == Some([]);
    var head := TokenEvents(strings, t);
    if head.Some? {
      assert head.value + [] == head.value;
    }
  }

  lemma {:induction false} ResolveAppend(strings: bytes, xs: seq<Token>, ys: seq<Token>)
    requires Fin !in xs && Fin !in ys
    ensures Resolve(strings, xs + ys) ==
      if Resolve(strings, xs).Some? && Resolve(strings, ys).Some?
      then Some(Resolve(strings, xs).value + Resolve(strings, ys).value) else None
  {
    if xs == [] {
      assert xs + ys == ys;
      if Resolve(strings, ys).Some? {
        assert [] + Resolve(strings, ys).value == Resolve(strings, ys).value;
      }
    } else {
      ResolveAppend(strings, xs[1..], ys);
      assert (xs + ys)[1..] == xs[1..] + ys;
      assert (xs + ys)[0] == xs[0];
      var first, xr, yr := TokenEvents(strings, xs[0]), Resolve(strings, xs[1..]), Resolve(strings, ys);
      if first.Some? && xr.Some? && yr.Some? {
        assert first.value + (xr.value + yr.value) == first.value + xr.value + yr.value;
      }
    }
  }

  /// Offsets keep their meaning when the strings block grows at its end.
  lemma {:induction false} ResolveGrows(strings: bytes, more: bytes, ts: seq<Token>)
    requires Fin !in ts && Resolve(strings, ts).Some?
    ensures Resolve(strings + more, ts) == Resolve(strings, ts)
  {
    if ts != [] {
      ResolveGrows(strings, more, ts[1..]);
      if ts[0].Prop? {
        StringAtGrows(strings, more, ts[0].nameoff);
      }
    }
  }

  /// The events from `cursor` to `FDT_END`, when every token and every name reads.
  function EventsFrom(structure: bytes, strings: bytes, cursor: nat): Option<seq<Event>> {
    var ts :- TokensFrom(structure, cursor);
    Resolve(strings, ts)
  }

  lemma EventsStep(structure: bytes, strings: bytes, cursor: nat)
    ensures EventsFrom(structure, strings, cursor) ==
      var (t, next) :- TokenAt(structure, cursor);
      if t == Fin then Some([])
      else
        var first :- TokenEvents(strings, t);
        var rest :- EventsFrom(structure, strings, next);
        Some(first + rest)
  {
    var read := TokenAt(structure, cursor);
    if read.Some? && read.value.0 != Fin {
      var (t, next) := read.value;
      var rest := TokensFrom(structure, next);
      if rest.Some? {
        assert ([t] + rest.value)[1..] == rest.value;
      }
    }
  }
}
