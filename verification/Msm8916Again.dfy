/// Patching a patched structure block changes nothing.
module Msm8916Again {
  import opened Bytes
  import opened Handoff
  import opened Tokens
  import opened Tree
  import opened Msm8916
  import opened Msm8916Stream

  /// What a later lookup finds among the tokens that a node kept.
  lemma {:induction false} LookupKept(p: Platform, strings: bytes, more: bytes, offsets: Offsets, stack: seq<Context>,
                                      ts: seq<Token>, name: bytes)
    requires Fin !in ts && PatchFrom(p, strings, offsets, stack, ts).Ok?
    ensures Lookup(strings + more, PatchFrom(p, strings, offsets, stack, ts).value, name)
      == if Skips(Top(stack), name) then None else Lookup(strings, ts, name)
    decreases |ts|
  {
    hide Skips, SeenAt, ContextOf, Additions, PropTokens, StringAt;
    if ts != [] {
      var rest := ts[1..];
      match ts[0]
      case Begin(n, _) =>
        var seen := SeenAt(strings, rest);
        var c := ContextOf(stack, n, seen);
        HeadOf([ts[0]] + PropTokens(offsets, Additions(p, c, seen).value), PatchFrom(p, strings, offsets, stack + [c], rest).value);
      case End => HeadOf([End], PatchFrom(p, strings, offsets, stack[..|stack| - 1], rest).value);
      case Prop(nameoff, value, _) =>
        LookupKept(p, strings, more, offsets, stack, rest, name);
        StringAtGrows(strings, more, nameoff);
        HeadOf([ts[0]], PatchFrom(p, strings, offsets, stack, rest).value);
      case Nop =>
        LookupKept(p, strings, more, offsets, stack, rest, name);
        HeadOf([Nop], PatchFrom(p, strings, offsets, stack, rest).value);
    }
  }

  lemma HeadOf(xs: seq<Token>, ys: seq<Token>)
    requires xs != []
    ensures (xs + ys)[0] == xs[0] && (|xs| == 1 ==> (xs + ys)[1..] == ys)
  {
  }

  /// What a lookup finds when the gained properties stand in front.
  lemma {:induction false} LookupAdded(strings: bytes, offsets: Offsets, c: Context, added: seq<Property>, rest: seq<Token>, name: bytes)
    requires Names(strings, offsets) && AllGained(c, added)
    ensures Lookup(strings, PropTokens(offsets, added) + rest, name)
      == if GetProp(added, name).Some? then GetProp(added, name) else Lookup(strings, rest, name)
  {
    hide OffsetOf, Skips, StringAt, Names, Bytes.Ascii;
    var ts := PropTokens(offsets, added) + rest;
    if added == [] {
      assert ts == rest;
    } else {
      assert Gained(c, added[0]);
      LookupAdded(strings, offsets, c, added[1..], rest, name);
      OffsetNames(strings, offsets, added[0].name);
      assert ts[0] == NewProp(OffsetOf(offsets, added[0].name), added[0].value);
      assert ts[1..] == PropTokens(offsets, added[1..]) + rest;
    }
  }

  /// The gained properties are dropped by the next pass, which adds its own.
  lemma {:induction false} DropAdded(p: Platform, strings: bytes, offsets: Offsets, stack: seq<Context>,
                                     added: seq<Property>, rest: seq<Token>)
    requires Names(strings, offsets) && AllGained(Top(stack), added) && Fin !in rest
    ensures PatchFrom(p, strings, offsets, stack, PropTokens(offsets, added) + rest) == PatchFrom(p, strings, offsets, stack, rest)
  {
    hide OffsetOf, Skips, StringAt, Names, Bytes.Ascii, SeenAt, ContextOf, Additions;
    var ts := PropTokens(offsets, added) + rest;
    if added == [] {
      assert ts == rest;
    } else {
      assert Gained(Top(stack), added[0]);
      DropAdded(p, strings, offsets, stack, added[1..], rest);
      OffsetNames(strings, offsets, added[0].name);
      assert ts[0] == NewProp(OffsetOf(offsets, added[0].name), added[0].value);
      assert ts[1..] == PropTokens(offsets, added[1..]) + rest;
    }
  }

  /// The lookups of a second pass, in terms of those of the first.
  function SeenAgain(p: Platform, c: Context, seen: Seen): Seen
    requires c.kind == Cpu ==> FilteredDomains(seen.domains, seen.domainNames, p.providers).Ok?
  {
    if c.kind == Cpu then
      var d := FilteredDomains(seen.domains, seen.domainNames, p.providers).value;
      Seen(seen.compatible, Present(d.cells), Present(d.names), seen.reg)
    else seen
  }

  /// A second pass adds the same properties.
  lemma AdditionsAgain(p: Platform, c: Context, seen: Seen)
    requires Additions(p, c, seen).Ok?
    ensures Additions(p, c, SeenAgain(p, c, seen)) == Additions(p, c, seen)
  {
    if c.kind == Cpu {
      FilteredTwice(seen.domains, seen.domainNames, p.providers);
    }
    hide FilteredDomains, FirstCell, ReleaseAddr;
  }

  lemma FirstProps(x: seq<Property>, y: seq<Property>, z: seq<Property>, w: seq<Property>, name: bytes)
    ensures GetProp(x + y + z + w, name) ==
      if GetProp(x, name).Some? then GetProp(x, name)
      else if GetProp(y, name).Some? then GetProp(y, name)
      else if GetProp(z, name).Some? then GetProp(z, name)
      else GetProp(w, name)
  {
    hide GetProp;
    GetAppend(x + y + z, w, name);
    GetAppend(x + y, z, name);
    GetAppend(x, y, name);
  }

  lemma DomainNamesDiffer()
    ensures POWER_DOMAINS != POWER_DOMAIN_NAMES
    ensures forall n <- [ENABLE_METHOD, CPU_RELEASE_ADDR, STATUS] :: n != POWER_DOMAINS && n != POWER_DOMAIN_NAMES
  {
    FirstBytes();
    hide Bytes.Ascii;
  }

  /// The properties that `Additions` gives a CPU, in four pieces.
  lemma CpuPieces(p: Platform, c: Context, seen: Seen)
    returns (d: Domains, z: seq<Property>, w: seq<Property>)
    requires c.kind == Cpu && Additions(p, c, seen).Ok?
    ensures FilteredDomains(seen.domains, seen.domainNames, p.providers) == Ok(d)
    ensures Additions(p, c, seen).value ==
      (if d.cells != [] then [Property(POWER_DOMAINS, d.cells)] else [])
      + (if d.names != [] then [Property(POWER_DOMAIN_NAMES, d.names)] else []) + z + w
    ensures forall q <- z + w :: q.name == ENABLE_METHOD || q.name == CPU_RELEASE_ADDR || q.name == STATUS
  {
    hide FilteredDomains, FirstCell, ReleaseAddr, Bytes.Ascii, Bytes.Be64;
    d := FilteredDomains(seen.domains, seen.domainNames, p.providers).value;
    z := [Property(ENABLE_METHOD, SPIN_TABLE),
          Property(CPU_RELEASE_ADDR, Be64(ReleaseAddr(p.table, FirstCell(seen.reg).value)))];
    w := if c.disable then [Property(STATUS, DISABLED)] else [];
  }

  /// What the gained properties of a CPU say of its power domains.
  lemma AddedDomains(p: Platform, c: Context, seen: Seen)
    requires c.kind == Cpu && Additions(p, c, seen).Ok?
    ensures FilteredDomains(seen.domains, seen.domainNames, p.providers).Ok?
    ensures
      var added := Additions(p, c, seen).value;
      var d := FilteredDomains(seen.domains, seen.domainNames, p.providers).value;
      GetProp(added, POWER_DOMAINS) == Present(d.cells) && GetProp(added, POWER_DOMAIN_NAMES) == Present(d.names)
  {
    hide FilteredDomains, Additions, Bytes.Ascii, GetProp;
    var d, z, w := CpuPieces(p, c, seen);
    var x := if d.cells != [] then [Property(POWER_DOMAINS, d.cells)] else [];
    var y := if d.names != [] then [Property(POWER_DOMAIN_NAMES, d.names)] else [];
    DomainNamesDiffer();
    assert forall q: Property <- z + w :: q.name in [ENABLE_METHOD, CPU_RELEASE_ADDR, STATUS];
    FirstProps(x, y, z, w, POWER_DOMAINS);
    FirstProps(x, y, z, w, POWER_DOMAIN_NAMES);
    forall q <- z ensures q in z + w {}
    forall q <- w ensures q in z + w {}
    AllDiffer(z, POWER_DOMAINS);
    AllDiffer(z, POWER_DOMAIN_NAMES);
    AllDiffer(w, POWER_DOMAINS);
    AllDiffer(w, POWER_DOMAIN_NAMES);
    AllDiffer(x, POWER_DOMAIN_NAMES);
    AllDiffer(y, POWER_DOMAINS);
    GetOne(Property(POWER_DOMAINS, d.cells), POWER_DOMAINS);
    GetOne(Property(POWER_DOMAIN_NAMES, d.names), POWER_DOMAIN_NAMES);
    GetNone([], POWER_DOMAINS);
    GetNone([], POWER_DOMAIN_NAMES);
  }

  lemma AllDiffer(props: seq<Property>, name: bytes)
    ensures (forall q <- props :: q.name != name) ==> GetProp(props, name).None?
  {
    if forall q <- props :: q.name != name {
      GetAbsent(props, name);
    }
  }

  lemma UntouchedNotSkipped(c: Context, name: bytes)
    requires Untouched(name)
    ensures !Skips(c, name)
  {
    hide Bytes.Ascii;
  }

  lemma CpuSkipsDomains(c: Context)
    requires c.kind == Cpu
    ensures Skips(c, POWER_DOMAINS) && Skips(c, POWER_DOMAIN_NAMES)
  {
  }

  /// One lookup of the second pass.
  lemma LookupAgain(p: Platform, strings: bytes, more: bytes, offsets: Offsets, stack: seq<Context>, c: Context, seen: Seen,
                    ts: seq<Token>, name: bytes)
    requires Fin !in ts && Names(strings + more, offsets) && Additions(p, c, seen).Ok?
    requires PatchFrom(p, strings, offsets, stack + [c], ts).Ok?
    ensures
      var added, tail := Additions(p, c, seen).value, PatchFrom(p, strings, offsets, stack + [c], ts).value;
      Lookup(strings + more, PropTokens(offsets, added) + tail, name) ==
      if GetProp(added, name).Some? then GetProp(added, name)
      else if Skips(c, name) then None
      else Lookup(strings, ts, name)
  {
    hide PatchFrom, Additions, Skips, Lookup, GetProp, PropTokens, Names;
    var added, tail := Additions(p, c, seen).value, PatchFrom(p, strings, offsets, stack + [c], ts).value;
    AdditionsSkipped(p, c, seen);
    LookupAdded(strings + more, offsets, c, added, tail, name);
    LookupKept(p, strings, more, offsets, stack + [c], ts, name);
  }

  lemma AddedLacks(p: Platform, c: Context, seen: Seen, name: bytes)
    requires Additions(p, c, seen).Ok? && Untouched(name)
    ensures GetProp(Additions(p, c, seen).value, name).None?
  {
    hide Additions, GetProp, Skips, Bytes.Ascii;
    AdditionsSkipped(p, c, seen);
    GetAbsent(Additions(p, c, seen).value, name);
  }

  lemma SeenTwice(p: Platform, strings: bytes, more: bytes, offsets: Offsets, stack: seq<Context>, c: Context, ts: seq<Token>)
    requires Fin !in ts && Names(strings + more, offsets) && Additions(p, c, SeenAt(strings, ts)).Ok?
    requires PatchFrom(p, strings, offsets, stack + [c], ts).Ok?
    ensures
      var seen := SeenAt(strings, ts);
      var added, tail := Additions(p, c, seen).value, PatchFrom(p, strings, offsets, stack + [c], ts).value;
      var again := SeenAt(strings + more, PropTokens(offsets, added) + tail);
      && again.compatible == seen.compatible && again.reg == seen.reg
      && (c.kind == Cpu ==> again == SeenAgain(p, c, seen))
  {
    var seen := SeenAt(strings, ts);
    hide PatchFrom, Additions, Skips, Lookup, GetProp, PropTokens, Names, FilteredDomains, Bytes.Ascii, Untouched;
    NamesDiffer();
    AddedLacks(p, c, seen, COMPATIBLE);
    AddedLacks(p, c, seen, REG);
    UntouchedNotSkipped(c, COMPATIBLE);
    UntouchedNotSkipped(c, REG);
    LookupAgain(p, strings, more, offsets, stack, c, seen, ts, COMPATIBLE);
    LookupAgain(p, strings, more, offsets, stack, c, seen, ts, REG);
    if c.kind == Cpu {
      LookupAgain(p, strings, more, offsets, stack, c, seen, ts, POWER_DOMAINS);
      LookupAgain(p, strings, more, offsets, stack, c, seen, ts, POWER_DOMAIN_NAMES);
      AddedDomains(p, c, seen);
      CpuSkipsDomains(c);
      CpuAdditionsFilter(p, c, seen);
    }
  }

  lemma CpuAdditionsFilter(p: Platform, c: Context, seen: Seen)
    requires c.kind == Cpu && Additions(p, c, seen).Ok?
    ensures FilteredDomains(seen.domains, seen.domainNames, p.providers).Ok?
  {
  }

  /// The additions depend on the power domains of CPUs only.
  lemma SameAdditions(p: Platform, c: Context, seen: Seen, again: Seen)
    requires c.kind == Cpu ==> again == seen
    ensures Additions(p, c, again) == Additions(p, c, seen)
  {
  }

  lemma AgainHead(xs: seq<Token>, rest: seq<Token>)
    requires xs != []
    ensures (xs + rest)[0] == xs[0] && (xs + rest)[1..] == xs[1..] + rest
  {
  }

  /// A second pass over a whole stream gives the stream back.
  lemma {:induction false} PatchAgain(p: Platform, strings: bytes, more: bytes, offsets: Offsets, stack: seq<Context>, ts: seq<Token>)
    requires Fin !in ts && Names(strings + more, offsets) && PatchFrom(p, strings, offsets, stack, ts).Ok?
    ensures
      var out := PatchFrom(p, strings, offsets, stack, ts);
      PatchFrom(p, strings + more, offsets, stack, out.value) == out
    decreases |ts|
  {
    hide PatchFrom, Additions, Skips, Lookup, GetProp, PropTokens, Names, SeenAt, ContextOf, StringAt;
    var out := PatchFrom(p, strings, offsets, stack, ts).value;
    if ts == [] {
      PatchEnds(p, strings, offsets, stack);
      PatchEnds(p, strings + more, offsets, stack);
    } else {
      PatchStep(p, strings, offsets, stack, ts);
      var t, rest := ts[0], ts[1..];
      match t
      case Begin(name, _) =>
        var c := ContextOf(stack, name, SeenAt(strings, rest));
        PatchAgain(p, strings, more, offsets, stack + [c], rest);
        BeginAgain(p, strings, more, offsets, stack, ts);
      case End =>
        PatchAgain(p, strings, more, offsets, stack[..|stack| - 1], rest);
        AgainHead([End], PatchFrom(p, strings, offsets, stack[..|stack| - 1], rest).value);
        PatchStep(p, strings + more, offsets, stack, out);
      case Prop(nameoff, _, _) =>
        PatchAgain(p, strings, more, offsets, stack, rest);
        if !Skips(Top(stack), StringAt(strings, nameoff).value) {
          StringAtGrows(strings, more, nameoff);
          AgainHead([t], PatchFrom(p, strings, offsets, stack, rest).value);
          PatchStep(p, strings + more, offsets, stack, out);
        }
      case Nop =>
        PatchAgain(p, strings, more, offsets, stack, rest);
        AgainHead([Nop], PatchFrom(p, strings, offsets, stack, rest).value);
        PatchStep(p, strings + more, offsets, stack, out);
    }
  }

  lemma SameContext(stack: seq<Context>, name: bytes, seen: Seen, again: Seen)
    requires again.compatible == seen.compatible
    ensures ContextOf(stack, name, again) == ContextOf(stack, name, seen)
  {
  }

  lemma BeginAgain(p: Platform, strings: bytes, more: bytes, offsets: Offsets, stack: seq<Context>, ts: seq<Token>)
    requires ts != [] && ts[0].Begin? && Fin !in ts && Names(strings + more, offsets)
    requires PatchFrom(p, strings, offsets, stack, ts).Ok?
    requires
      var c := ContextOf(stack, ts[0].name, SeenAt(strings, ts[1..]));
      var tail := PatchFrom(p, strings, offsets, stack + [c], ts[1..]);
      tail.Ok? ==> PatchFrom(p, strings + more, offsets, stack + [c], tail.value) == tail
    ensures
      var out := PatchFrom(p, strings, offsets, stack, ts);
      PatchFrom(p, strings + more, offsets, stack, out.value) == out
  {
    hide PatchFrom, Additions, Skips, Lookup, GetProp, PropTokens, Names, SeenAt, ContextOf, StringAt, FilteredDomains;
    var out := PatchFrom(p, strings, offsets, stack, ts).value;
    PatchStep(p, strings, offsets, stack, ts);
    var t, rest := ts[0], ts[1..];
    var seen := SeenAt(strings, rest);
    var c := ContextOf(stack, t.name, seen);
    var added, tail := Additions(p, c, seen).value, PatchFrom(p, strings, offsets, stack + [c], rest).value;
    var gained := PropTokens(offsets, added);
    SeenTwice(p, strings, more, offsets, stack, c, rest);
    var again := SeenAt(strings + more, gained + tail);
    SameContext(stack, t.name, seen, again);
    SplitBegin(t, gained, tail);
    PatchStep(p, strings + more, offsets, stack, out);
    if c.kind == Cpu {
      CpuAdditionsFilter(p, c, seen);
    }
    AdditionsAgain(p, c, seen);
    SameAdditions(p, c, SeenAgain(p, c, seen), again);
    AdditionsSkipped(p, c, seen);
    assert Top(stack + [c]) == c;
    DropAdded(p, strings + more, offsets, stack + [c], added, tail);
  }

  lemma SplitBegin(t: Token, gained: seq<Token>, tail: seq<Token>)
    ensures ([t] + gained + tail)[0] == t && ([t] + gained + tail)[1..] == gained + tail
  {
  }
}
