/// Which power domains of a CPU `remove_psci_cpu_domains` of `src/kexec.rs` keeps, and under which names:
/// tuple by tuple, position by position.
module DomainMeaning {
  import opened Bytes
  import opened Handoff
  import opened Tree
  import opened Nodes
  import opened Psci

  /// Pieces one after the other.
  function Flat(pieces: seq<bytes>): bytes {
    if pieces == [] then [] else pieces[0] + Flat(pieces[1..])
  }

  /// How many are kept before position `i`, which is where the `i`th goes.
  function Rank(keep: seq<bool>, i: nat): nat
    requires i <= |keep|
  {
    if i == 0 then 0 else Rank(keep, i - 1) + if keep[i - 1] then 1 else 0
  }

  /// `now` are the kept pieces of `was`, in their order.
  ghost predicate KeptInOrder(now: seq<bytes>, was: seq<bytes>, keep: seq<bool>) {
    && |keep| == |was| && |now| == Rank(keep, |keep|)
    && forall i :: 0 <= i < |was| && keep[i] ==> Rank(keep, i) < |now| && now[Rank(keep, i)] == was[i]
  }

  /// A tuple is the phandle of a provider and as many cells as the provider says; those of PSCI go.
  ghost predicate IsTuple(t: bytes, keep: bool, providers: seq<Provider>) {
    && |t| >= 4 && exists p <- providers ::
         p.phandle == De32(t[..4]) && |t| == 4 + 4 * p.cells && keep == !p.psci
         && FindProvider(providers, p.phandle) == Some(p)
  }

  ghost predicate AreTuples(tuples: seq<bytes>, keep: seq<bool>, providers: seq<Provider>) {
    |keep| == |tuples| && forall i :: 0 <= i < |tuples| ==> IsTuple(tuples[i], keep[i], providers)
  }

  lemma {:induction false} RankCons(k: bool, keep: seq<bool>, i: nat)
    requires i <= |keep|
    ensures Rank([k] + keep, i + 1) == (if k then 1 else 0) + Rank(keep, i)
    decreases i
  {
    if i > 0 {
      RankCons(k, keep, i - 1);
      assert ([k] + keep)[i] == keep[i - 1];
    } else {
      assert Rank([k] + keep, 0) == 0;
    }
  }

  lemma KeptCons(head: bytes, k: bool, now: seq<bytes>, was: seq<bytes>, keep: seq<bool>)
    requires KeptInOrder(now, was, keep)
    ensures KeptInOrder((if k then [head] else []) + now, [head] + was, [k] + keep)
  {
    var now', was', keep' := (if k then [head] else []) + now, [head] + was, [k] + keep;
    RankCons(k, keep, |keep|);
    forall i | 0 <= i < |was'| && keep'[i] ensures Rank(keep', i) < |now'| && now'[Rank(keep', i)] == was'[i] {
      if i > 0 {
        RankCons(k, keep, i - 1);
        assert keep[i - 1] && was'[i] == was[i - 1];
      }
    }
  }

  /// The other way round: what is kept of the rest.
  lemma KeptRest(now: seq<bytes>, was: seq<bytes>, keep: seq<bool>) returns (rest: seq<bytes>)
    requires KeptInOrder(now, was, keep) && was != []
    ensures KeptInOrder(rest, was[1..], keep[1..]) && now == (if keep[0] then [was[0]] else []) + rest
  {
    var n := if keep[0] then 1 else 0;
    assert keep == [keep[0]] + keep[1..];
    RankCons(keep[0], keep[1..], |keep| - 1);
    assert Rank(keep, 0) == 0;
    rest := now[n..];
    forall i | 0 <= i < |was| - 1 && keep[1..][i] ensures Rank(keep[1..], i) < |rest| && rest[Rank(keep[1..], i)] == was[1..][i] {
      RankCons(keep[0], keep[1..], i);
      assert keep[i + 1];
    }
  }

  lemma NoneKept()
    ensures KeptInOrder([], [], [])
  {
  }

  lemma FlatCons(head: bytes, rest: seq<bytes>)
    ensures Flat([head] + rest) == head + Flat(rest)
  {
    assert ([head] + rest)[1..] == rest;
  }

  /// The pieces of the tuples, which are kept, and what is left of them.
  lemma {:induction false} TuplesMeaning(domains: bytes, providers: seq<Provider>)
    returns (was: seq<bytes>, keep: seq<bool>, now: seq<bytes>)
    requires Tuples(domains, providers).Ok?
    ensures Flat(was) == domains && AreTuples(was, keep, providers)
    ensures KeptInOrder(now, was, keep) && Flat(now) == Retained(Tuples(domains, providers).value)
    ensures |was| == |keep| == |Tuples(domains, providers).value|
    ensures forall i :: 0 <= i < |was| ==> Tuples(domains, providers).value[i].keep == keep[i]
    decreases |domains|
  {
    hide *;
    NoneKept();
    FlatNil();
    NoTuples(providers);
    if domains == [] {
      was, keep, now := [], [], [];
    } else {
      TupleStep(domains, providers);
      var p := FindProvider(providers, De32(domains[..4])).value;
      var n := (p.cells + 1) * 4;
      var was', keep', now' := TuplesMeaning(domains[n..], providers);
      var head, rest := domains[..n], Tuples(domains[n..], providers).value;
      was, keep, now := [head] + was', [!p.psci] + keep', (if !p.psci then [head] else []) + now';
      KeptCons(head, !p.psci, now', was', keep');
      FlatCons(head, was');
      FlatCons(head, now');
      RetainedCons(Tuple(head, !p.psci), rest);
      EmptyConcat(now');
      TuplesCons(head, !p.psci, was', keep', providers);
      assert domains == head + domains[n..];
    }
  }

  lemma NoTuples(providers: seq<Provider>)
    ensures AreTuples([], [], providers) && Tuples([], providers) == Ok([]) && Retained([]) == []
  {
  }

  lemma TuplesCons(head: bytes, k: bool, was: seq<bytes>, keep: seq<bool>, providers: seq<Provider>)
    requires AreTuples(was, keep, providers) && IsTuple(head, k, providers)
    ensures AreTuples([head] + was, [k] + keep, providers)
  {
    hide IsTuple;
  }

  lemma TupleStep(domains: bytes, providers: seq<Provider>)
    requires domains != [] && Tuples(domains, providers).Ok?
    ensures |domains| >= 4 && FindProvider(providers, De32(domains[..4])).Some?
    ensures
      var p := FindProvider(providers, De32(domains[..4])).value;
      var n := (p.cells + 1) * 4;
      && n <= |domains| && Tuples(domains[n..], providers).Ok?
      && Tuples(domains, providers).value == [Tuple(domains[..n], !p.psci)] + Tuples(domains[n..], providers).value
      && IsTuple(domains[..n], !p.psci, providers)
  {
    hide Bytes.De32;
    var n := (FindProvider(providers, De32(domains[..4])).value.cells + 1) * 4;
    assert domains[..n][..4] == domains[..4];
  }

  lemma FlatNil()
    ensures Flat([]) == []
  {
  }

  lemma RetainedCons(t: Tuple, rest: seq<Tuple>)
    ensures Retained([t] + rest) == (if t.keep then t.bytes + Retained(rest) else Retained(rest))
  {
    assert ([t] + rest)[1..] == rest;
  }

  // The names.

  /// Each name with its NUL.
  function WithNuls(names: seq<bytes>): seq<bytes> { seq(|names|, i requires 0 <= i < |names| => names[i] + [0]) }

  lemma {:induction false} JoinedIsFlat(names: seq<bytes>)
    ensures JoinNames(names) == Flat(WithNuls(names))
  {
    if names != [] {
      JoinedIsFlat(names[1..]);
      assert WithNuls(names)[1..] == WithNuls(names[1..]);
    }
  }

  lemma {:induction false} KeptNamesMeaning(names: seq<bytes>, tuples: seq<Tuple>, keep: seq<bool>)
    requires |names| == |tuples| == |keep| && forall i :: 0 <= i < |tuples| ==> tuples[i].keep == keep[i]
    ensures KeptInOrder(KeptNames(names, tuples), names, keep)
  {
    hide KeptInOrder;
    if names == [] {
      NoneKept();
    } else {
      KeptNamesMeaning(names[1..], tuples[1..], keep[1..]);
      var rest := KeptNames(names[1..], tuples[1..]);
      KeptCons(names[0], keep[0], rest, names[1..], keep[1..]);
      assert [names[0]] + names[1..] == names && [keep[0]] + keep[1..] == keep && [] + rest == rest;
    }
  }

  // A whole CPU.

  /// The value lists these names.
  ghost predicate Lists(value: bytes, names: seq<bytes>) {
    value != [] && value == Flat(WithNuls(names)) && forall n <- names :: NulFree(n)
  }

  /// What is there for the pieces that are left: nothing when none is.
  ghost predicate ValueIs(value: Option<bytes>, left: seq<bytes>) {
    if left == [] then value.None? else value == Some(Flat(left))
  }

  /// The two properties before and after: the tuples outside PSCI stay, in order, and each keeps its name.
  ghost predicate DomainsLeft(cpu: Node, cpu': Node, providers: seq<Provider>,
                              was: seq<bytes>, keep: seq<bool>, now: seq<bytes>, names: seq<bytes>, names': seq<bytes>) {
    && var domains, old' := Get(cpu, Ascii("power-domains")), Get(cpu, Ascii("power-domain-names"));
    && domains.Some? && Flat(was) == domains.value && AreTuples(was, keep, providers)
    && KeptInOrder(now, was, keep) && ValueIs(Get(cpu', Ascii("power-domains")), now)
    && (old'.None? ==> Get(cpu', Ascii("power-domain-names")).None?)
    && (old'.Some? ==>
          && |names| == |was| && Lists(old'.value, names) && KeptInOrder(names', names, keep)
          && ValueIs(Get(cpu', Ascii("power-domain-names")), WithNuls(names')))
  }

  lemma FlatEmpty(pieces: seq<bytes>)
    requires forall p <- pieces :: p != []
    ensures Flat(pieces) == [] <==> pieces == []
  {
    if pieces != [] {
      assert pieces[0] in pieces;
    }
  }

  lemma {:induction false} RankOf(keep: seq<bool>, n: nat, r: nat) returns (i: nat)
    requires n <= |keep| && r < Rank(keep, n)
    ensures i < n && keep[i] && Rank(keep, i) == r
    decreases n
  {
    if r == Rank(keep, n - 1) {
      i := n - 1;
    } else {
      i := RankOf(keep, n - 1, r);
    }
  }

  /// What is left was there.
  lemma LeftWas(now: seq<bytes>, was: seq<bytes>, keep: seq<bool>)
    requires KeptInOrder(now, was, keep)
    ensures forall p <- now :: p in was
  {
    forall p <- now ensures p in was {
      var r :| 0 <= r < |now| && now[r] == p;
      var i := RankOf(keep, |keep|, r);
      assert was[i] == p;
    }
  }

  lemma SetDomainsKeeps(cpu: Node, retained: bytes, names: Option<bytes>)
    ensures SetDomains(cpu, retained, names).children == cpu.children && SetDomains(cpu, retained, names).name == cpu.name
  {
  }

  lemma NamesMeaning(value: bytes, tuples: seq<Tuple>, keep: seq<bool>) returns (names: seq<bytes>, names': seq<bytes>)
    requires RetainedNames(Some(value), tuples).Ok? && |keep| == |tuples|
    requires forall i :: 0 <= i < |tuples| ==> tuples[i].keep == keep[i]
    ensures |names| == |tuples| && Lists(value, names) && KeptInOrder(names', names, keep)
    ensures RetainedNames(Some(value), tuples) == Ok(Some(Flat(WithNuls(names'))))
  {
    var body := value[..|value| - 1];
    names, names' := Items(body), KeptNames(Items(body), tuples);
    hide Items, KeptNames, JoinNames, Flat, KeptInOrder;
    ItemsAre(body);
    ItemsNulFree(body);
    JoinedIsFlat(names);
    JoinedIsFlat(names');
    KeptNamesMeaning(names, tuples, keep);
    assert value == body + [0];
  }

  /// `remove_psci_cpu_domains` on a CPU that has power domains.
  lemma RemovedMeaning(cpu: Node, providers: seq<Provider>)
    returns (was: seq<bytes>, keep: seq<bool>, now: seq<bytes>, names: seq<bytes>, names': seq<bytes>)
    requires RemoveDomains(cpu, providers).Ok? && Get(cpu, Ascii("power-domains")).Some?
    ensures DomainsLeft(cpu, RemoveDomains(cpu, providers).value, providers, was, keep, now, names, names')
    ensures
      var cpu' := RemoveDomains(cpu, providers).value;
      && cpu'.name == cpu.name && cpu'.children == cpu.children
      && forall name: bytes :: name != Ascii("power-domains") && name != Ascii("power-domain-names") ==> Get(cpu', name) == Get(cpu, name)
  {
    hide Tuples, RetainedNames, SetDomains, GetProp, Flat, KeptInOrder, AreTuples, Rank, Bytes.Ascii, Lists, WithNuls, Retained;
    DomainNamesDiffer();
    var domains, old' := Get(cpu, PROP_POWER_DOMAINS).value, Get(cpu, PROP_POWER_DOMAIN_NAMES);
    var tuples := Tuples(domains, providers).value;
    was, keep, now := TuplesMeaning(domains, providers);
    names, names' := [], [];
    if old'.Some? {
      names, names' := NamesMeaning(old'.value, tuples, keep);
    } else {
      NoNames(tuples);
    }
    var retained, kept := Retained(tuples), RetainedNames(old', tuples).value;
    SetDomainsKeeps(cpu, retained, kept);
    forall name: bytes {
      SetDomainsGet(cpu, retained, kept, name);
    }
    assert Flat(now) == [] <==> now == [] by {
      LeftWas(now, was, keep);
      PiecesFilled(was, keep, providers);
      FlatEmpty(now);
    }
    assert |names'| == |now| || old'.None? by { SameCount(now, was, names', names, keep); }
    NulsCount(names');
  }

  lemma NoNames(tuples: seq<Tuple>)
    ensures RetainedNames(None, tuples) == Ok(None)
  {
  }

  lemma PiecesFilled(was: seq<bytes>, keep: seq<bool>, providers: seq<Provider>)
    requires AreTuples(was, keep, providers)
    ensures forall p <- was :: p != []
  {
    forall p <- was ensures p != [] {
      var i :| 0 <= i < |was| && was[i] == p;
      assert IsTuple(was[i], keep[i], providers);
    }
  }

  lemma SameCount(now: seq<bytes>, was: seq<bytes>, names': seq<bytes>, names: seq<bytes>, keep: seq<bool>)
    requires KeptInOrder(now, was, keep)
    ensures KeptInOrder(names', names, keep) ==> |names'| == |now|
  {
  }

  lemma NulsCount(names: seq<bytes>)
    ensures |WithNuls(names)| == |names|
  {
  }
}
