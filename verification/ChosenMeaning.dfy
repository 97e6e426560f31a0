/// What `patch_chosen` of `src/kexec.rs` leaves in the devicetree, property by property.
module ChosenMeaning {
  import opened Bytes
  import opened Tree
  import opened Dtb
  import opened Contract
  import opened Nodes
  import opened Paths
  import opened Tokens
  import opened FormatMeaning
  import opened Chosen

  /// The properties of /chosen that the loader owns.
  predicate Owned(name: bytes) {
    || name == Ascii("bootargs") || name == Ascii("linux,initrd-start") || name == Ascii("linux,initrd-end")
    || name == Ascii("linux,booted-from-kexec")
  }

  /// /chosen of the patched tree, given /chosen of the tree, if there was one.
  ghost predicate ChosenIs(now: Node, was: Option<Node>, cmdline: bytes, initrd: Option<Initrd>) {
    && now.name == Ascii("chosen") && now.children == (if was.Some? then was.value.children else [])
    && Get(now, Ascii("bootargs")) == (if cmdline == [] then None else Some(cmdline + [0]))
    && Get(now, Ascii("linux,initrd-start")) == (if initrd.None? then None else Some(Be64(initrd.value.start)))
    && Get(now, Ascii("linux,initrd-end")) == (if initrd.None? then None else Some(Be64(initrd.value.end)))
    && Get(now, Ascii("linux,booted-from-kexec")) == Some([])
    && forall name: bytes :: !Owned(name) ==> Get(now, name) == if was.Some? then Get(was.value, name) else None
  }

  /// Only /chosen differs: it is where it was, or the last child when there was none.
  ghost predicate OnlyChosenChanges(now: Node, was: Node) {
    && now.name == was.name && now.props == was.props
    && ChildNames(now) == ChildNames(was) + (if Child(was, Ascii("chosen")).Some? then [] else [Ascii("chosen")])
    && forall i :: 0 <= i < |was.children| && was.children[i].name != Ascii("chosen") ==> now.children[i] == was.children[i]
  }

  lemma FourNames()
    ensures |Ascii("bootargs")| == 8 && |Ascii("linux,initrd-start")| == 18 && |Ascii("linux,initrd-end")| == 16
    ensures |Ascii("linux,booted-from-kexec")| == 23
  {
  }

  lemma PropertiesMeaning(cmdline: bytes, initrd: Option<Initrd>, name: bytes)
    ensures GetProp(ChosenProperties(cmdline, initrd), name) ==
      if name == Ascii("bootargs") then (if cmdline == [] then None else Some(cmdline + [0]))
      else if name == Ascii("linux,initrd-start") then (if initrd.None? then None else Some(Be64(initrd.value.start)))
      else if name == Ascii("linux,initrd-end") then (if initrd.None? then None else Some(Be64(initrd.value.end)))
      else if name == Ascii("linux,booted-from-kexec") then Some([])
      else None
  {
    FourNames();
    hide Bytes.Ascii, Bytes.Be64;
    var a := if cmdline != [] then [Property(Ascii("bootargs"), cmdline + [0])] else [];
    var b := if initrd.None? then []
             else [Property(Ascii("linux,initrd-start"), Be64(initrd.value.start)), Property(Ascii("linux,initrd-end"), Be64(initrd.value.end))];
    var c := [Property(Ascii("linux,booted-from-kexec"), [])];
    assert ChosenProperties(cmdline, initrd) == a + b + c;
    GetAppend(a + b, c, name);
    GetAppend(a, b, name);
    if cmdline != [] {
      GetOne(a[0], name);
    }
    if initrd.Some? {
      assert b == [b[0]] + [b[1]];
      GetCons(b[0], [b[1]], name);
      GetOne(b[1], name);
    }
    GetOne(c[0], name);
  }

  lemma {:induction false} UnmanagedGet(props: seq<Property>, name: bytes)
    ensures GetProp(Unmanaged(props), name) == if Owned(name) then None else GetProp(props, name)
  {
    hide Bytes.Ascii;
    if props != [] {
      UnmanagedGet(props[1..], name);
      EmptyConcat(Unmanaged(props[1..]));
      GetCons(props[0], Unmanaged(props[1..]), name);
    }
  }

  /// The rewritten tree has the properties that the loader owns in /chosen, and everything else as it was.
  lemma PatchedTreeMeaning(t: Node, cmdline: bytes, initrd: Option<Initrd>)
    requires UniqueChildren(t.children)
    ensures
      var t' := PatchTree(t, ChosenProperties(cmdline, initrd));
      && OnlyChosenChanges(t', t)
      && Child(t', Ascii("chosen")).Some?
      && ChosenIs(Child(t', Ascii("chosen")).value, Child(t, Ascii("chosen")), cmdline, initrd)
  {
    hide Bytes.Ascii, Bytes.Be64, ChosenProperties, Unmanaged, GetProp;
    var props := ChosenProperties(cmdline, initrd);
    var t', i := PatchTree(t, props), ChildIndex(t.children, CHOSEN);
    var now := if i.None? then Node(CHOSEN, props, []) else PatchChosenNode(t.children[i.value], props);
    var k := if i.None? then |t.children| else i.value;
    assert t'.children[k] == now;
    assert forall j :: 0 <= j < k ==> t'.children[j].name != CHOSEN;
    assert Child(t', CHOSEN) == Some(now);
    forall name: bytes ensures Get(now, name) ==
      if GetProp(props, name).Some? then GetProp(props, name)
      else if i.None? || Owned(name) then None else Get(t.children[i.value], name)
    {
      if i.Some? {
        GetAppend(props, Unmanaged(t.children[i.value].props), name);
        UnmanagedGet(t.children[i.value].props, name);
      }
    }
    forall name: bytes ensures !Owned(name) ==> GetProp(props, name).None? {
      PropertiesMeaning(cmdline, initrd, name);
    }
    FourProperties(cmdline, initrd);
  }

  lemma FourProperties(cmdline: bytes, initrd: Option<Initrd>)
    ensures
      var p := ChosenProperties(cmdline, initrd);
      && GetProp(p, Ascii("bootargs")) == (if cmdline == [] then None else Some(cmdline + [0]))
      && GetProp(p, Ascii("linux,initrd-start")) == (if initrd.None? then None else Some(Be64(initrd.value.start)))
      && GetProp(p, Ascii("linux,initrd-end")) == (if initrd.None? then None else Some(Be64(initrd.value.end)))
      && GetProp(p, Ascii("linux,booted-from-kexec")) == Some([])
  {
    FourNames();
    hide Bytes.Ascii, Bytes.Be64, ChosenProperties, GetProp;
    PropertiesMeaning(cmdline, initrd, Ascii("bootargs"));
    PropertiesMeaning(cmdline, initrd, Ascii("linux,initrd-start"));
    PropertiesMeaning(cmdline, initrd, Ascii("linux,initrd-end"));
    PropertiesMeaning(cmdline, initrd, Ascii("linux,booted-from-kexec"));
  }

  lemma PatchedHeader(dtb: bytes, cmdline: bytes, initrd: Option<Initrd>)
    requires |cmdline| + 1 < U32_LIMIT && PatchedBlob(dtb, cmdline, initrd).Ok?
    ensures HeaderKept(PatchedBlob(dtb, cmdline, initrd).value, dtb)
  {
    hide ParseHeader, ReserveMap, BuildDtb, PatchTokens, TokensFrom, ChosenProps, ChosenStrings, HeaderKept;
    var (strings, offsets) := ChosenStrings(StringsBlock(dtb).value).value;
    var structure, props := StructBlock(dtb).value, ChosenProps(offsets, cmdline, initrd);
    var tokens := PatchedFrom(structure, 0, props, strings, PATCH_START).value;
    ChosenPropsWf(offsets, cmdline, initrd);
    TokensAreEncoded(structure, 0);
    PatchTokensWf(props, strings, PATCH_START, TokensFrom(structure, 0).value);
    BuiltHeader(dtb, ReserveMap(dtb).value, EncAll(tokens) + Enc(Fin), strings);
  }

  /// The patched blob parses to a tree that differs in /chosen only, and there as the loader wants it.
  lemma PatchedBlobMeaning(dtb: bytes, cmdline: bytes, initrd: Option<Initrd>)
    requires |cmdline| + 1 < U32_LIMIT && ContractTree(dtb).Ok? && PatchedBlob(dtb, cmdline, initrd).Ok?
    ensures
      var t, out := ContractTree(dtb).value, ContractTree(PatchedBlob(dtb, cmdline, initrd).value);
      && out.Ok? && OnlyChosenChanges(out.value, t) && Child(out.value, Ascii("chosen")).Some?
      && ChosenIs(Child(out.value, Ascii("chosen")).value, Child(t, Ascii("chosen")), cmdline, initrd)
    ensures HeaderKept(PatchedBlob(dtb, cmdline, initrd).value, dtb)
  {
    PatchedHeader(dtb, cmdline, initrd);
    ParsedWf(dtb);
    assert UniqueChildren(ContractTree(dtb).value.children) by { hide ContractTree, UniqueChildren; }
    hide *;
    PatchChosenMeaning(dtb, cmdline, initrd);
    PatchedTreeMeaning(ContractTree(dtb).value, cmdline, initrd);
  }
}
