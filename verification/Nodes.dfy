/// The editing operations of `ContractNode` in `src/kexec.rs`: `set`, `remove`, `enabled`,
/// `compatible`, and the laws they obey.
module Nodes {
  import opened Bytes
  import opened Tree
  import opened Dtb
  import opened Reserved

  function SetProp(props: seq<Property>, name: bytes, value: bytes): seq<Property> {
    if props == [] then [Property(name, value)]
    else if props[0].name == name then [Property(name, value)] + props[1..]
    else [props[0]] + SetProp(props[1..], name, value)
  }

  function RemoveProp(props: seq<Property>, name: bytes): seq<Property> {
    if props == [] then []
    else (if props[0].name == name then [] else [props[0]]) + RemoveProp(props[1..], name)
  }

  function Set(node: Node, name: bytes, value: bytes): Node { node.(props := SetProp(node.props, name, value)) }

  function Remove(node: Node, name: bytes): Node { node.(props := RemoveProp(node.props, name)) }

  lemma GetCons(p: Property, rest: seq<Property>, name: bytes)
    ensures GetProp([p] + rest, name) == if p.name == name then Some(p.value) else GetProp(rest, name)
  {
    assert ([p] + rest)[1..] == rest;
  }

  lemma {:induction false} GetSetProp(props: seq<Property>, name: bytes, value: bytes, other: bytes)
    ensures GetProp(SetProp(props, name, value), other) == if other == name then Some(value) else GetProp(props, other)
  {
    if props == [] {
      GetCons(Property(name, value), [], other);
      assert [Property(name, value)] + [] == [Property(name, value)];
    } else if props[0].name == name {
      GetCons(Property(name, value), props[1..], other);
    } else {
      GetSetProp(props[1..], name, value, other);
      GetCons(props[0], SetProp(props[1..], name, value), other);
    }
  }

  lemma {:induction false} GetRemoveProp(props: seq<Property>, name: bytes, other: bytes)
    ensures GetProp(RemoveProp(props, name), other) == if other == name then None else GetProp(props, other)
  {
    if props != [] {
      GetRemoveProp(props[1..], name, other);
      if props[0].name == name {
        assert RemoveProp(props, name) == RemoveProp(props[1..], name);
      } else {
        GetCons(props[0], RemoveProp(props[1..], name), other);
      }
    }
  }

  lemma {:induction false} SetSameProp(props: seq<Property>, name: bytes, value: bytes)
    requires GetProp(props, name) == Some(value)
    ensures SetProp(props, name, value) == props
  {
    if props[0].name == name {
      assert props[0] == Property(name, value);
      assert [props[0]] + props[1..] == props;
    } else {
      SetSameProp(props[1..], name, value);
    }
  }

  lemma {:induction false} RemoveAbsentProp(props: seq<Property>, name: bytes)
    requires GetProp(props, name).None?
    ensures RemoveProp(props, name) == props
  {
    if props != [] {
      RemoveAbsentProp(props[1..], name);
    }
  }

  ghost predicate GoodProps(props: seq<Property>) { UniqueProps(props) && PrintableProps(props) }

  lemma UniqueConsProp(p: Property, rest: seq<Property>)
    requires UniqueProps(rest) && GetProp(rest, p.name).None?
    ensures UniqueProps([p] + rest)
  {
    GetNone(rest, p.name);
  }

  lemma GoodTail(props: seq<Property>)
    requires props != [] && GoodProps(props)
    ensures GoodProps(props[1..]) && GetProp(props[1..], props[0].name).None?
    ensures NulFree(props[0].name) && |props[0].value| < U32_LIMIT
  {
    UniqueTail(props);
    assert props[0] in props;
  }

  lemma {:induction false} SetPropGood(props: seq<Property>, name: bytes, value: bytes)
    requires GoodProps(props) && NulFree(name) && |value| < U32_LIMIT
    ensures GoodProps(SetProp(props, name, value))
  {
    if props != [] {
      GoodTail(props);
      if props[0].name == name {
        UniqueConsProp(Property(name, value), props[1..]);
      } else {
        SetPropGood(props[1..], name, value);
        GetSetProp(props[1..], name, value, props[0].name);
        UniqueConsProp(props[0], SetProp(props[1..], name, value));
      }
    }
  }

  lemma {:induction false} RemovePropGood(props: seq<Property>, name: bytes)
    requires GoodProps(props)
    ensures GoodProps(RemoveProp(props, name))
  {
    if props != [] {
      GoodTail(props);
      RemovePropGood(props[1..], name);
      if props[0].name == name {
        assert RemoveProp(props, name) == RemoveProp(props[1..], name);
      } else {
        GetRemoveProp(props[1..], name, props[0].name);
        UniqueConsProp(props[0], RemoveProp(props[1..], name));
      }
    }
  }

  // Lists of NUL-separated items.

  /// `value.split(|byte| *byte == 0)`.
  function Items(value: bytes): (items: seq<bytes>)
    ensures items != []
  {
    if value == [] then [[]]
    else
      var rest := Items(value[1..]);
      if value[0] == 0 then [[]] + rest else [[value[0]] + rest[0]] + rest[1..]
  }

  predicate HasItem(value: Option<bytes>, item: bytes) { value.Some? && item in Items(value.value) }

  predicate HasItemPrefix(value: Option<bytes>, prefix: bytes) {
    value.Some? && exists item <- Items(value.value) :: prefix <= item
  }

  const PROP_COMPATIBLE: bytes := Ascii("compatible")

  /// `ContractNode::compatible`.
  predicate Compatible(node: Node, item: bytes) { HasItem(Get(node, PROP_COMPATIBLE), item) }

  /// Each name followed by a NUL.
  function JoinNames(names: seq<bytes>): bytes {
    if names == [] then [] else names[0] + [0] + JoinNames(names[1..])
  }

  lemma {:induction false} ItemsConcat(name: bytes, rest: bytes)
    requires NulFree(name)
    ensures Items(name + [0] + rest) == [name] + Items(rest)
  {
    var value := name + [0] + rest;
    if name == [] {
      assert value == [0] + rest && value[1..] == rest;
    } else {
      assert value[1..] == name[1..] + [0] + rest;
      ItemsConcat(name[1..], rest);
      assert [value[0]] + name[1..] == name;
      assert ([name[1..]] + Items(rest))[1..] == Items(rest);
    }
  }

  lemma {:induction false} ItemsOne(name: bytes)
    requires NulFree(name)
    ensures Items(name) == [name]
  {
    if name != [] {
      ItemsOne(name[1..]);
      assert [name[0]] + name[1..] == name;
    }
  }

  /// Splitting a list without its last NUL gives back its names.
  lemma {:induction false} ItemsJoined(names: seq<bytes>)
    requires names != [] && forall n <- names :: NulFree(n)
    ensures
      var joined := JoinNames(names);
      joined != [] && joined[|joined| - 1] == 0 && Items(joined[..|joined| - 1]) == names
  {
    var joined, rest := JoinNames(names), JoinNames(names[1..]);
    if |names| == 1 {
      assert joined == names[0] + [0] + [] && joined[..|joined| - 1] == names[0];
      ItemsOne(names[0]);
    } else {
      ItemsJoined(names[1..]);
      assert joined[..|joined| - 1] == names[0] + [0] + rest[..|rest| - 1];
      ItemsConcat(names[0], rest[..|rest| - 1]);
      assert [names[0]] + names[1..] == names;
    }
  }

  lemma {:induction false} ItemsNulFree(value: bytes)
    ensures forall n <- Items(value) :: NulFree(n)
  {
    if value != [] {
      ItemsNulFree(value[1..]);
      var rest := Items(value[1..]);
      assert NulFree(rest[0]);
    }
  }

  lemma {:induction false} ItemsAre(value: bytes)
    ensures JoinNames(Items(value)) == value + [0]
  {
    if value == [] {
      assert JoinNames([[]]) == [] + [0] + JoinNames([]);
    } else {
      ItemsAre(value[1..]);
      var rest := Items(value[1..]);
      if value[0] == 0 {
        assert ([[]] + rest)[1..] == rest;
        assert JoinNames(Items(value)) == [0] + JoinNames(rest);
      } else {
        assert Items(value)[1..] == rest[1..];
        assert JoinNames(rest) == rest[0] + [0] + JoinNames(rest[1..]);
        assert JoinNames(Items(value)) == [value[0]] + JoinNames(rest);
      }
      assert [value[0]] + (value[1..] + [0]) == value + [0];
    }
  }

  // Children by name.

  function FindChild(nodes: seq<Node>, name: bytes): Option<Node> {
    if nodes == [] then None else if nodes[0].name == name then Some(nodes[0]) else FindChild(nodes[1..], name)
  }

  lemma {:induction false} FindIndex(nodes: seq<Node>, name: bytes)
    ensures
      var i := ChildIndex(nodes, name);
      FindChild(nodes, name) == if i.None? then None else Some(nodes[i.value])
    decreases |nodes|
  {
    if nodes != [] {
      FindIndex(nodes[1..], name);
    }
  }

  lemma ChildIsFound(node: Node, name: bytes)
    ensures Child(node, name) == FindChild(node.children, name)
  {
    FindIndex(node.children, name);
  }

  lemma {:induction false} FindNone(nodes: seq<Node>, name: bytes)
    requires forall n <- nodes :: n.name != name
    ensures FindChild(nodes, name).None?
    decreases |nodes|
  {
    if nodes != [] {
      FindNone(nodes[1..], name);
    }
  }
}
