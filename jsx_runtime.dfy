/**
 * The JSX factory (src/jsx-runtime.ts): `jsx` and `jsxs` build a node from a
 * tag and a raw property bag, or hand the bag to a function component.
 */
module JsxRuntime {
  import opened Types

  /** `JsxType`: a type name, the `Fragment` marker, or a function component. */
  datatype JsxType = Name(name: string) | FragmentTag | Fn(f: Bag -> Node)

  /** `rawProps ?? {}`: a missing bag is the empty bag. */
  function PropsOrEmpty(rawProps: Option<Bag>): (p: Bag)
    ensures rawProps.None? ==> p == map[]
    ensures rawProps.Some? ==> p == rawProps.value
  {
    if rawProps.Some? then rawProps.value else map[]
  }

  /** `normalizeChildren`: flattens a raw `children` value, dropping placeholders. */
  method NormalizeChildren(raw: Raw) returns (result: seq<Raw>)
    ensures result == Normalize(raw)
  {
    if IsHole(raw) {
      return [];
    }
    if raw.Arr? {
      result := [];
      var items := raw.items;
      for i := 0 to |items|
        invariant NormalizeItems(items) == result + NormalizeItems(items[i..])
      {
        assert NormalizeItems(items[i..]) == NormalizeOne(items[i]) + NormalizeItems(items[i + 1..]) by {
          assert items[i..][1..] == items[i + 1..];
        }
        var child := items[i];
        if IsHole(child) {
          continue;
        }
        if child.Arr? {
          var inner := NormalizeChildren(child);
          result := result + inner;
        } else {
          result := result + [child];
        }
      }
      assert items[|items|..] == [];
      return;
    }
    return [raw];
  }

  /** `extractProps`: copies every entry whose name is not in `RESERVED_PROPS`. */
  method ExtractProps(rawProps: Bag) returns (props: Bag)
    ensures props == StripReserved(rawProps)
  {
    props := map[];
    var keys := rawProps.Keys;
    while keys != {}
      invariant keys <= rawProps.Keys
      invariant props.Keys == (rawProps.Keys - keys) - Reserved
      invariant forall k :: k in props ==> props[k] == rawProps[k]
      decreases keys
    {
      var k :| k in keys;
      if k !in Reserved {
        props := props[k := rawProps[k]];
      }
      keys := keys - {k};
    }
  }

  /**
   * `createNode`: a function tag is called once with the whole, unfiltered
   * bag and its node is returned as it is; any other tag gets a node of its
   * own built from the bag.
   */
  function CreateNode(typ: JsxType, rawProps: Option<Bag>): (n: Node)
    ensures typ.Fn? ==> n == typ.f(PropsOrEmpty(rawProps))
    ensures typ.Name? ==> n.typ == TypeName(typ.name)
    ensures typ.FragmentTag? ==> n.typ == Fragment
    ensures !typ.Fn? ==> n.props.Keys == PropsOrEmpty(rawProps).Keys - Reserved
    ensures !typ.Fn? ==> forall k :: k in n.props ==> n.props[k] == PropsOrEmpty(rawProps)[k]
    ensures !typ.Fn? ==> n.children == Normalize(Field(PropsOrEmpty(rawProps), "children"))
    ensures !typ.Fn? ==> (n.key.Some? <==> !IsNullish(Field(PropsOrEmpty(rawProps), "key")))
    ensures !typ.Fn? && n.key.Some? ==> n.key.value == JsString(PropsOrEmpty(rawProps)["key"])
    ensures !typ.Fn? ==> n.visible == Field(PropsOrEmpty(rawProps), "visible")
    ensures !typ.Fn? ==> n.on == Field(PropsOrEmpty(rawProps), "on")
    ensures !typ.Fn? ==> n.repeat == Field(PropsOrEmpty(rawProps), "repeat")
    ensures !typ.Fn? ==> n.watch == Field(PropsOrEmpty(rawProps), "watch")
  {
    var p := PropsOrEmpty(rawProps);
    match typ
    case Fn(f) => f(p)
    case Name(name) => BuildNode(TypeName(name), p)
    case FragmentTag => BuildNode(Fragment, p)
  }

  /**
   * `jsx`: builds the node, then lets a third-argument key that is not
   * nullish overwrite the node's key with its string form.
   */
  method Jsx(typ: JsxType, props: Option<Bag>, key: Raw) returns (node: Node)
    ensures IsNullish(key) ==> node.key == CreateNode(typ, props).key
    ensures !IsNullish(key) ==> node.key == Some(JsString(key))
    ensures node.(key := None) == CreateNode(typ, props).(key := None)
  {
    node := CreateNode(typ, props);
    if !IsNullish(key) {
      node := node.(key := Some(JsString(key)));
    }
  }

  /** `jsxs`: the factory for several static children; it does what `jsx` does. */
  method Jsxs(typ: JsxType, props: Option<Bag>, key: Raw) returns (node: Node)
    ensures IsNullish(key) ==> node.key == CreateNode(typ, props).key
    ensures !IsNullish(key) ==> node.key == Some(JsString(key))
    ensures node.(key := None) == CreateNode(typ, props).(key := None)
  {
    node := CreateNode(typ, props);
    if !IsNullish(key) {
      node := node.(key := Some(JsString(key)));
    }
  }

  /** A missing bag gives a node with no props, no children and no metadata. */
  lemma NullPropsGiveBareNode(name: string)
    ensures CreateNode(Name(name), None)
         == Node(TypeName(name), map[], [], None, Undefined, Undefined, Undefined, Undefined)
  {
  }

  /**
   * Using `component(name)` as a tag builds the same node as using the name
   * itself: the two factories agree.
   */
  lemma ComponentTagMatchesNameTag(name: string, rawProps: Option<Bag>)
    ensures CreateNode(Fn(Component(name)), rawProps) == CreateNode(Name(name), rawProps)
  {
  }

  /** An explicit `key` prop never stays among the props. */
  lemma KeyPropLifted(typ: JsxType, p: Bag)
    requires !typ.Fn? && "key" in p && !IsNullish(p["key"])
    ensures "key" !in CreateNode(typ, Some(p)).props
    ensures CreateNode(typ, Some(p)).key == Some(JsString(p["key"]))
  {
  }
}
