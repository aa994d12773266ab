/**
 * The intermediate node tree and the JavaScript values it is built from
 * (src/types.ts).
 *
 * JavaScript's `unknown` is modelled by `Raw`, a closed sum of the kinds of
 * value the compiler tells apart: the two nullish values, booleans, numbers,
 * strings, arrays, objects carrying the node brand, and every other object
 * (a visibility condition, an action binding, a plain object that merely
 * looks like a node), which the compiler never looks inside.
 */
module Types {
  import opened Text

  datatype Option<+T> = None | Some(value: T)

  datatype Raw =
    | Undefined
    | Null
    | Bool(b: bool)
    | Num(n: int)
    | Str(s: string)
    | Obj(id: nat)
    | Arr(items: seq<Raw>)
    | NodeV(node: Node)

  /** A property bag: `Record<string, unknown>`. */
  type Bag = map<string, Raw>

  /** A node's `type`: a component type name, or the `FRAGMENT` marker. */
  datatype NodeType = TypeName(name: string) | Fragment

  /**
   * `JfxNode`. The brand `$$typeof` is not a field: a value is a node exactly
   * when it is a `NodeV`. `children` holds whatever the children normaliser
   * let through; the flattener later drops the entries that are not nodes.
   * `visible`, `on`, `repeat` and `watch` are `Undefined` when unset.
   */
  datatype Node = Node(
    typ: NodeType,
    props: Bag,
    children: seq<Raw>,
    key: Option<string>,
    visible: Raw,
    on: Raw,
    repeat: Raw,
    watch: Raw)

  /** `RenderOptions`: the optional initial state. */
  datatype RenderOptions = RenderOptions(state: Option<Bag>)

  /** `v == null` in JavaScript: true of `null` and `undefined` only. */
  predicate IsNullish(v: Raw) {
    v.Undefined? || v.Null?
  }

  /** The placeholders dropped from children: nullish values and booleans. */
  predicate IsHole(v: Raw) {
    IsNullish(v) || v.Bool?
  }

  /** What a normalised children list may hold: no placeholder, no array. */
  predicate IsChild(v: Raw) {
    !IsHole(v) && !v.Arr?
  }

  /** `isJfxNode`: a non-null object whose brand is the node brand. */
  predicate IsJfxNode(v: Raw)
    ensures IsJfxNode(v) ==> !IsNullish(v) && IsChild(v)
  {
    v.NodeV?
  }

  /** `bag.name`: the value under `name`, or `undefined` when it is absent. */
  function Field(p: Bag, name: string): Raw {
    if name in p then p[name] else Undefined
  }

  /** `RESERVED`: the names the factory lifts out of the property bag. */
  const Reserved: set<string> := {"key", "children", "visible", "on", "repeat", "watch"}

  /** The property bag without the reserved names. */
  function StripReserved(p: Bag): (r: Bag)
    ensures r.Keys == p.Keys - Reserved
    ensures forall k :: k in r ==> r[k] == p[k]
  {
    map k | k in p && k !in Reserved :: p[k]
  }

  /** `filterReserved`: copies every non-reserved entry into a fresh bag. */
  method FilterReserved(props: Bag) returns (out: Bag)
    ensures out == StripReserved(props)
  {
    out := map[];
    var todo := props.Keys;
    while todo != {}
      invariant todo <= props.Keys
      invariant out.Keys == (props.Keys - todo) - Reserved
      invariant forall k :: k in out ==> out[k] == props[k]
      decreases todo
    {
      var k :| k in todo;
      if k !in Reserved {
        out := out[k := props[k]];
      }
      todo := todo - {k};
    }
  }

  /**
   * The specification of children normalisation: placeholders give nothing,
   * an array is flattened in order, any other value stands for itself.
   */
  function Normalize(raw: Raw): (r: seq<Raw>)
    ensures forall x :: x in r ==> IsChild(x)
  {
    if IsHole(raw) then []
    else if raw.Arr? then NormalizeItems(raw.items)
    else [raw]
  }

  function NormalizeItems(xs: seq<Raw>): (r: seq<Raw>)
    ensures forall x :: x in r ==> IsChild(x)
  {
    if xs == [] then []
    else
      NormalizeOne(xs[0]) + NormalizeItems(xs[1..])
  }

  /** What one entry of an array contributes to the normalised list. */
  function NormalizeOne(x: Raw): (r: seq<Raw>)
    ensures forall y :: y in r ==> IsChild(y)
  {
    if IsHole(x) then [] else if x.Arr? then NormalizeItems(x.items) else [x]
  }

  /** `normalizeChildrenRaw`: the loop that pushes each kept child in turn. */
  method NormalizeChildrenRaw(raw: Raw) returns (result: seq<Raw>)
    ensures result == Normalize(raw)
  {
    if IsHole(raw) {
      return [];
    }
    if raw.Arr? {
      result := [];
      var items := raw.items;
      for i := 0 to |items|
        invariant NormalizeItems(items) == result + NormalizeItems(items[i..])
      {
        assert NormalizeItems(items[i..]) == NormalizeOne(items[i]) + NormalizeItems(items[i + 1..]) by {
          assert items[i..][1..] == items[i + 1..];
        }
        var child := items[i];
        if IsHole(child) {
          continue;
        }
        if child.Arr? {
          var inner := NormalizeChildrenRaw(child);
          result := result + inner;
        } else {
          result := result + [child];
        }
      }
      assert items[|items|..] == [];
      return;
    }
    return [raw];
  }

  /**
   * `String(v)`: the string a value coerces to. Plain objects and nodes give
   * "[object Object]"; an array joins its elements with commas, writing the
   * nullish ones as the empty string.
   */
  function JsString(v: Raw): (r: string)
    ensures v.Str? ==> r == v.s
    ensures v.Num? ==> 1 <= |r| && (r[0] == '-' <==> v.n < 0)
    ensures v.Arr? && v.items == [] ==> r == ""
    ensures v.Arr? && |v.items| == 1 && !IsNullish(v.items[0]) ==> r == JsString(v.items[0])
  {
    match v
    case Undefined => "undefined"
    case Null => "null"
    case Bool(b) => if b then "true" else "false"
    case Num(n) => IntString(n)
    case Str(s) => s
    case Obj(_) => "[object Object]"
    case NodeV(_) => "[object Object]"
    case Arr(items) => JoinItems(items)
  }

  /** The elements of an array joined with commas, nullish ones written as nothing. */
  function JoinItems(items: seq<Raw>): (r: string)
    ensures (forall i :: 0 <= i < |items| ==> IsNullish(items[i])) ==> |r| == if items == [] then 0 else |items| - 1
    ensures (forall i :: 0 <= i < |items| ==> IsNullish(items[i])) ==> forall j :: 0 <= j < |r| ==> r[j] == ','
  {
    if items == [] then ""
    else
      var head := if IsNullish(items[0]) then "" else JsString(items[0]);
      if |items| == 1 then head else head + "," + JoinItems(items[1..])
  }

  /** Numeric keys that differ stay different once coerced to strings. */
  lemma NumericKeysDistinct(a: int, b: int)
    requires a != b
    ensures JsString(Num(a)) != JsString(Num(b))
  {
    if JsString(Num(a)) == JsString(Num(b)) {
      IntStringInjective(a, b);
    }
  }

  /**
   * The node both factories build from a tag that is not a function: the bag
   * minus the reserved names, the normalised children, the key coerced to a
   * string when it is not nullish, and the four metadata fields as given.
   */
  function BuildNode(t: NodeType, p: Bag): (n: Node)
    ensures n.typ == t
    ensures n.props.Keys == p.Keys - Reserved
    ensures forall k :: k in n.props ==> n.props[k] == p[k]
    ensures n.children == Normalize(Field(p, "children"))
    ensures forall x :: x in n.children ==> IsChild(x)
    ensures n.key.Some? <==> "key" in p && !IsNullish(p["key"])
    ensures n.key.Some? ==> n.key.value == JsString(p["key"])
    ensures n.visible == Field(p, "visible") && n.on == Field(p, "on")
    ensures n.repeat == Field(p, "repeat") && n.watch == Field(p, "watch")
  {
    Node(t,
         StripReserved(p),
         Normalize(Field(p, "children")),
         if IsNullish(Field(p, "key")) then None else Some(JsString(p["key"])),
         Field(p, "visible"),
         Field(p, "on"),
         Field(p, "repeat"),
         Field(p, "watch"))
  }

  /**
   * `component(typeName)`: a function component whose nodes carry the given
   * type name (never the fragment marker) and are built as the factory
   * builds them.
   */
  function Component(typeName: string): (f: Bag -> Node)
    ensures forall p :: f(p).typ == TypeName(typeName)
    ensures forall p :: f(p).props.Keys == p.Keys - Reserved
    ensures forall p, k :: k in f(p).props ==> f(p).props[k] == p[k]
    ensures forall p :: f(p).children == Normalize(Field(p, "children"))
    ensures forall p :: f(p).key.Some? <==> !IsNullish(Field(p, "key"))
  {
    p => BuildNode(TypeName(typeName), p)
  }

  /** Flattening keeps order: the items of a concatenation normalise piecewise. */
  lemma {:induction false} NormalizeItemsAppend(a: seq<Raw>, b: seq<Raw>)
    ensures NormalizeItems(a + b) == NormalizeItems(a) + NormalizeItems(b)
  {
    if a == [] {
      assert a + b == b;
    } else {
      assert (a + b)[1..] == a[1..] + b;
      NormalizeItemsAppend(a[1..], b);
    }
  }

  /** A list that is already flat and free of placeholders normalises to itself. */
  lemma {:induction false} NormalizeItemsFlat(xs: seq<Raw>)
    requires forall x :: x in xs ==> IsChild(x)
    ensures NormalizeItems(xs) == xs
  {
    if xs != [] {
      assert xs[0] in xs;
      NormalizeItemsFlat(xs[1..]);
      assert xs == [xs[0]] + xs[1..];
    }
  }

  /** Normalising an already normalised children list changes nothing. */
  lemma NormalizeIdempotent(raw: Raw)
    ensures Normalize(Arr(Normalize(raw))) == Normalize(raw)
  {
    NormalizeItemsFlat(Normalize(raw));
  }

  /** A placeholder inside an array is dropped wherever it stands. */
  lemma NormalizeDropsHole(a: seq<Raw>, hole: Raw, b: seq<Raw>)
    requires IsHole(hole)
    ensures Normalize(Arr(a + [hole] + b)) == Normalize(Arr(a + b))
  {
    NormalizeItemsAppend(a + [hole], b);
    NormalizeItemsAppend(a, [hole]);
    NormalizeItemsAppend(a, b);
  }

  /** A nested array is spliced in place of itself. */
  lemma NormalizeSplicesArray(a: seq<Raw>, inner: seq<Raw>, b: seq<Raw>)
    ensures Normalize(Arr(a + [Arr(inner)] + b)) == Normalize(Arr(a + inner + b))
  {
    NormalizeItemsAppend(a + [Arr(inner)], b);
    NormalizeItemsAppend(a, [Arr(inner)]);
    NormalizeItemsAppend(a + inner, b);
    NormalizeItemsAppend(a, inner);
    assert NormalizeItems([Arr(inner)]) == NormalizeItems(inner) by {
      assert [Arr(inner)][1..] == [];
      assert NormalizeItems([Arr(inner)]) == NormalizeOne(Arr(inner)) + NormalizeItems([]);
    }
  }
}
