/**
 * The flattener (src/render.ts): a depth-first, pre-order walk that gives
 * every concrete node a key, splices fragment children in place, and
 * collects one element per concrete node into a flat, keyed map.
 *
 * The walk is written twice. `Flatten` and `FlattenAll` are its
 * specification, a function of the bookkeeping state `Ctx`; the class
 * `FlattenContext` holds that state in mutable fields, as the source's
 * `counters` map, `usedKeys` set and `elements` record do, and its methods
 * are proved to compute what the specification says.
 */
module Render {
  import opened Text
  import opened Types

  datatype Error = InvalidInput | InvalidRoot | DuplicateKey(key: string)

  datatype Result<T> = Ok(value: T) | Err(error: Error)

  /**
   * `UIElement`. An optional field is `None` exactly where the source leaves
   * the property off the object.
   */
  datatype UIElement = UIElement(
    typ: string,
    props: Bag,
    children: Option<seq<string>>,
    visible: Option<Raw>,
    on: Option<Raw>,
    repeat: Option<Raw>,
    watch: Option<Raw>)

  /** `Spec`: the root key, the elements by key, and the optional initial state. */
  datatype Spec = Spec(root: string, elements: map<string, UIElement>, state: Option<Bag>)

  /** The per-call bookkeeping: counters by lower-cased type, used keys, elements so far. */
  datatype Ctx = Ctx(counters: map<string, nat>, used: set<string>, elements: map<string, UIElement>)

  const EmptyCtx := Ctx(map[], {}, map[])

  // ---------------------------------------------------------------------------
  // Sizes (termination of the walk over expanded children)
  // ---------------------------------------------------------------------------

  function NodeSize(n: Node): nat {
    1 + RawsSize(n.children)
  }

  function RawSize(r: Raw): nat {
    if r.NodeV? then NodeSize(r.node) else 1
  }

  function RawsSize(cs: seq<Raw>): nat {
    if cs == [] then 0 else RawSize(cs[0]) + RawsSize(cs[1..])
  }

  function NodesSize(ns: seq<Node>): nat {
    if ns == [] then 0 else NodeSize(ns[0]) + NodesSize(ns[1..])
  }

  // ---------------------------------------------------------------------------
  // Fragment expansion
  // ---------------------------------------------------------------------------

  /**
   * The concrete nodes among `cs`, left to right: values that are not nodes
   * are dropped, and a fragment is replaced by the expansion of its own
   * children.
   */
  function Expand(cs: seq<Raw>): (r: seq<Node>)
    ensures forall n :: n in r ==> n.typ.TypeName?
  {
    if cs == [] then [] else ExpandOne(cs[0]) + Expand(cs[1..])
  }

  function ExpandOne(c: Raw): (r: seq<Node>)
    ensures forall n :: n in r ==> n.typ.TypeName?
  {
    if !IsJfxNode(c) then []
    else if c.node.typ == Fragment then Expand(c.node.children)
    else [c.node]
  }

  lemma {:induction false} ExpandBound(cs: seq<Raw>)
    ensures NodesSize(Expand(cs)) <= RawsSize(cs)
    ensures forall n :: n in Expand(cs) ==> NodeSize(n) <= RawsSize(cs)
  {
    if cs != [] {
      ExpandOneBound(cs[0]);
      ExpandBound(cs[1..]);
      NodesSizeAppend(ExpandOne(cs[0]), Expand(cs[1..]));
    }
  }

  lemma {:induction false} ExpandOneBound(c: Raw)
    ensures NodesSize(ExpandOne(c)) <= RawSize(c)
    ensures forall n :: n in ExpandOne(c) ==> NodeSize(n) <= RawSize(c)
  {
    if IsJfxNode(c) {
      if c.node.typ == Fragment {
        ExpandBound(c.node.children);
      } else {
        assert ExpandOne(c) == [c.node];
        assert NodesSize([c.node]) == NodeSize(c.node) + NodesSize([]);
      }
    }
  }

  lemma {:induction false} NodesSizeAppend(a: seq<Node>, b: seq<Node>)
    ensures NodesSize(a + b) == NodesSize(a) + NodesSize(b)
  {
    if a == [] {
      assert a + b == b;
    } else {
      assert (a + b)[1..] == a[1..] + b;
      NodesSizeAppend(a[1..], b);
    }
  }

  lemma {:induction false} RawsSizeAt(cs: seq<Raw>, i: nat)
    requires i < |cs|
    ensures RawSize(cs[i]) <= RawsSize(cs)
  {
    if i > 0 {
      RawsSizeAt(cs[1..], i - 1);
    }
  }

  /** Every concrete child found by expansion is smaller than its parent. */
  lemma ExpandSmaller(n: Node)
    ensures NodesSize(Expand(n.children)) < NodeSize(n)
    ensures forall c :: c in Expand(n.children) ==> NodeSize(c) < NodeSize(n)
  {
    ExpandBound(n.children);
  }

  /** `expandChildren`: the loop that pushes concrete children and splices fragments. */
  method ExpandChildren(children: seq<Raw>) returns (result: seq<Node>)
    ensures result == Expand(children)
    decreases RawsSize(children)
  {
    result := [];
    for i := 0 to |children|
      invariant Expand(children) == result + Expand(children[i..])
    {
      assert Expand(children[i..]) == ExpandOne(children[i]) + Expand(children[i + 1..]) by {
        assert children[i..][1..] == children[i + 1..];
      }
      var child := children[i];
      if !IsJfxNode(child) {
        assert ExpandOne(child) == [];
        continue;
      }
      if child.node.typ == Fragment {
        RawsSizeAt(children, i);
        assert RawsSize(child.node.children) < RawSize(child);
        var inner := ExpandChildren(child.node.children);
        assert ExpandOne(child) == inner;
        result := result + inner;
      } else {
        assert ExpandOne(child) == [child.node];
        result := result + [child.node];
      }
    }
    assert children[|children|..] == [];
  }

  // ---------------------------------------------------------------------------
  // Keys
  // ---------------------------------------------------------------------------

  /** The counter of a lower-cased type: `counters.get(base) ?? 0`. */
  function Count(counters: map<string, nat>, base: string): nat {
    if base in counters then counters[base] else 0
  }

  /** An auto key: `${base}-${count}`. */
  function AutoKey(base: string, count: nat): string {
    base + "-" + Decimal(count)
  }

  /** `generateKey`, as a function of the counters it reads and writes. */
  function GenKey(typ: string, counters: map<string, nat>): (r: (string, map<string, nat>))
    ensures Lower(typ) in r.1 && r.1[Lower(typ)] == Count(counters, Lower(typ)) + 1
    ensures forall b :: b != Lower(typ) ==> Count(r.1, b) == Count(counters, b)
    ensures r.0 == AutoKey(Lower(typ), r.1[Lower(typ)])
  {
    var base := Lower(typ);
    var count := Count(counters, base) + 1;
    (AutoKey(base, count), counters[base := count])
  }

  /** `node.key ?? generateKey(...)`: an explicit key leaves the counters alone. */
  function AssignKey(n: Node, counters: map<string, nat>): (r: (string, map<string, nat>))
    requires n.typ.TypeName?
    ensures n.key.Some? ==> r.0 == n.key.value && r.1 == counters
    ensures n.key.None? ==> Count(r.1, Lower(n.typ.name)) == Count(counters, Lower(n.typ.name)) + 1
                            && r.0 == AutoKey(Lower(n.typ.name), Count(r.1, Lower(n.typ.name)))
  {
    if n.key.Some? then (n.key.value, counters) else GenKey(n.typ.name, counters)
  }

  /** A metadata field is set on the element exactly when it is not `undefined`. */
  function Defined(v: Raw): (r: Option<Raw>)
    ensures r.None? <==> v.Undefined?
    ensures r.Some? ==> r.value == v
  {
    if v.Undefined? then None else Some(v)
  }

  /** The element built for a concrete node whose children got `childKeys`. */
  function MakeElement(n: Node, childKeys: seq<string>): (e: UIElement)
    requires n.typ.TypeName?
    ensures e.typ == n.typ.name && e.props == n.props
    ensures e.children.Some? <==> childKeys != []
    ensures e.children.Some? ==> e.children.value == childKeys
    ensures e.visible.Some? <==> !n.visible.Undefined?
    ensures e.on.Some? <==> !n.on.Undefined?
    ensures e.repeat.Some? <==> !n.repeat.Undefined?
    ensures e.watch.Some? <==> !n.watch.Undefined?
    ensures e.visible.Some? ==> e.visible.value == n.visible
    ensures e.on.Some? ==> e.on.value == n.on
    ensures e.repeat.Some? ==> e.repeat.value == n.repeat
    ensures e.watch.Some? ==> e.watch.value == n.watch
  {
    UIElement(n.typ.name, n.props,
              if |childKeys| > 0 then Some(childKeys) else None,
              Defined(n.visible), Defined(n.on), Defined(n.repeat), Defined(n.watch))
  }

  // ---------------------------------------------------------------------------
  // The walk, as a specification
  // ---------------------------------------------------------------------------

  /** `flattenNode` on the state `ctx`: the node's key and the state after it. */
  function Flatten(n: Node, ctx: Ctx): (r: Result<(string, Ctx)>)
    requires n.typ.TypeName?
    decreases NodeSize(n), 0
    ensures r.Err? ==> r.error.DuplicateKey?
    ensures r.Ok? ==> && r.value.0 !in ctx.used && r.value.0 in r.value.1.used
                      && ctx.used <= r.value.1.used
                      && ctx.elements.Keys + {r.value.0} <= r.value.1.elements.Keys
  {
    var (key, counters) := AssignKey(n, ctx.counters);
    if key in ctx.used then Err(DuplicateKey(key))
    else
      ExpandSmaller(n);
      match FlattenAll(Expand(n.children), Ctx(counters, ctx.used + {key}, ctx.elements))
      case Err(e) => Err(e)
      case Ok((childKeys, c)) =>
        Ok((key, c.(elements := c.elements[key := MakeElement(n, childKeys)])))
  }

  /** The loop over concrete children: their keys in order, and the state after the last. */
  function FlattenAll(ns: seq<Node>, ctx: Ctx): (r: Result<(seq<string>, Ctx)>)
    requires forall n :: n in ns ==> n.typ.TypeName?
    decreases NodesSize(ns), 1
    ensures r.Err? ==> r.error.DuplicateKey?
    ensures r.Ok? ==> && |r.value.0| == |ns| && ctx.used <= r.value.1.used
                      && ctx.elements.Keys <= r.value.1.elements.Keys
                      && forall k :: k in r.value.0 ==> k in r.value.1.used && k in r.value.1.elements
  {
    if ns == [] then Ok(([], ctx))
    else
      match Flatten(ns[0], ctx)
      case Err(e) => Err(e)
      case Ok((k, c1)) =>
        match FlattenAll(ns[1..], c1)
        case Err(e) => Err(e)
        case Ok((ks, c2)) => Ok(([k] + ks, c2))
  }

  /** `options?.state`: the state to attach, when the caller gave one. */
  function StateOf(options: Option<RenderOptions>): (r: Option<Bag>)
    ensures options.None? ==> r.None?
    ensures options.Some? ==> r == options.value.state
  {
    if options.Some? then options.value.state else None
  }

  /** `render`, as a specification. */
  function RenderOf(value: Raw, options: Option<RenderOptions>): (r: Result<Spec>)
    ensures !IsJfxNode(value) ==> r == Err(InvalidInput)
    ensures IsJfxNode(value) && value.node.typ == Fragment ==> r == Err(InvalidRoot)
    ensures r.Ok? ==> IsJfxNode(value) && value.node.typ.TypeName?
    ensures r.Ok? ==> r.value.state == StateOf(options)
  {
    if !IsJfxNode(value) then Err(InvalidInput)
    else if value.node.typ == Fragment then Err(InvalidRoot)
    else
      match Flatten(value.node, EmptyCtx)
      case Err(e) => Err(e)
      case Ok((root, c)) => Ok(Spec(root, c.elements, StateOf(options)))
  }

  /** Prepends the keys already collected to the outcome of the remaining children. */
  function WithPrefix(done: seq<string>, rest: Result<(seq<string>, Ctx)>): Result<(seq<string>, Ctx)> {
    match rest
    case Err(e) => Err(e)
    case Ok((ks, c)) => Ok((done + ks, c))
  }

  lemma WithPrefixAppend(a: seq<string>, b: seq<string>, rest: Result<(seq<string>, Ctx)>)
    ensures WithPrefix(a, WithPrefix(b, rest)) == WithPrefix(a + b, rest)
  {
    if rest.Ok? {
      assert a + (b + rest.value.0) == (a + b) + rest.value.0;
    }
  }

  /** One step of the loop over concrete children, seen from the specification. */
  lemma FlattenAllStep(ns: seq<Node>, i: nat, ctx: Ctx)
    requires forall n :: n in ns ==> n.typ.TypeName?
    requires i < |ns|
    ensures ns[i].typ.TypeName?
    ensures Flatten(ns[i], ctx).Err? ==> FlattenAll(ns[i..], ctx) == Err(Flatten(ns[i], ctx).error)
    ensures Flatten(ns[i], ctx).Ok? ==>
              FlattenAll(ns[i..], ctx)
              == WithPrefix([Flatten(ns[i], ctx).value.0], FlattenAll(ns[i + 1..], Flatten(ns[i], ctx).value.1))
  {
  }

  /** A node whose key is already used fails at once, naming that key. */
  lemma FlattenClash(n: Node, ctx: Ctx)
    requires n.typ.TypeName? && AssignKey(n, ctx.counters).0 in ctx.used
    ensures Flatten(n, ctx) == Err(DuplicateKey(AssignKey(n, ctx.counters).0))
  {
  }

  /** How a node's outcome follows from its children's, once its key is free. */
  lemma FlattenAfterChildren(n: Node, ctx: Ctx, key: string, counters: map<string, nat>)
    requires n.typ.TypeName? && AssignKey(n, ctx.counters) == (key, counters) && key !in ctx.used
    ensures var r := FlattenAll(Expand(n.children), Ctx(counters, ctx.used + {key}, ctx.elements));
            && (r.Err? ==> Flatten(n, ctx) == Err(r.error))
            && (r.Ok? ==> Flatten(n, ctx)
                          == Ok((key, r.value.1.(elements := r.value.1.elements[key := MakeElement(n, r.value.0)]))))
  {
  }

  // ---------------------------------------------------------------------------
  // The walk, as the source runs it
  // ---------------------------------------------------------------------------

  /**
   * The element of `flattenNode`: type and props, then each optional field
   * only when the node has something for it.
   */
  method BuildElement(node: Node, childKeys: seq<string>) returns (element: UIElement)
    requires node.typ.TypeName?
    ensures element == MakeElement(node, childKeys)
  {
    element := UIElement(node.typ.name, node.props, None, None, None, None, None);
    if |childKeys| > 0 {
      element := element.(children := Some(childKeys));
    }
    if !node.visible.Undefined? {
      element := element.(visible := Some(node.visible));
    }
    if !node.on.Undefined? {
      element := element.(on := Some(node.on));
    }
    if !node.repeat.Undefined? {
      element := element.(repeat := Some(node.repeat));
    }
    if !node.watch.Undefined? {
      element := element.(watch := Some(node.watch));
    }
  }

  class FlattenContext {
    var counters: map<string, nat>
    var usedKeys: set<string>
    var elements: map<string, UIElement>

    function State(): Ctx
      reads this
    {
      Ctx(counters, usedKeys, elements)
    }

    /** Fresh bookkeeping for one call of `render`. */
    constructor ()
      ensures State() == EmptyCtx
    {
      counters := map[];
      usedKeys := {};
      elements := map[];
    }

    /** `generateKey`: bumps the counter of the lower-cased type and names the key after it. */
    method GenerateKey(typ: string) returns (key: string)
      modifies this
      ensures (key, counters) == GenKey(typ, old(counters))
      ensures usedKeys == old(usedKeys) && elements == old(elements)
    {
      var base := Lower(typ);
      var count := Count(counters, base) + 1;
      counters := counters[base := count];
      key := base + "-" + Decimal(count);
    }

    /** `flattenNode`: flattens one concrete node and returns its key. */
    method FlattenNode(node: Node) returns (r: Result<string>)
      requires node.typ.TypeName?
      modifies this
      decreases NodeSize(node)
      ensures Flatten(node, old(State())).Err? ==> r == Err(Flatten(node, old(State())).error)
      ensures Flatten(node, old(State())).Ok? ==>
                r == Ok(Flatten(node, old(State())).value.0) && State() == Flatten(node, old(State())).value.1
    {
      ghost var ctx0 := State();
      var key: string;
      if node.key.Some? {
        key := node.key.value;
      } else {
        key := GenerateKey(node.typ.name);
      }
      assert AssignKey(node, ctx0.counters) == (key, counters);
      if key in usedKeys {
        FlattenClash(node, ctx0);
        return Err(DuplicateKey(key));
      }
      usedKeys := usedKeys + {key};

      var concrete := ExpandChildren(node.children);
      ExpandSmaller(node);
      ghost var start := State();
      var childKeys: seq<string> := [];
      var i := 0;
      assert concrete[0..] == concrete;
      assert WithPrefix([], FlattenAll(concrete, start)) == FlattenAll(concrete, start) by {
        if FlattenAll(concrete, start).Ok? {
          assert [] + FlattenAll(concrete, start).value.0 == FlattenAll(concrete, start).value.0;
        }
      }
      while i < |concrete|
        invariant 0 <= i <= |concrete|
        invariant WithPrefix(childKeys, FlattenAll(concrete[i..], State())) == FlattenAll(concrete, start)
      {
        assert concrete[i] in concrete;
        ghost var before := State();
        var childKey := FlattenNode(concrete[i]);
        FlattenAllStep(concrete, i, before);
        if childKey.Err? {
          FlattenAfterChildren(node, ctx0, key, start.counters);
          return Err(childKey.error);
        }
        WithPrefixAppend(childKeys, [childKey.value], FlattenAll(concrete[i + 1..], State()));
        childKeys := childKeys + [childKey.value];
        i := i + 1;
      }
      assert concrete[i..] == [];
      assert childKeys + [] == childKeys;
      FlattenAfterChildren(node, ctx0, key, start.counters);

      var element := BuildElement(node, childKeys);
      elements := elements[key := element];
      return Ok(key);
    }
  }

  /**
   * `render`: rejects a value that is not a node and a fragment root, then
   * flattens the root with fresh bookkeeping and attaches the state if given.
   */
  method Render(value: Raw, options: Option<RenderOptions>) returns (r: Result<Spec>)
    ensures r == RenderOf(value, options)
  {
    if !IsJfxNode(value) {
      return Err(InvalidInput);
    }
    var node := value.node;
    if node.typ == Fragment {
      return Err(InvalidRoot);
    }
    var ctx := new FlattenContext();
    var rootKey := ctx.FlattenNode(node);
    if rootKey.Err? {
      return Err(rootKey.error);
    }
    var spec := Spec(rootKey.value, ctx.elements, None);
    if options.Some? && options.value.state.Some? {
      spec := spec.(state := options.value.state);
    }
    return Ok(spec);
  }
}
