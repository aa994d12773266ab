/**
 * What one call of `render` guarantees (src/render.ts), proved about the
 * specification functions of module `Render`.
 *
 * The tree walk is related to a flat one: the concrete nodes of the tree in
 * pre-order (`Preorder`) are given keys one after another (`KeysOf`), and a
 * scan over that sequence (`Walk`) stops at the first key already used. The
 * flattener fails exactly where that scan stops, and otherwise produces one
 * element per pre-order node under exactly those keys.
 */
module RenderProperties {
  import opened Text
  import opened Types
  import opened Render

  // ---------------------------------------------------------------------------
  // The concrete nodes of a tree, in pre-order
  // ---------------------------------------------------------------------------

  /** The node itself, then the pre-order of each concrete child in turn. */
  function Preorder(n: Node): (r: seq<Node>)
    requires n.typ.TypeName?
    decreases NodeSize(n), 0
    ensures |r| >= 1 && r[0] == n
    ensures forall m :: m in r ==> m.typ.TypeName?
  {
    ExpandSmaller(n);
    [n] + PreorderAll(Expand(n.children))
  }

  function PreorderAll(ns: seq<Node>): (r: seq<Node>)
    requires forall n :: n in ns ==> n.typ.TypeName?
    decreases NodesSize(ns), 1
    ensures forall m :: m in r ==> m.typ.TypeName?
  {
    if ns == [] then [] else Preorder(ns[0]) + PreorderAll(ns[1..])
  }

  /**
   * Given the keys `ks` of the pre-orders of `ns`, one after another, the
   * keys of the nodes of `ns` themselves: each opens its own block.
   */
  function ChildKeys(ns: seq<Node>, ks: seq<string>): (r: seq<string>)
    requires forall n :: n in ns ==> n.typ.TypeName?
    requires |ks| == |PreorderAll(ns)|
    ensures |r| == |ns|
    decreases |ns|
  {
    if ns == [] then []
    else
      var m := |Preorder(ns[0])|;
      [ks[0]] + ChildKeys(ns[1..], ks[m..])
  }

  /** The j-th child's key is the key at the start of the j-th block. */
  lemma {:induction false} ChildKeysAt(ns: seq<Node>, ks: seq<string>, j: nat)
    requires forall n :: n in ns ==> n.typ.TypeName?
    requires |ks| == |PreorderAll(ns)| && j < |ns|
    ensures |PreorderAll(ns[..j])| < |ks|
    ensures ChildKeys(ns, ks)[j] == ks[|PreorderAll(ns[..j])|]
  {
    var m := |Preorder(ns[0])|;
    if j == 0 {
      assert ns[..0] == [];
    } else {
      ChildKeysAt(ns[1..], ks[m..], j - 1);
      assert ns[..j][0] == ns[0] && ns[..j][1..] == ns[1..][..j - 1];
      assert |PreorderAll(ns[..j])| == m + |PreorderAll(ns[1..][..j - 1])|;
    }
  }

  /**
   * The elements that stand for node `n` whose pre-order got the keys `ks`:
   * the elements of its concrete children, then its own element, under its
   * own key, listing its children's keys.
   */
  function Layout(n: Node, ks: seq<string>): map<string, UIElement>
    requires n.typ.TypeName? && |ks| == |Preorder(n)|
    decreases NodeSize(n), 0
  {
    ExpandSmaller(n);
    var cs := Expand(n.children);
    LayoutAll(cs, ks[1..])[ks[0] := MakeElement(n, ChildKeys(cs, ks[1..]))]
  }

  function LayoutAll(ns: seq<Node>, ks: seq<string>): map<string, UIElement>
    requires forall n :: n in ns ==> n.typ.TypeName?
    requires |ks| == |PreorderAll(ns)|
    decreases NodesSize(ns), 1
  {
    if ns == [] then map[]
    else
      assert ns[0] in ns;
      var m := |Preorder(ns[0])|;
      Layout(ns[0], ks[..m]) + LayoutAll(ns[1..], ks[m..])
  }

  // ---------------------------------------------------------------------------
  // Keys along a sequence of nodes
  // ---------------------------------------------------------------------------

  /** The keys the nodes get one after another, starting from `counters`. */
  function KeysOf(ns: seq<Node>, counters: map<string, nat>): (r: seq<string>)
    requires forall n :: n in ns ==> n.typ.TypeName?
    ensures |r| == |ns|
  {
    if ns == [] then []
    else
      var (k, c1) := AssignKey(ns[0], counters);
      [k] + KeysOf(ns[1..], c1)
  }

  /** The number of nodes without an explicit key whose type lower-cases to `base`. */
  function CountAuto(ns: seq<Node>, base: string): nat
    requires forall n :: n in ns ==> n.typ.TypeName?
  {
    if ns == [] then 0
    else (if ns[0].key.None? && Lower(ns[0].typ.name) == base then 1 else 0) + CountAuto(ns[1..], base)
  }

  /**
   * The count in the i-th node's generated key: one more than the counter
   * of its lower-cased type at the start, plus the earlier nodes without an
   * explicit key whose type lower-cases the same.
   */
  function AutoCount(ns: seq<Node>, counters: map<string, nat>, i: nat): nat
    requires forall n :: n in ns ==> n.typ.TypeName?
    requires i < |ns|
  {
    var base := Lower(ns[i].typ.name);
    Count(counters, base) + CountAuto(ns[..i], base) + 1
  }

  /**
   * The key of the i-th node: its explicit key if it has one; otherwise
   * `lower(type)-n`, where n is one more than the counter it started from
   * plus the number of earlier nodes without an explicit key whose type
   * lower-cases the same. Explicit keys never advance a counter, and types
   * that lower-case alike share one.
   */
  lemma {:induction false} KeyOfNode(ns: seq<Node>, counters: map<string, nat>, i: nat)
    requires forall n :: n in ns ==> n.typ.TypeName?
    requires i < |ns|
    ensures ns[i].key.Some? ==> KeysOf(ns, counters)[i] == ns[i].key.value
    ensures ns[i].key.None? ==> KeysOf(ns, counters)[i] == AutoKey(Lower(ns[i].typ.name), AutoCount(ns, counters, i))
  {
    if i > 0 {
      var c1 := AssignKey(ns[0], counters).1;
      KeyOfNode(ns[1..], c1, i - 1);
      assert ns[1..][i - 1] == ns[i];
      assert KeysOf(ns, counters)[i] == KeysOf(ns[1..], c1)[i - 1];
      AutoCountShift(ns, counters, i);
    }
  }

  /** Past the first node, the count is the tail's count from the counters after it. */
  lemma AutoCountShift(ns: seq<Node>, counters: map<string, nat>, i: nat)
    requires forall n :: n in ns ==> n.typ.TypeName?
    requires 0 < i < |ns|
    ensures AutoCount(ns, counters, i) == AutoCount(ns[1..], AssignKey(ns[0], counters).1, i - 1)
  {
    var c1 := AssignKey(ns[0], counters).1;
    var base := Lower(ns[i].typ.name);
    var step := if ns[0].key.None? && Lower(ns[0].typ.name) == base then 1 else 0;
    assert ns[0] in ns;
    assert Count(c1, base) == Count(counters, base) + step;
    assert ns[..i][0] == ns[0] && ns[..i][1..] == ns[1..][..i - 1];
    assert CountAuto(ns[..i], base) == step + CountAuto(ns[1..][..i - 1], base);
  }

  /** A node without an explicit key raises the count of its base for every later node. */
  lemma CountAutoGrows(ns: seq<Node>, i: nat, j: nat, base: string)
    requires forall n :: n in ns ==> n.typ.TypeName?
    requires i < j <= |ns| && ns[i].key.None? && Lower(ns[i].typ.name) == base
    ensures CountAuto(ns[..j], base) > CountAuto(ns[..i], base)
  {
    assert ns[..j] == ns[..i] + ns[i..j];
    CountAutoAppend(ns[..i], ns[i..j], base);
    assert ns[i..j][0] == ns[i];
  }

  lemma {:induction false} CountAutoAppend(a: seq<Node>, b: seq<Node>, base: string)
    requires forall n :: n in a ==> n.typ.TypeName?
    requires forall n :: n in b ==> n.typ.TypeName?
    ensures CountAuto(a + b, base) == CountAuto(a, base) + CountAuto(b, base)
  {
    if a == [] {
      assert a + b == b;
    } else {
      assert (a + b)[1..] == a[1..] + b;
      CountAutoAppend(a[1..], b, base);
    }
  }

  /** An auto key names its base and its count: no two differ and look alike. */
  lemma AutoKeyInjective(b1: string, n1: nat, b2: string, n2: nat)
    requires AutoKey(b1, n1) == AutoKey(b2, n2)
    ensures b1 == b2 && n1 == n2
  {
    var s := AutoKey(b1, n1);
    var d1, d2 := Decimal(n1), Decimal(n2);
    assert s == b1 + "-" + d1 == b2 + "-" + d2;
    // The last '-' of `s` sits just before either numeral, which holds none.
    assert s[|s| - |d1| - 1] == '-' && s[|s| - |d2| - 1] == '-';
    assert forall i :: |s| - |d1| <= i < |s| ==> IsDigit(s[i]);
    assert forall i :: |s| - |d2| <= i < |s| ==> IsDigit(s[i]);
    assert |d1| == |d2|;
    assert d1 == s[|s| - |d1|..] == d2;
    DecimalInjective(n1, n2);
    assert b1 == s[..|s| - |d1| - 1] == b2;
  }

  /** Keys with a different base or count differ. */
  lemma AutoKeyDistinct(b1: string, n1: nat, b2: string, n2: nat)
    ensures b1 != b2 || n1 != n2 ==> AutoKey(b1, n1) != AutoKey(b2, n2)
  {
    if AutoKey(b1, n1) == AutoKey(b2, n2) {
      AutoKeyInjective(b1, n1, b2, n2);
    }
  }

  // ---------------------------------------------------------------------------
  // The scan that checks each key against the keys used before it
  // ---------------------------------------------------------------------------

  datatype Scan = Clash(key: string) | Done(keys: seq<string>, counters: map<string, nat>, used: set<string>)

  /** Assigns the keys in order and stops at the first one already used. */
  function Walk(ns: seq<Node>, counters: map<string, nat>, used: set<string>): (r: Scan)
    requires forall n :: n in ns ==> n.typ.TypeName?
    ensures r.Done? ==> |r.keys| == |ns|
  {
    if ns == [] then Done([], counters, used)
    else
      var (k, c1) := AssignKey(ns[0], counters);
      if k in used then Clash(k)
      else
        match Walk(ns[1..], c1, used + {k})
        case Clash(k2) => Clash(k2)
        case Done(ks, c2, u2) => Done([k] + ks, c2, u2)
  }

  function PrefixScan(ks: seq<string>, s: Scan): Scan {
    match s
    case Clash(k) => Clash(k)
    case Done(ks2, c, u) => Done(ks + ks2, c, u)
  }

  /** Scanning `first`, then going on with `rest` where it left off. */
  function Then(first: Scan, rest: seq<Node>): Scan
    requires forall n :: n in rest ==> n.typ.TypeName?
  {
    match first
    case Clash(k) => Clash(k)
    case Done(ks, c, u) => PrefixScan(ks, Walk(rest, c, u))
  }

  /** Scanning a concatenation is scanning its two parts in turn. */
  lemma {:induction false} WalkAppend(a: seq<Node>, b: seq<Node>, counters: map<string, nat>, used: set<string>)
    requires forall n :: n in a ==> n.typ.TypeName?
    requires forall n :: n in b ==> n.typ.TypeName?
    ensures Walk(a + b, counters, used) == Then(Walk(a, counters, used), b)
  {
    if a == [] {
      assert a + b == b;
      var w := Walk(b, counters, used);
      if w.Done? {
        assert [] + w.keys == w.keys;
      }
    } else {
      assert (a + b)[0] == a[0];
      assert (a + b)[1..] == a[1..] + b;
      var (k, c1) := AssignKey(a[0], counters);
      if k !in used {
        WalkAppend(a[1..], b, c1, used + {k});
        var w := Walk(a[1..], c1, used + {k});
        if w.Done? {
          var rest := Walk(b, w.counters, w.used);
          if rest.Done? {
            assert [k] + (w.keys + rest.keys) == ([k] + w.keys) + rest.keys;
          }
        }
      }
    }
  }

  /** No key repeats, and none was used before. */
  ghost predicate Fresh(ks: seq<string>, used: set<string>) {
    && (forall i :: 0 <= i < |ks| ==> ks[i] !in used)
    && (forall i, j :: 0 <= i < j < |ks| ==> ks[i] != ks[j])
  }

  function KeySet(ks: seq<string>): set<string> {
    set i | 0 <= i < |ks| :: ks[i]
  }

  /** A key list is fresh when its head is fresh and its tail is fresh after it. */
  lemma FreshCons(k: string, rest: seq<string>, used: set<string>)
    ensures Fresh([k] + rest, used) <==> k !in used && Fresh(rest, used + {k})
  {
    var ks := [k] + rest;
    if k !in used && Fresh(rest, used + {k}) {
      forall i, j | 0 <= i < j < |ks| ensures ks[i] != ks[j] {
        assert ks[j] == rest[j - 1];
        if i > 0 {
          assert ks[i] == rest[i - 1];
        }
      }
    }
    if Fresh(ks, used) {
      forall i | 0 <= i < |rest| ensures rest[i] !in used + {k} {
        assert rest[i] == ks[i + 1] && ks[0] == k;
      }
      forall i, j | 0 <= i < j < |rest| ensures rest[i] != rest[j] {
        assert rest[i] == ks[i + 1] && rest[j] == ks[j + 1];
      }
    }
  }

  lemma KeySetCons(k: string, rest: seq<string>)
    ensures KeySet([k] + rest) == {k} + KeySet(rest)
  {
    var ks := [k] + rest;
    forall x | x in KeySet(ks) ensures x in {k} + KeySet(rest) {
      var i :| 0 <= i < |ks| && ks[i] == x;
      if i > 0 {
        assert rest[i - 1] == x;
      }
    }
    forall x | x in KeySet(rest) ensures x in KeySet(ks) {
      var i :| 0 <= i < |rest| && rest[i] == x;
      assert ks[i + 1] == x;
    }
    assert ks[0] == k;
  }

  /** A clash found in the tail is a clash of the whole list, one place later. */
  lemma ClashShift(k: string, rest: seq<string>, used: set<string>, j: nat)
    requires j < |rest| && k !in used
    requires Fresh(rest[..j], used + {k})
    requires rest[j] in used + {k} || rest[j] in rest[..j]
    ensures var ks := [k] + rest;
            Fresh(ks[..j + 1], used) && (ks[j + 1] in used || ks[j + 1] in ks[..j + 1])
  {
    var ks := [k] + rest;
    assert ks[..j + 1] == [k] + rest[..j];
    FreshCons(k, rest[..j], used);
    if rest[j] in rest[..j] {
      var m :| 0 <= m < j && rest[..j][m] == rest[j];
      assert ks[..j + 1][m + 1] == ks[j + 1];
    } else if rest[j] == k {
      assert ks[..j + 1][0] == ks[j + 1];
    }
  }

  /**
   * The scan completes exactly when the assigned keys are fresh, and then
   * adds exactly them to the used set; otherwise it stops at the first key
   * that was used before or repeats an earlier one.
   */
  lemma {:induction false} WalkOutcome(ns: seq<Node>, counters: map<string, nat>, used: set<string>)
    requires forall n :: n in ns ==> n.typ.TypeName?
    ensures var ks := KeysOf(ns, counters);
            var w := Walk(ns, counters, used);
            && (w.Done? <==> Fresh(ks, used))
            && (w.Done? ==> w.keys == ks && w.used == used + KeySet(ks))
            && (w.Clash? ==> exists j :: 0 <= j < |ks| && w.key == ks[j] && Fresh(ks[..j], used)
                                          && (ks[j] in used || ks[j] in ks[..j]))
  {
    var ks := KeysOf(ns, counters);
    if ns == [] {
      assert KeySet(ks) == {};
    } else {
      var (k, c1) := AssignKey(ns[0], counters);
      var rest := KeysOf(ns[1..], c1);
      assert ks == [k] + rest;
      FreshCons(k, rest, used);
      if k in used {
        assert ks[0] == k;
        assert ks[..0] == [];
        assert Fresh(ks[..0], used);
      } else {
        var u1 := used + {k};
        WalkOutcome(ns[1..], c1, u1);
        var w := Walk(ns[1..], c1, u1);
        if w.Done? {
          KeySetCons(k, rest);
        } else {
          var j :| 0 <= j < |rest| && w.key == rest[j] && Fresh(rest[..j], u1)
                   && (rest[j] in u1 || rest[j] in rest[..j]);
          ClashShift(k, rest, used, j);
          assert ks[j + 1] == rest[j];
        }
      }
    }
  }

  /** Fresh keys are as many as their set. */
  lemma {:induction false} FreshKeySetSize(ks: seq<string>, used: set<string>)
    requires Fresh(ks, used)
    ensures |KeySet(ks)| == |ks|
  {
    if ks != [] {
      assert ks == [ks[0]] + ks[1..];
      FreshCons(ks[0], ks[1..], used);
      FreshKeySetSize(ks[1..], used + {ks[0]});
      KeySetCons(ks[0], ks[1..]);
      assert ks[0] !in KeySet(ks[1..]);
    }
  }

  /**
   * Keys that are all generated never collide with one another: within a
   * base the counter only grows, and a key spells out its base and count.
   */
  lemma AutoKeysFresh(ns: seq<Node>, counters: map<string, nat>)
    requires forall n :: n in ns ==> n.typ.TypeName? && n.key.None?
    ensures Fresh(KeysOf(ns, counters), {})
  {
    var ks := KeysOf(ns, counters);
    forall i, j | 0 <= i < j < |ks| ensures ks[i] != ks[j] {
      AutoKeysDistinct(ns, counters, i, j);
    }
  }

  /** Two generated keys of a sequence, at different places, differ. */
  lemma AutoKeysDistinct(ns: seq<Node>, counters: map<string, nat>, i: nat, j: nat)
    requires forall n :: n in ns ==> n.typ.TypeName? && n.key.None?
    requires i < j < |ns|
    ensures KeysOf(ns, counters)[i] != KeysOf(ns, counters)[j]
  {
    KeyOfNode(ns, counters, i);
    KeyOfNode(ns, counters, j);
    var bi, bj := Lower(ns[i].typ.name), Lower(ns[j].typ.name);
    if bi == bj {
      CountAutoGrows(ns, i, j, bi);
    }
    AutoKeyDistinct(bi, AutoCount(ns, counters, i), bj, AutoCount(ns, counters, j));
  }

  // ---------------------------------------------------------------------------
  // The elements a walk leaves behind
  // ---------------------------------------------------------------------------

  /** Every key listed as a child is itself an element. */
  ghost predicate Closed(els: map<string, UIElement>) {
    forall k, c :: k in els && els[k].children.Some? && c in els[k].children.value ==> c in els
  }

  /** `b` keeps every element of `a` unchanged. */
  ghost predicate Extends(a: map<string, UIElement>, b: map<string, UIElement>) {
    forall k :: k in a ==> k in b && b[k] == a[k]
  }

  /** What holds of the bookkeeping between two steps of the walk. */
  ghost predicate Inv(ctx: Ctx) {
    ctx.elements.Keys <= ctx.used && Closed(ctx.elements)
  }

  /**
   * The element under `k` stands for the concrete node `n`: same type and
   * props, each metadata field present exactly when set on `n`, and a
   * `children` list present exactly when `n` has concrete children, naming
   * elements that stand for those children, in order.
   */
  ghost predicate Renders(els: map<string, UIElement>, k: string, n: Node)
    decreases NodeSize(n)
  {
    ExpandSmaller(n);
    var cs := Expand(n.children);
    && n.typ.TypeName?
    && k in els
    && els[k].typ == n.typ.name
    && els[k].props == n.props
    && els[k].visible == Defined(n.visible)
    && els[k].on == Defined(n.on)
    && els[k].repeat == Defined(n.repeat)
    && els[k].watch == Defined(n.watch)
    && (cs == [] ==> els[k].children.None?)
    && (cs != [] ==>
          && els[k].children.Some?
          && |els[k].children.value| == |cs|
          && forall j :: 0 <= j < |cs| ==> Renders(els, els[k].children.value[j], cs[j]))
  }

  lemma {:induction false} RendersExtends(a: map<string, UIElement>, b: map<string, UIElement>, k: string, n: Node)
    requires Renders(a, k, n) && Extends(a, b)
    ensures Renders(b, k, n)
    decreases NodeSize(n)
  {
    ExpandSmaller(n);
    var cs := Expand(n.children);
    if cs != [] {
      forall j | 0 <= j < |cs| ensures Renders(b, a[k].children.value[j], cs[j]) {
        assert cs[j] in cs;
        RendersExtends(a, b, a[k].children.value[j], cs[j]);
      }
    }
  }

  // ---------------------------------------------------------------------------
  // The tree walk is the flat scan
  // ---------------------------------------------------------------------------

  /**
   * `flattenNode` fails exactly where the scan of the node's pre-order
   * stops, with that key; otherwise it returns the first scanned key and
   * leaves the counters and the used set as the scan does.
   */
  lemma {:induction false} FlattenKeysMatchWalk(n: Node, ctx: Ctx)
    requires n.typ.TypeName?
    decreases NodeSize(n), 0
    ensures var w := Walk(Preorder(n), ctx.counters, ctx.used);
            var r := Flatten(n, ctx);
            && (r.Err? ==> w.Clash? && r.error == DuplicateKey(w.key))
            && (r.Ok? ==> && w.Done? && |w.keys| == |Preorder(n)| && r.value.0 == w.keys[0]
                          && r.value.1.counters == w.counters && r.value.1.used == w.used)
  {
    var (key, counters) := AssignKey(n, ctx.counters);
    ExpandSmaller(n);
    var cs := Expand(n.children);
    var pre := Preorder(n);
    assert pre[0] == n && pre[1..] == PreorderAll(cs);
    if key !in ctx.used {
      var ctx1 := Ctx(counters, ctx.used + {key}, ctx.elements);
      FlattenAllKeysMatchWalk(cs, ctx1);
      FlattenAfterChildren(n, ctx, key, counters);
    }
  }

  lemma {:induction false} FlattenAllKeysMatchWalk(ns: seq<Node>, ctx: Ctx)
    requires forall n :: n in ns ==> n.typ.TypeName?
    decreases NodesSize(ns), 1
    ensures var w := Walk(PreorderAll(ns), ctx.counters, ctx.used);
            var r := FlattenAll(ns, ctx);
            && (r.Err? ==> w.Clash? && r.error == DuplicateKey(w.key))
            && (r.Ok? ==> && w.Done? && |w.keys| == |PreorderAll(ns)| && r.value.0 == ChildKeys(ns, w.keys)
                          && r.value.1.counters == w.counters && r.value.1.used == w.used)
  {
    if ns != [] {
      assert ns[0] in ns;
      assert PreorderAll(ns) == Preorder(ns[0]) + PreorderAll(ns[1..]);
      FlattenKeysMatchWalk(ns[0], ctx);
      WalkAppend(Preorder(ns[0]), PreorderAll(ns[1..]), ctx.counters, ctx.used);
      var first := Flatten(ns[0], ctx);
      if first.Ok? {
        var (k, c1) := first.value;
        FlattenAllKeysMatchWalk(ns[1..], c1);
        var w0 := Walk(Preorder(ns[0]), ctx.counters, ctx.used);
        var w1 := Walk(PreorderAll(ns[1..]), c1.counters, c1.used);
        if FlattenAll(ns[1..], c1).Ok? {
          var ks := w0.keys + w1.keys;
          var m := |Preorder(ns[0])|;
          assert ks[0] == k && ks[m..] == w1.keys;
          assert ChildKeys(ns, ks) == [k] + ChildKeys(ns[1..], w1.keys);
        }
      }
    }
  }

  /** The scan of a node's pre-order takes the node's key, then scans its concrete children. */
  lemma WalkPreorder(n: Node, counters: map<string, nat>, used: set<string>, key: string, counters1: map<string, nat>)
    requires n.typ.TypeName? && AssignKey(n, counters) == (key, counters1) && key !in used
    ensures Walk(Preorder(n), counters, used)
            == PrefixScan([key], Walk(PreorderAll(Expand(n.children)), counters1, used + {key}))
  {
    var pre := Preorder(n);
    assert pre[0] == n && pre[1..] == PreorderAll(Expand(n.children));
  }

  lemma LayoutCons(n: Node, key: string, ks: seq<string>)
    requires n.typ.TypeName? && |ks| == |PreorderAll(Expand(n.children))|
    ensures |[key] + ks| == |Preorder(n)|
    ensures Layout(n, [key] + ks)
            == LayoutAll(Expand(n.children), ks)[key := MakeElement(n, ChildKeys(Expand(n.children), ks))]
  {
    assert ([key] + ks)[0] == key && ([key] + ks)[1..] == ks;
  }

  lemma LayoutAllAppend(ns: seq<Node>, ks0: seq<string>, ks1: seq<string>)
    requires ns != [] && forall n :: n in ns ==> n.typ.TypeName?
    requires |ks0| == |Preorder(ns[0])| && |ks1| == |PreorderAll(ns[1..])|
    ensures |ks0 + ks1| == |PreorderAll(ns)|
    ensures LayoutAll(ns, ks0 + ks1) == Layout(ns[0], ks0) + LayoutAll(ns[1..], ks1)
  {
    assert ns[0] in ns;
    var ks := ks0 + ks1;
    assert ks[..|ks0|] == ks0 && ks[|ks0|..] == ks1;
  }

  lemma UpdateUnion<K, V>(a: map<K, V>, b: map<K, V>, k: K, v: V)
    ensures (a + b)[k := v] == a + b[k := v]
  {
  }

  lemma UnionAssoc<K, V>(a: map<K, V>, b: map<K, V>, c: map<K, V>)
    ensures (a + b) + c == a + (b + c)
  {
  }

  /**
   * A successful `flattenNode` adds exactly the layout of the node under
   * its pre-order keys to the elements it found.
   */
  lemma {:induction false} FlattenLayout(n: Node, ctx: Ctx)
    requires n.typ.TypeName?
    decreases NodeSize(n), 0
    ensures var w := Walk(Preorder(n), ctx.counters, ctx.used);
            var r := Flatten(n, ctx);
            r.Ok? ==> && w.Done? && |w.keys| == |Preorder(n)|
                      && r.value.1.elements == ctx.elements + Layout(n, w.keys)
  {
    FlattenKeysMatchWalk(n, ctx);
    var (key, counters) := AssignKey(n, ctx.counters);
    ExpandSmaller(n);
    var cs := Expand(n.children);
    if key !in ctx.used {
      var ctx1 := Ctx(counters, ctx.used + {key}, ctx.elements);
      var rest := FlattenAll(cs, ctx1);
      FlattenAfterChildren(n, ctx, key, counters);
      WalkPreorder(n, ctx.counters, ctx.used, key, counters);
      if rest.Ok? {
        FlattenAllLayout(cs, ctx1);
        FlattenAllKeysMatchWalk(cs, ctx1);
        var w1 := Walk(PreorderAll(cs), counters, ctx.used + {key});
        LayoutCons(n, key, w1.keys);
        UpdateUnion(ctx.elements, LayoutAll(cs, w1.keys), key, MakeElement(n, ChildKeys(cs, w1.keys)));
      }
    }
  }

  lemma {:induction false} FlattenAllLayout(ns: seq<Node>, ctx: Ctx)
    requires forall n :: n in ns ==> n.typ.TypeName?
    decreases NodesSize(ns), 1
    ensures var w := Walk(PreorderAll(ns), ctx.counters, ctx.used);
            var r := FlattenAll(ns, ctx);
            r.Ok? ==> && w.Done? && |w.keys| == |PreorderAll(ns)|
                      && r.value.1.elements == ctx.elements + LayoutAll(ns, w.keys)
  {
    if ns != [] {
      assert ns[0] in ns;
      var first := Flatten(ns[0], ctx);
      if first.Ok? {
        var c1 := first.value.1;
        if FlattenAll(ns[1..], c1).Ok? {
          assert PreorderAll(ns) == Preorder(ns[0]) + PreorderAll(ns[1..]);
          FlattenKeysMatchWalk(ns[0], ctx);
          FlattenLayout(ns[0], ctx);
          FlattenAllLayout(ns[1..], c1);
          WalkAppend(Preorder(ns[0]), PreorderAll(ns[1..]), ctx.counters, ctx.used);
          var w0 := Walk(Preorder(ns[0]), ctx.counters, ctx.used);
          var w1 := Walk(PreorderAll(ns[1..]), c1.counters, c1.used);
          LayoutAllAppend(ns, w0.keys, w1.keys);
          UnionAssoc(ctx.elements, Layout(ns[0], w0.keys), LayoutAll(ns[1..], w1.keys));
        }
      }
    }
  }

  /**
   * When `flattenNode` succeeds it adds one element under each newly used
   * key, leaves earlier elements alone, keeps every listed child an
   * element, and the new element stands for the node.
   */
  lemma {:induction false} FlattenBuildsElements(n: Node, ctx: Ctx)
    requires n.typ.TypeName? && Inv(ctx)
    decreases NodeSize(n), 0
    ensures var r := Flatten(n, ctx);
            r.Ok? ==>
              && ctx.used <= r.value.1.used
              && Inv(r.value.1)
              && Extends(ctx.elements, r.value.1.elements)
              && r.value.1.elements.Keys == ctx.elements.Keys + (r.value.1.used - ctx.used)
              && Renders(r.value.1.elements, r.value.0, n)
  {
    var (key, counters) := AssignKey(n, ctx.counters);
    ExpandSmaller(n);
    var cs := Expand(n.children);
    if key !in ctx.used {
      var ctx1 := Ctx(counters, ctx.used + {key}, ctx.elements);
      FlattenAllBuildsElements(cs, ctx1);
      FlattenAfterChildren(n, ctx, key, counters);
      var rest := FlattenAll(cs, ctx1);
      if rest.Ok? {
        var (ks, c) := rest.value;
        assert key !in c.elements;
        AddElement(c.elements, key, n, ks);
      }
    }
  }

  /**
   * Adding the element of `n` under a new key, over elements that stand for
   * its concrete children, keeps every listed child an element, and the new
   * element stands for `n`.
   */
  lemma AddElement(els: map<string, UIElement>, key: string, n: Node, ks: seq<string>)
    requires n.typ.TypeName? && key !in els && Closed(els)
    requires |ks| == |Expand(n.children)|
    requires forall j :: 0 <= j < |ks| ==> Renders(els, ks[j], Expand(n.children)[j])
    ensures Extends(els, els[key := MakeElement(n, ks)])
    ensures Closed(els[key := MakeElement(n, ks)])
    ensures Renders(els[key := MakeElement(n, ks)], key, n)
  {
    var cs := Expand(n.children);
    var els' := els[key := MakeElement(n, ks)];
    assert Extends(els, els');
    forall j | 0 <= j < |cs| ensures Renders(els', ks[j], cs[j]) {
      RendersExtends(els, els', ks[j], cs[j]);
    }
    forall k, ch | k in els' && els'[k].children.Some? && ch in els'[k].children.value ensures ch in els' {
      if k == key {
        var j :| 0 <= j < |ks| && ks[j] == ch;
      }
    }
  }

  lemma {:induction false} FlattenAllBuildsElements(ns: seq<Node>, ctx: Ctx)
    requires forall n :: n in ns ==> n.typ.TypeName?
    requires Inv(ctx)
    decreases NodesSize(ns), 1
    ensures var r := FlattenAll(ns, ctx);
            r.Ok? ==>
              && ctx.used <= r.value.1.used
              && Inv(r.value.1)
              && Extends(ctx.elements, r.value.1.elements)
              && r.value.1.elements.Keys == ctx.elements.Keys + (r.value.1.used - ctx.used)
              && |r.value.0| == |ns|
              && forall j :: 0 <= j < |ns| ==> Renders(r.value.1.elements, r.value.0[j], ns[j])
  {
    if ns != [] {
      assert ns[0] in ns;
      FlattenBuildsElements(ns[0], ctx);
      var first := Flatten(ns[0], ctx);
      if first.Ok? {
        var (k, c1) := first.value;
        FlattenAllBuildsElements(ns[1..], c1);
        var rest := FlattenAll(ns[1..], c1);
        if rest.Ok? {
          var (ks, c2) := rest.value;
          assert FlattenAll(ns, ctx) == Ok(([k] + ks, c2));
          RendersExtends(c1.elements, c2.elements, k, ns[0]);
          FlattenAllRenders(ns, k, ks, c2.elements);
        }
      }
    }
  }

  /** The elements standing for the head and for the tail stand for the whole list. */
  lemma FlattenAllRenders(ns: seq<Node>, k: string, ks: seq<string>, els: map<string, UIElement>)
    requires |ns| == |ks| + 1
    requires Renders(els, k, ns[0])
    requires forall j :: 0 <= j < |ks| ==> Renders(els, ks[j], ns[1..][j])
    ensures forall j :: 0 <= j < |ns| ==> Renders(els, ([k] + ks)[j], ns[j])
  {
  }

  // ---------------------------------------------------------------------------
  // Fragments are transparent
  // ---------------------------------------------------------------------------

  /** Expansion keeps order: a concatenation expands piecewise. */
  lemma {:induction false} ExpandAppend(a: seq<Raw>, b: seq<Raw>)
    ensures Expand(a + b) == Expand(a) + Expand(b)
  {
    if a == [] {
      assert a + b == b;
    } else {
      assert (a + b)[1..] == a[1..] + b;
      ExpandAppend(a[1..], b);
    }
  }

  /** A fragment among children stands for its own children, in its place. */
  lemma ExpandSplicesFragment(a: seq<Raw>, f: Raw, b: seq<Raw>)
    requires IsJfxNode(f) && f.node.typ == Fragment
    ensures Expand(a + [f] + b) == Expand(a + f.node.children + b)
  {
    ExpandAppend(a + [f], b);
    ExpandAppend(a, [f]);
    ExpandAppend(a + f.node.children, b);
    ExpandAppend(a, f.node.children);
    assert Expand([f]) == ExpandOne(f) + Expand([]);
  }

  /** A child that is not a node leaves no trace. */
  lemma ExpandDropsNonNode(a: seq<Raw>, x: Raw, b: seq<Raw>)
    requires !IsJfxNode(x)
    ensures Expand(a + [x] + b) == Expand(a + b)
  {
    ExpandAppend(a + [x], b);
    ExpandAppend(a, [x]);
    ExpandAppend(a, b);
    assert Expand([x]) == ExpandOne(x) + Expand([]);
  }

  /**
   * The flattener sees a node's children only through their expansion: two
   * nodes alike in all else whose children expand alike flatten alike.
   */
  lemma FlattenSeesExpansionOnly(n1: Node, n2: Node, ctx: Ctx)
    requires n1.typ.TypeName? && n1.(children := []) == n2.(children := [])
    requires Expand(n1.children) == Expand(n2.children)
    ensures Flatten(n1, ctx) == Flatten(n2, ctx)
  {
  }

  /** Wrapping some children of the root in a fragment changes nothing in the Spec. */
  lemma RenderFragmentTransparent(n: Node, a: seq<Raw>, f: Raw, b: seq<Raw>, options: Option<RenderOptions>)
    requires IsJfxNode(f) && f.node.typ == Fragment
    ensures RenderOf(NodeV(n.(children := a + [f] + b)), options)
         == RenderOf(NodeV(n.(children := a + f.node.children + b)), options)
  {
    ExpandSplicesFragment(a, f, b);
    if n.typ.TypeName? {
      FlattenSeesExpansionOnly(n.(children := a + [f] + b), n.(children := a + f.node.children + b), EmptyCtx);
    }
  }

  /** Two concrete nodes that flatten alike, whatever the state they meet. */
  ghost predicate FlattenAlike(a: Node, b: Node) {
    a.typ.TypeName? && b.typ.TypeName? && forall ctx :: Flatten(a, ctx) == Flatten(b, ctx)
  }

  /** Replacing one concrete node by one that flattens alike leaves the children loop unchanged. */
  lemma {:induction false} FlattenAllReplace(us: seq<Node>, a: Node, b: Node, vs: seq<Node>, ctx: Ctx)
    requires forall n :: n in us ==> n.typ.TypeName?
    requires forall n :: n in vs ==> n.typ.TypeName?
    requires FlattenAlike(a, b)
    ensures FlattenAll(us + [a] + vs, ctx) == FlattenAll(us + [b] + vs, ctx)
    decreases |us|
  {
    var sa, sb := us + [a] + vs, us + [b] + vs;
    if us == [] {
      assert sa[0] == a && sa[1..] == vs;
      assert sb[0] == b && sb[1..] == vs;
      assert Flatten(a, ctx) == Flatten(b, ctx);
    } else {
      assert us[0] in us;
      assert sa[0] == us[0] && sa[1..] == us[1..] + [a] + vs;
      assert sb[0] == us[0] && sb[1..] == us[1..] + [b] + vs;
      var first := Flatten(us[0], ctx);
      if first.Ok? {
        FlattenAllReplace(us[1..], a, b, vs, first.value.1);
      }
    }
  }

  /**
   * Flattening alike is a congruence: a node flattens alike after one of
   * its children is replaced by a node that flattens alike.
   */
  lemma ReplaceChild(p: Node, xs: seq<Raw>, a: Node, b: Node, ys: seq<Raw>)
    requires p.typ.TypeName? && FlattenAlike(a, b)
    ensures FlattenAlike(p.(children := xs + [NodeV(a)] + ys), p.(children := xs + [NodeV(b)] + ys))
  {
    ExpandAppend(xs + [NodeV(a)], ys);
    ExpandAppend(xs, [NodeV(a)]);
    ExpandAppend(xs + [NodeV(b)], ys);
    ExpandAppend(xs, [NodeV(b)]);
    assert Expand([NodeV(a)]) == ExpandOne(NodeV(a)) + Expand([]) == [a];
    assert Expand([NodeV(b)]) == ExpandOne(NodeV(b)) + Expand([]) == [b];
    var p1, p2 := p.(children := xs + [NodeV(a)] + ys), p.(children := xs + [NodeV(b)] + ys);
    forall ctx: Ctx
      ensures Flatten(p1, ctx) == Flatten(p2, ctx)
    {
      var (key, counters) := AssignKey(p, ctx.counters);
      if key !in ctx.used {
        FlattenAllReplace(Expand(xs), a, b, Expand(ys), Ctx(counters, ctx.used + {key}, ctx.elements));
        FlattenAfterChildren(p1, ctx, key, counters);
        FlattenAfterChildren(p2, ctx, key, counters);
      }
    }
  }

  /** Wrapping some children of any concrete node in a fragment gives a node that flattens alike. */
  lemma WrapInFragment(p: Node, xs: seq<Raw>, f: Raw, ys: seq<Raw>)
    requires p.typ.TypeName? && IsJfxNode(f) && f.node.typ == Fragment
    ensures FlattenAlike(p.(children := xs + f.node.children + ys), p.(children := xs + [f] + ys))
  {
    ExpandSplicesFragment(xs, f, ys);
    forall ctx: Ctx
      ensures Flatten(p.(children := xs + f.node.children + ys), ctx) == Flatten(p.(children := xs + [f] + ys), ctx)
    {
      FlattenSeesExpansionOnly(p.(children := xs + f.node.children + ys), p.(children := xs + [f] + ys), ctx);
    }
  }

  /** Roots that flatten alike render alike. */
  lemma RenderAlike(a: Node, b: Node, options: Option<RenderOptions>)
    requires FlattenAlike(a, b)
    ensures RenderOf(NodeV(a), options) == RenderOf(NodeV(b), options)
  {
    assert Flatten(a, EmptyCtx) == Flatten(b, EmptyCtx);
  }

  // ---------------------------------------------------------------------------
  // What `render` promises
  // ---------------------------------------------------------------------------

  /**
   * A concrete root renders exactly when the keys of its pre-order nodes are
   * pairwise distinct; otherwise the call fails with `DuplicateKey` naming
   * the first key, in pre-order, that repeats an earlier one.
   */
  lemma RenderFailsOnFirstDuplicate(n: Node, options: Option<RenderOptions>)
    requires n.typ.TypeName?
    ensures var ks := KeysOf(Preorder(n), map[]);
            var r := RenderOf(NodeV(n), options);
            && (r.Ok? <==> Fresh(ks, {}))
            && (r.Err? ==> exists j :: 0 <= j < |ks| && r.error == DuplicateKey(ks[j])
                                          && Fresh(ks[..j], {}) && ks[j] in ks[..j])
  {
    FlattenKeysMatchWalk(n, EmptyCtx);
    WalkOutcome(Preorder(n), map[], {});
  }

  /**
   * On success the Spec holds one element per concrete node, under exactly
   * the pre-order keys; the root is the root node's key; every `children`
   * entry names an element; the element tree stands for the node tree;
   * and the state is attached only when the caller gave one.
   */
  lemma RenderSpecShape(n: Node, options: Option<RenderOptions>)
    requires n.typ.TypeName?
    requires RenderOf(NodeV(n), options).Ok?
    ensures var ks := KeysOf(Preorder(n), map[]);
            var spec := RenderOf(NodeV(n), options).value;
            && spec.root == ks[0]
            && spec.elements.Keys == KeySet(ks)
            && |spec.elements| == |Preorder(n)|
            && Closed(spec.elements)
            && Renders(spec.elements, spec.root, n)
            && |ks| == |Preorder(n)| && spec.elements == Layout(n, ks)
            && spec.state == StateOf(options)
  {
    var ks := KeysOf(Preorder(n), map[]);
    FlattenKeysMatchWalk(n, EmptyCtx);
    FlattenBuildsElements(n, EmptyCtx);
    FlattenLayout(n, EmptyCtx);
    assert map[] + Layout(n, ks) == Layout(n, ks);
    WalkOutcome(Preorder(n), map[], {});
    FreshKeySetSize(ks, {});
    var spec := RenderOf(NodeV(n), options).value;
    assert spec.elements.Keys == KeySet(ks);
    assert |spec.elements| == |spec.elements.Keys|;
  }

  /** A tree in which no concrete node has an explicit key always renders. */
  lemma RenderWithoutExplicitKeys(n: Node, options: Option<RenderOptions>)
    requires n.typ.TypeName?
    requires forall m :: m in Preorder(n) ==> m.key.None?
    ensures RenderOf(NodeV(n), options).Ok?
  {
    AutoKeysFresh(Preorder(n), map[]);
    RenderFailsOnFirstDuplicate(n, options);
  }

  /** A node of type `t` with no props, no children, no key and no metadata. */
  function Leaf(t: string): Node {
    Node(TypeName(t), map[], [], None, Undefined, Undefined, Undefined, Undefined)
  }

  /** The element of a leaf: its type, and nothing else. */
  function LeafElement(t: string): UIElement {
    UIElement(t, map[], None, None, None, None, None)
  }

  /**
   * Flattening a leaf takes the next generated key of its lower-cased type
   * and adds the leaf's element under it.
   */
  lemma FlattenLeaf(t: string, ctx: Ctx)
    requires GenKey(t, ctx.counters).0 !in ctx.used
    ensures var (key, counters) := GenKey(t, ctx.counters);
            Flatten(Leaf(t), ctx)
            == Ok((key, Ctx(counters, ctx.used + {key}, ctx.elements[key := LeafElement(t)])))
  {
    var (key, counters) := GenKey(t, ctx.counters);
    assert Expand(Leaf(t).children) == [];
    assert FlattenAll([], Ctx(counters, ctx.used + {key}, ctx.elements))
        == Ok(([], Ctx(counters, ctx.used + {key}, ctx.elements)));
    assert MakeElement(Leaf(t), []) == LeafElement(t);
  }

  /** `<Card />` renders to one element keyed "card-1", on every call. */
  lemma RenderSingleCard()
    ensures RenderOf(NodeV(Leaf("Card")), None)
         == Ok(Spec("card-1", map["card-1" := LeafElement("Card")], None))
  {
    assert Lower("Card") == "card";
    assert Decimal(1) == "1";
    assert Count(map[], "card") == 0;
    assert AutoKey("card", 1) == "card-1";
    FlattenLeaf("Card", EmptyCtx);
  }

  /** Flattening three leaves in a row: each takes the next generated key of its type. */
  lemma FlattenThreeLeaves(a: string, b: string, c: string, ctx: Ctx,
                           ka: string, kb: string, kc: string,
                           c1: map<string, nat>, c2: map<string, nat>, c3: map<string, nat>)
    requires GenKey(a, ctx.counters) == (ka, c1) && GenKey(b, c1) == (kb, c2) && GenKey(c, c2) == (kc, c3)
    requires ka !in ctx.used && kb !in ctx.used + {ka} && kc !in ctx.used + {ka, kb}
    ensures FlattenAll([Leaf(a), Leaf(b), Leaf(c)], ctx)
         == Ok(([ka, kb, kc],
                Ctx(c3, ctx.used + {ka} + {kb} + {kc},
                    ctx.elements[ka := LeafElement(a)][kb := LeafElement(b)][kc := LeafElement(c)])))
  {
    FlattenLeaf(a, ctx);
    var ctx1 := Ctx(c1, ctx.used + {ka}, ctx.elements[ka := LeafElement(a)]);
    FlattenLeaf(b, ctx1);
    var ctx2 := Ctx(c2, ctx1.used + {kb}, ctx1.elements[kb := LeafElement(b)]);
    FlattenLeaf(c, ctx2);
    var ctx3 := Ctx(c3, ctx2.used + {kc}, ctx2.elements[kc := LeafElement(c)]);
    assert [Leaf(c)] + [] == [Leaf(c)] && [kc] + [] == [kc];
    assert [Leaf(b)] + [Leaf(c)] == [Leaf(b), Leaf(c)] && [kb] + [kc] == [kb, kc];
    assert [Leaf(a)] + [Leaf(b), Leaf(c)] == [Leaf(a), Leaf(b), Leaf(c)] && [ka] + [kb, kc] == [ka, kb, kc];
    FlattenAllConsOk(Leaf(c), [], ctx2, kc, ctx3, [], ctx3);
    FlattenAllConsOk(Leaf(b), [Leaf(c)], ctx1, kb, ctx2, [kc], ctx3);
    FlattenAllConsOk(Leaf(a), [Leaf(b), Leaf(c)], ctx, ka, ctx1, [kb, kc], ctx3);
  }

  /** The loop over children goes on after a child that flattened. */
  lemma FlattenAllConsOk(n: Node, rest: seq<Node>, ctx: Ctx, k: string, c1: Ctx, ks: seq<string>, c2: Ctx)
    requires n.typ.TypeName? && forall m :: m in rest ==> m.typ.TypeName?
    requires Flatten(n, ctx) == Ok((k, c1)) && FlattenAll(rest, c1) == Ok((ks, c2))
    ensures FlattenAll([n] + rest, ctx) == Ok(([k] + ks, c2))
  {
    assert ([n] + rest)[0] == n && ([n] + rest)[1..] == rest;
  }

  /** `<Stack><Card /><Text /><Card /></Stack>`. */
  function Stack(): Node {
    Node(TypeName("Stack"), map[],
         [NodeV(Leaf("Card")), NodeV(Leaf("Text")), NodeV(Leaf("Card"))],
         None, Undefined, Undefined, Undefined, Undefined)
  }

  lemma StackNames()
    ensures Lower("Stack") == "stack" && Lower("Card") == "card" && Lower("Text") == "text"
  {
  }

  lemma ExpandStack()
    ensures Expand(Stack().children) == [Leaf("Card"), Leaf("Text"), Leaf("Card")]
  {
    var raws := Stack().children;
    assert raws[1..][1..][1..] == [];
    assert Expand(raws[2..]) == [Leaf("Card")];
  }

  /** The keys the stack's four nodes take, one after the other. */
  lemma StackKeys()
    ensures GenKey("Stack", map[]) == ("stack-1", map["stack" := 1])
    ensures GenKey("Card", map["stack" := 1]) == ("card-1", map["stack" := 1, "card" := 1])
    ensures GenKey("Text", map["stack" := 1, "card" := 1]) == ("text-1", map["stack" := 1, "card" := 1, "text" := 1])
    ensures GenKey("Card", map["stack" := 1, "card" := 1, "text" := 1])
         == ("card-2", map["stack" := 1, "card" := 1, "text" := 1, "card" := 2])
  {
    StackNames();
    assert Decimal(1) == "1" && Decimal(2) == "2";
    assert AutoKey("stack", 1) == "stack-1" && AutoKey("card", 1) == "card-1";
    assert AutoKey("text", 1) == "text-1" && AutoKey("card", 2) == "card-2";
    assert Count(map["stack" := 1, "card" := 1, "text" := 1], "card") == 1;
  }

  /** The element map the stack renders to, in the order the walk stores it. */
  function StackElements(): map<string, UIElement> {
    map["card-1" := LeafElement("Card"),
        "text-1" := LeafElement("Text"),
        "card-2" := LeafElement("Card"),
        "stack-1" := UIElement("Stack", map[], Some(["card-1", "text-1", "card-2"]), None, None, None, None)]
  }

  lemma StackKeysDistinct()
    ensures "card-1" !in {"stack-1"} && "text-1" !in {"stack-1"} + {"card-1"}
    ensures "card-2" !in {"stack-1"} + {"card-1", "text-1"}
  {
  }

  /** The stack's children, flattened after the stack took `stack-1`. */
  lemma FlattenStackChildren() returns (after: Ctx)
    ensures FlattenAll(Expand(Stack().children), Ctx(map["stack" := 1], EmptyCtx.used + {"stack-1"}, map[]))
         == Ok((["card-1", "text-1", "card-2"], after))
    ensures after.elements == map["card-1" := LeafElement("Card"), "text-1" := LeafElement("Text"),
                                  "card-2" := LeafElement("Card")]
  {
    StackKeys();
    var c0 := map["stack" := 1];
    var c3 := c0["card" := 1]["text" := 1]["card" := 2];
    var ctx1 := Ctx(c0, {"stack-1"}, map[]);
    assert ctx1 == Ctx(c0, EmptyCtx.used + {"stack-1"}, map[]);
    StackKeysDistinct();
    FlattenThreeLeaves("Card", "Text", "Card", ctx1,
                       "card-1", "text-1", "card-2", c0["card" := 1], c0["card" := 1]["text" := 1], c3);
    ExpandStack();
    after := Ctx(c3, {"stack-1"} + {"card-1"} + {"text-1"} + {"card-2"},
                 map["card-1" := LeafElement("Card"), "text-1" := LeafElement("Text"),
                     "card-2" := LeafElement("Card")]);
  }

  lemma FlattenStack() returns (c: Ctx)
    ensures Flatten(Stack(), EmptyCtx) == Ok(("stack-1", c)) && c.elements == StackElements()
  {
    assert GenKey("Stack", map[]) == ("stack-1", map["stack" := 1]) by { StackKeys(); }
    var kids := ["card-1", "text-1", "card-2"];
    var after := FlattenStackChildren();
    FlattenAfterChildren(Stack(), EmptyCtx, "stack-1", map["stack" := 1]);
    var e := MakeElement(Stack(), kids);
    assert e == UIElement("Stack", map[], Some(kids), None, None, None, None);
    c := after.(elements := after.elements["stack-1" := e]);
  }

  /**
   * The stack renders to `stack-1` whose children are `card-1`, `text-1`
   * and `card-2`, in that order: each type counts on its own, and the
   * second card takes the next card number.
   */
  lemma RenderStack()
    ensures RenderOf(NodeV(Stack()), None) == Ok(Spec("stack-1", StackElements(), None))
  {
    var c := FlattenStack();
  }
}
