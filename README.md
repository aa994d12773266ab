# jfx: a verified model of the JSX-to-Spec compiler

jfx lets authors write a UI as a JSX tree and compiles it into a flat,
serialisable "Spec": one root key plus a map from unique keys to UI
elements, with an optional initial state. This Dafny project models the
three parts of that compiler and proves what each promises.

- **The node factory** (`src/jsx-runtime.ts`, and its copy `component` in
  `src/types.ts`). `jsx`/`jsxs` build a node from a tag and a raw property
  bag. The six reserved names go out of the props. `children` is
  normalised. `key` becomes a string. A function tag is simply called with
  the whole bag. Modules `Types` and `JsxRuntime`.
- **The flattener** (`src/render.ts`). `render` walks the tree depth-first
  in pre-order. It keeps a counter per lower-cased type, a set of used keys
  and the growing element map. It gives every concrete node an explicit or
  generated key (`card-1`, `card-2`, …), splices fragment children in
  place, and rejects three inputs: a value that is not a node, a fragment
  at the root, and a duplicate key. Module `Render` holds the walk twice:
  `Flatten`/`FlattenAll` are its specification as functions, and the class
  `FlattenContext` holds the three pieces of mutable state as fields. Its
  methods `GenerateKey` and `FlattenNode` are proved to compute what the
  specification says. Module `RenderProperties` proves what one call of
  `render` guarantees.
- **The node type and brand check** (`src/types.ts`). JavaScript values
  are the datatype `Types.Raw`. A value carries the node brand exactly when
  it is a `NodeV`; the fragment marker is `NodeType.Fragment`. Conditions,
  action bindings, `repeat` and `watch` values are opaque `Raw` values that
  are copied and never looked into.

The main results:

- The flattener fails exactly when the keys of the concrete nodes, taken in
  pre-order, are not pairwise distinct. It then reports the first key that
  repeats an earlier one (`RenderFailsOnFirstDuplicate`).
- On success there is one element per concrete node, under exactly the
  pre-order keys. The element map is determined by the tree and those keys
  (`Layout`): each node's element sits under its own key, with its type
  and props, metadata present exactly when defined, and as `children`
  exactly the keys of its concrete children in source order
  (`RenderSpecShape`, `RenderStack`).
- A generated key is `lower(type)-n`, where `n` is one more than the number
  of earlier auto-keyed nodes of that lower-cased type. Explicit keys never
  move a counter (`KeyOfNode`). Generated keys never collide, so a tree
  without explicit keys always renders (`RenderWithoutExplicitKeys`).
- Fragments are transparent at any depth. Wrapping some children of any
  node in a fragment gives a node that flattens alike on every state
  (`WrapInFragment`). Replacing a child by a node that flattens alike gives
  a parent that flattens alike (`ReplaceChild`), and so on up to the root.
  Roots that flatten alike render to the same Spec (`RenderAlike`).

## Model

| member | source | states |
|---|---|---|
| Text.Lower | src/render.ts:61 | the lower-cased type has the same length and lower-cases each character (ASCII) |
| Text.Decimal | src/render.ts:64 | the counter's numeral is non-empty, all digits, and ends in the last digit of the count |
| Text.DecimalInjective | src/render.ts:64 | distinct counts give distinct numerals |
| Text.IntString | src/jsx-runtime.ts:85 | an integer's numeral is non-empty and starts with a minus sign exactly when the integer is negative |
| Text.IntStringInjective | src/jsx-runtime.ts:85 | distinct integers give distinct numerals |
| Types.IsJfxNode | src/types.ts:143-149 | a value with the node brand is a non-null object, and normalisation keeps it as a child |
| Types.JsString | src/jsx-runtime.ts:85 | `String` leaves a string as it is; a numeral is non-empty and signed exactly for negatives; an empty array gives the empty string, and a one-element array holding a non-nullish value gives that value's string |
| Types.JoinItems | src/jsx-runtime.ts:85 | an array of nullish values joins to its separators only: a string of commas, one fewer than it has elements |
| Types.NumericKeysDistinct | src/jsx-runtime.ts:85 | distinct integer keys stay distinct once coerced to strings |
| Types.StripReserved | src/types.ts:103-111 | the filtered bag holds exactly the names outside the six reserved ones, each with its original value |
| Types.FilterReserved | src/types.ts:105-111 | the copy loop yields exactly the bag without the reserved names |
| Types.Normalize | src/types.ts:113-128 | normalised children never hold a nullish value, a boolean or an array |
| Types.NormalizeChildrenRaw | src/types.ts:113-128 | the push loop computes the normalised children: nothing for a placeholder, the flattened array in order, or the value alone |
| Types.NormalizeItemsAppend | src/types.ts:115-125 | flattening keeps left-to-right order: a concatenation normalises piecewise |
| Types.NormalizeItemsFlat | src/types.ts:115-125 | a list that is already flat and free of placeholders normalises to itself |
| Types.NormalizeIdempotent | src/types.ts:113-128 | normalising normalised children changes nothing |
| Types.NormalizeDropsHole | src/types.ts:118 | a nullish or boolean entry is dropped at any position |
| Types.NormalizeSplicesArray | src/types.ts:119-120 | a nested array is spliced in its own place |
| Types.BuildNode | src/types.ts:88-99 | the built node has the given type, the non-reserved props, exactly the normalised `children` value, a string key exactly when the key is not nullish, and the four metadata values as given |
| Types.Component | src/types.ts:85-101 | a component's nodes carry its type name (never the fragment marker), the non-reserved props, normalised children, and a key exactly when one is given |
| JsxRuntime.NormalizeChildren | src/jsx-runtime.ts:24-41 | the runtime normaliser computes the same normalised children as the one in types.ts |
| JsxRuntime.ExtractProps | src/jsx-runtime.ts:46-56 | the copy loop yields exactly the bag without the reserved names |
| JsxRuntime.CreateNode | src/jsx-runtime.ts:69-94 | a function tag's node is what the function returns on the unfiltered bag; otherwise the node has the tag as type, the non-reserved props, normalised children, the key as a string exactly when it is not nullish, and the metadata copied |
| JsxRuntime.Jsx | src/jsx-runtime.ts:101-109 | a non-nullish third-argument key overwrites the node's key with its string form; everything else is the factory's node |
| JsxRuntime.Jsxs | src/jsx-runtime.ts:115-123 | the same as `Jsx`, so the two factories agree |
| JsxRuntime.NullPropsGiveBareNode | src/jsx-runtime.ts:73-94 | a null bag gives empty props, no children, no key and no metadata |
| JsxRuntime.ComponentTagMatchesNameTag | src/jsx-runtime.ts:76-94 | using `component(name)` as a tag builds the same node as using the name |
| JsxRuntime.KeyPropLifted | src/jsx-runtime.ts:83-85 | an explicit `key` prop leaves the props and becomes the node's key |
| Render.Expand | src/render.ts:71-83 | expansion yields only concrete (non-fragment) nodes |
| Render.ExpandChildren | src/render.ts:71-83 | the push loop computes the expansion: non-nodes dropped, fragments spliced recursively, order kept |
| Render.GenKey | src/render.ts:57-65 | the lower-cased type's counter goes up by one, every other counter stays, and the key is `base-n` for the new count |
| Render.AssignKey | src/render.ts:96 | an explicit key is used as it is and moves no counter; otherwise the type's counter goes up by one and the key names the new count |
| Render.Defined | src/render.ts:124-138 | a metadata field is absent exactly when it is `undefined`, and otherwise holds the value itself |
| Render.MakeElement | src/render.ts:114-138 | the element has the node's type and props, `children` exactly when there are child keys and then exactly those, and each metadata field, holding the node's value, exactly when it is not `undefined` |
| Render.Flatten | src/render.ts:89-143 | a failure is always a duplicate key; on success the node's key was unused before and is used after, used keys only grow, and the element map keeps its keys and gains the node's key |
| Render.FlattenAll | src/render.ts:106-112 | a failure is always a duplicate key; on success there is one key per child, each used and naming an element, and used keys and element keys only grow |
| Render.FlattenClash | src/render.ts:96-102 | a node whose key is already used fails at once, naming that key |
| Render.StateOf | src/render.ts:42-44 | without options there is no state; otherwise the state is the one the caller gave |
| Render.RenderOf | src/render.ts:23-47 | a non-node fails with InvalidInput and a fragment root with InvalidRoot; a success has a concrete root and carries the caller's state |
| Render.BuildElement | src/render.ts:114-138 | the element built field by field is the node's element: children only when non-empty, each metadata field only when defined |
| Render.FlattenContext.constructor | src/render.ts:34-36 | each call starts with empty counters, no used keys and no elements |
| Render.FlattenContext.GenerateKey | src/render.ts:57-65 | bumps the lower-cased type's counter and returns `base-count`; the used keys and elements are unchanged |
| Render.FlattenContext.FlattenNode | src/render.ts:89-143 | the recursive walk over the context's fields fails as the specification fails, and otherwise returns the specified key and leaves the specified state |
| Render.Render | src/render.ts:23-47 | the checks and one walk over fresh state compute exactly the specified Spec or error |
| RenderProperties.Preorder | src/render.ts:106-112 | the nodes visited start with the node itself and are all concrete |
| RenderProperties.Walk | src/render.ts:96-103 | a key scan that completes gives one key per node scanned |
| RenderProperties.ChildKeysAt | src/render.ts:107-112 | the j-th child's key is the pre-order key at the start of the j-th child's block |
| RenderProperties.KeyOfNode | src/render.ts:57-65 | in a sequence of nodes, a node's key is its explicit key, or `lower(type)-n` with n one more than the earlier auto-keyed nodes of that lower-cased type |
| RenderProperties.AutoKeyInjective | src/render.ts:64 | two generated keys are equal only for the same base and count |
| RenderProperties.WalkOutcome | src/render.ts:96-103 | the key scan completes exactly when the keys are fresh, and otherwise stops at the first key that was used before or repeats an earlier one |
| RenderProperties.AutoKeysDistinct | src/render.ts:57-65 | two nodes without explicit keys at different places of a sequence get different keys |
| RenderProperties.AutoKeysFresh | src/render.ts:57-65 | keys generated along a sequence of nodes without explicit keys are pairwise distinct |
| RenderProperties.FlattenKeysMatchWalk | src/render.ts:89-112 | flattening a node fails exactly where the pre-order key scan stops, with that key; otherwise the scan gives one key per pre-order node, and flattening returns the first of them and leaves the counters and used keys as the scan does |
| RenderProperties.FlattenBuildsElements | src/render.ts:89-143 | a successful flatten adds one element under each newly used key, keeps earlier elements, keeps every listed child an element, and the new element stands for the node |
| RenderProperties.AddElement | src/render.ts:114-140 | storing a node's element under a new key keeps earlier elements and closure, and the stored element stands for the node |
| RenderProperties.FlattenAllKeysMatchWalk | src/render.ts:106-112 | flattening the concrete children in turn fails where the key scan over their pre-orders stops; otherwise the child keys returned are exactly the scanned keys that open each child's block, and the counters and used keys are the scan's |
| RenderProperties.FlattenLayout | src/render.ts:89-143 | a successful flatten adds to the element map exactly the layout of the node under its pre-order keys |
| RenderProperties.FlattenAllLayout | src/render.ts:106-112 | a successful children loop adds exactly the layouts of the children, each under its own block of pre-order keys |
| RenderProperties.FlattenAllConsOk | src/render.ts:109-112 | after a child that flattened, the loop goes on from the state it left, and its key comes first |
| RenderProperties.FlattenAllBuildsElements | src/render.ts:106-112 | after the children loop there is one key per child, each naming an element that stands for that child |
| RenderProperties.ExpandAppend | src/render.ts:71-83 | expansion keeps order: a concatenation expands piecewise |
| RenderProperties.ExpandSplicesFragment | src/render.ts:75-77 | a fragment among children stands for its own children in its place |
| RenderProperties.ExpandDropsNonNode | src/render.ts:74 | a child that is not a node leaves no trace |
| RenderProperties.FlattenSeesExpansionOnly | src/render.ts:106 | two nodes alike in all else whose children expand alike flatten alike |
| RenderProperties.RenderFragmentTransparent | src/render.ts:71-83 | wrapping some of the root's children in a fragment does not change the result |
| RenderProperties.FlattenAllReplace | src/render.ts:109-112 | replacing one child by a node that flattens alike leaves the children loop's outcome unchanged |
| RenderProperties.ReplaceChild | src/render.ts:106-112 | a node still flattens alike after one of its children is replaced by a node that flattens alike |
| RenderProperties.WrapInFragment | src/render.ts:71-83 | wrapping some children of any concrete node in a fragment gives a node that flattens alike on every state |
| RenderProperties.RenderAlike | src/render.ts:34-38 | roots that flatten alike render to the same Spec or the same error |
| RenderProperties.RenderFailsOnFirstDuplicate | src/render.ts:96-103 | render succeeds exactly when the pre-order keys are distinct, and otherwise fails naming the first key that repeats an earlier one |
| RenderProperties.RenderSpecShape | src/render.ts:34-46 | on success the root is the root node's key, the element keys are exactly the pre-order keys, there are as many elements as concrete nodes, every child key names an element, the element tree stands for the node tree, the element map is exactly the layout of the tree under the pre-order keys, and the state is the caller's |
| RenderProperties.RenderWithoutExplicitKeys | src/render.ts:57-65 | a tree without explicit keys always renders |
| RenderProperties.FlattenLeaf | src/render.ts:96-142 | a node without children, key or metadata takes the next generated key of its type and adds an element with its type alone |
| RenderProperties.FlattenThreeLeaves | src/render.ts:106-112 | three such nodes in a row take their keys in order and add their elements in order |
| RenderProperties.RenderSingleCard | src/render.ts:23-47 | `<Card />` renders to the single element `card-1` with no children, metadata or state |
| RenderProperties.RenderStack | src/render.ts:89-143 | a stack holding a card, a text and a card renders to `stack-1` whose children are `card-1`, `text-1` and `card-2`, four elements in all |

## Left out

- Numbers: `Raw.Num` holds integers only. `String()` of fractions, `NaN`, infinities, symbols and functions is not modelled.
- Text.Lower: lower-cases ASCII letters only. Full Unicode `toLowerCase` is not modelled.
- The brand and the fragment marker are `Symbol.for` values in the source. Here they are the `NodeV` constructor and `NodeType.Fragment`. A node whose `type` is neither a string nor the marker cannot be expressed.
- Property order: bags and the element map are Dafny maps, so the key order of `Object.keys` and of the output objects is not modelled.
- `__proto__` as a key: the bags and the element map are plain objects in the source (`src/render.ts:140`, `src/types.ts:108`, `src/jsx-runtime.ts:52`), where assigning under `__proto__` sets the prototype instead of adding an entry. The model's maps treat `__proto__` as an ordinary name, so for an explicit key or prop named `__proto__` the Spec the model describes (`RenderSpecShape`, `Closed`) has an entry the source's output lacks.
- Exceptions are `Result` values. Render.FlattenContext.FlattenNode: after a failure the state of the context is left unstated, because `render` discards it.
- Aliasing: `jsx`/`jsxs` assign `node.key` in place on the object a function component returned. The model builds a new node value, so another holder of that object does not see the new key.
- `JfxNode.children` is typed as nodes, but at run time it holds whatever the normaliser let through (numbers, strings, plain objects). The model keeps those as `Raw` values, and `expandChildren` drops them.
- `options?.state` tests truthiness. A state bag is an object and always truthy, so the model takes the state as an `Option<Bag>` and a `null` state as absent.
- The `JSX` type namespace (`src/jsx-runtime.ts:129-141`) holds declarations only. `src/jsx-dev-runtime.ts` only re-exports. `src/test-components.ts` holds one-line wrappers over `jsx`. None of them is modelled.
- The example application, the build configuration and the test set-up are not part of this model.

## Where the code and its description differ

- The description of the Spec says a metadata field is omitted when it is unset on the node. The code tests `!== undefined` (`src/render.ts:124-138`), so an explicit `null` is copied onto the element. The model follows the code: `Render.Defined` is `None` only for `Undefined`.
