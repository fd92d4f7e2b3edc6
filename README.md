# BaseTreeAdaptor, modelled in Dafny

This project models the core of ANTLR 4's `BaseTreeAdaptor`, the runtime class that parsers
with AST construction use to build trees. The adaptor handles:

- re-rooting under the `^` operator (`becomeRoot`, in its two-argument and its kids-list forms);
- attaching leftover children at the end of a rule (`rulePostProcessing`);
- adding children (`addChild`, `addChildren`);
- creating nil (flat-list) nodes (`nil`);
- deep-copying subtrees (`dupTree`);
- handing out debugging ids (`getUniqueID`).

Three files:

- `trees.dfy` (`module Trees`) holds the node data and the effect of the Tree operations the
  adaptor calls, as functions on a whole store of nodes.
  - A node is a value: a token payload (none for a nil node), a child list, a parent and a
    child index.
  - A store (`Heap`) is the sequence of all nodes. A node is referred to by its index in it.
  - `AddChildTo` is `Tree.addChild`: a nil child has its children spliced in, any other child
    is appended, and each appended node gets the new parent and its position as child index.
  - `AddChildrenTo` is `Tree.addChildren`, and `Flatten` is what a kids list contributes once
    nil kids are spliced.
  - `Attached` characterises a node store after children were added to one node; the lemmas
    prove it for both operations.
  - `Copy` defines a deep copy.
- `node_store.dfy` (`module Store`) holds the mutable store, `NodeStore`. Its methods create,
  duplicate and relink nodes. `AddChild` runs the splice loop in place and is proved equal to
  `AddChildTo`.
- `base_tree_adaptor.dfy` (`module Adaptor`) holds the class `BaseTreeAdaptor`.
  - Its fields are the lazily created `treeToUniqueIDMap` and the `uniqueNodeID` counter, which
    steps like a Java `int`.
  - Every adaptor operation is a method on it, working on a `NodeStore`. Its contract ties the
    new store to the functions of `Trees`.
  - The kids list of the three-argument `becomeRoot` is a `KidList` object, because the
    operation clears it.

A null reference is `None`. A null dereference in the source is a precondition here: for
example, the three-argument `becomeRoot` requires a non-null `oldRoot`. A null the source
guards against is a modelled case: `addChild`, `addChildren` and `dupTree` all accept `None`.

`NodeStore.Valid` (the store is `WellFormed`) is the invariant every operation keeps. It says
every child is a node of the store and no nil node is ever a child, which is how
`Tree.addChild` flattens lists.

The adaptor's `Valid` is its id-tracker invariant:

- the map holds exactly the nodes seen so far, with no repeats;
- the i-th node seen (counting from 0) has id `Int32(i + 1)`;
- the counter is `Int32(number seen + 1)`.

Here `Int32` is 32-bit two's-complement wrap-around.

## Model

| member | source | states |
|---|---|---|
| Trees.AddChildAttached | runtime/Java/src/org/antlr/v4/runtime/tree/BaseTreeAdaptor.java:202-211 | Adding `child` to `t` appends to `t`'s child list exactly the child's children when the child is nil, or else the child itself. Each appended node is linked back to `t` (parent `t`, child index = its position). No token and no other child list changes, and no node other than `t` or the appended ones changes. |
| Trees.AppendAllWellFormed | runtime/Java/src/org/antlr/v4/runtime/tree/BaseTreeAdaptor.java:202-211 | Appending only non-nil nodes keeps the store well-formed: no nil node is ever a child. This is why adding a flat list splices its children in. |
| Trees.AppendAllAttached | runtime/Java/src/org/antlr/v4/runtime/tree/BaseTreeAdaptor.java:202-211 | Appending `cs` one by one has the `Attached` effect for exactly `cs`. |
| Trees.AttachedTrans | runtime/Java/src/org/antlr/v4/runtime/tree/BaseTreeAdaptor.java:119-121 | Two successive additions to the same node compose into one addition of both lists, links included. |
| Trees.AddChildrenAttached | runtime/Java/src/org/antlr/v4/runtime/tree/BaseTreeAdaptor.java:119-121 | Adding a kids list appends exactly the flattened list (nil kids replaced by their children), each node linked back. The one exception is a nil target that is among the kids. |
| Trees.AddChildrenConcat | runtime/Java/src/org/antlr/v4/runtime/tree/BaseTreeAdaptor.java:76-77 | Adding list `a` and then list `b` has the same effect as adding `a + b`, as when becomeRoot adds oldRoot's children and then the kids. |
| Trees.FlattenConcat | runtime/Java/src/org/antlr/v4/runtime/tree/BaseTreeAdaptor.java:76-77 | The flattening of `a + b` is the flattening of `a` followed by that of `b`. |
| Trees.FlattenRoots | runtime/Java/src/org/antlr/v4/runtime/tree/BaseTreeAdaptor.java:76 | A list with no nil node flattens to itself, so a nil root's children are added as they are. |
| Trees.FlattenInStore | runtime/Java/src/org/antlr/v4/runtime/tree/BaseTreeAdaptor.java:140-143 | Flattening kids of the store yields nodes of the store. |
| Trees.FlattenExtend | runtime/Java/src/org/antlr/v4/runtime/tree/BaseTreeAdaptor.java:104-106 | Creating a node does not change what existing kids flatten to. |
| Trees.AdoptAll | runtime/Java/src/org/antlr/v4/runtime/tree/BaseTreeAdaptor.java:75-79 | Moving a nil root's children and then the kids under `n` is one addition. It attaches those children followed by the flattened kids. |
| Trees.AddChildSingle | runtime/Java/src/org/antlr/v4/runtime/tree/BaseTreeAdaptor.java:197 | Adding a non-nil node (such as a fresh copy) changes only the parent's child list, which grows by that node, and the node's parent and child index. |
| Trees.CopyFrame | runtime/Java/src/org/antlr/v4/runtime/tree/BaseTreeAdaptor.java:194-198 | A finished deep copy survives later changes to nodes outside it and to its own root's links. |
| Trees.CopySource | runtime/Java/src/org/antlr/v4/runtime/tree/BaseTreeAdaptor.java:194-198 | A copy of a subtree of the enlarged store is a copy of that subtree of the original store, because allocation does not change the source. |
| Trees.BoundedExtend | runtime/Java/src/org/antlr/v4/runtime/tree/BaseTreeAdaptor.java:194-198 | Allocating nodes keeps the depth bound of an existing subtree, so the recursion of dupTree terminates. |
| Trees.KeepCopied | runtime/Java/src/org/antlr/v4/runtime/tree/BaseTreeAdaptor.java:194-198 | Children already copied stay copied while later children are copied and added. |
| Trees.NewCopied | runtime/Java/src/org/antlr/v4/runtime/tree/BaseTreeAdaptor.java:196-197 | A fresh copy of child `i`, added to the new node at position `i`, is child `i` of the copy: linked back, and a deep copy of the source's child `i`. |
| Trees.CopyAdvance | runtime/Java/src/org/antlr/v4/runtime/tree/BaseTreeAdaptor.java:194-198 | One turn of dupTree's loop extends a copy of the first `i` children to the first `i + 1`, with payload, parent and child index unchanged. |
| Store.NodeStore.AddChild | runtime/Java/src/org/antlr/v4/runtime/tree/BaseTreeAdaptor.java:202-211 | The in-place splice loop produces exactly `AddChildTo` of the old store, and so the `Attached` effect with the spliced list. The store stays well-formed. |
| Store.NodeStore.AddChildren | runtime/Java/src/org/antlr/v4/runtime/tree/BaseTreeAdaptor.java:119-121 | Adding the kids one by one produces exactly `AddChildrenTo` of the old store. |
| Adaptor.BaseTreeAdaptor.AddChild | runtime/Java/src/org/antlr/v4/runtime/tree/BaseTreeAdaptor.java:209-213 | If either argument is null, nothing changes. Otherwise the store becomes `AddChildTo` of the old one. |
| Adaptor.BaseTreeAdaptor.AddChildren | runtime/Java/src/org/antlr/v4/runtime/tree/BaseTreeAdaptor.java:119-121 | If the root is null, nothing changes. Otherwise the store becomes `AddChildrenTo` of the old one. |
| Adaptor.BaseTreeAdaptor.Nil | runtime/Java/src/org/antlr/v4/runtime/tree/BaseTreeAdaptor.java:150-152 | Allocates one fresh node with no token, no children, no parent and child index -1. Nothing else changes. |
| Adaptor.BaseTreeAdaptor.BecomeRootKids | runtime/Java/src/org/antlr/v4/runtime/tree/BaseTreeAdaptor.java:73-87 | The kids list always ends empty. If oldRoot is nil, its children and then the kids go under newRoot (nothing changes if newRoot is null) and oldRoot is returned. Otherwise the kids go under oldRoot, oldRoot becomes the last child of newRoot, and newRoot is returned. |
| Adaptor.BaseTreeAdaptor.BecomeRootKidsToken | runtime/Java/src/org/antlr/v4/runtime/tree/BaseTreeAdaptor.java:100-117 | A node is created from the token either way. If oldRoot is nil, the new node gets oldRoot's children and then the flattened kids, and oldRoot is returned. Otherwise the kids go under oldRoot, and the new node, holding exactly oldRoot (child index 0), is returned. The kids list ends empty. |
| Adaptor.BaseTreeAdaptor.RulePostProcessingKids | runtime/Java/src/org/antlr/v4/runtime/tree/BaseTreeAdaptor.java:129-146 | With a root, the kids are added to it and it is returned. With no root: no kids gives null; one kid is returned detached (no parent, child index -1) and nothing else changes; several kids go under a fresh nil node whose children are the flattened kids, which are exactly the kids when none is nil. |
| Adaptor.BaseTreeAdaptor.RulePostProcessing | runtime/Java/src/org/antlr/v4/runtime/tree/BaseTreeAdaptor.java:265-280 | A nil root with no children becomes null. A nil root with one child is replaced by that child, detached. Anything else, null included, is returned unchanged. Only the detached child changes. |
| Adaptor.BaseTreeAdaptor.BecomeRoot | runtime/Java/src/org/antlr/v4/runtime/tree/BaseTreeAdaptor.java:241-262 | A null oldRoot returns newRoot with the store unchanged. A nil newRoot with more than one child is an error that changes nothing. Otherwise oldRoot (its children, if nil) is added to newRoot, or to newRoot's only child when newRoot is nil, and that node is returned. |
| Adaptor.BaseTreeAdaptor.BecomeRootToken | runtime/Java/src/org/antlr/v4/runtime/tree/BaseTreeAdaptor.java:282-284 | Always returns the node freshly created from the token. Its children are exactly what oldRoot contributes: nothing when null, oldRoot's children when nil, otherwise oldRoot. |
| Adaptor.BaseTreeAdaptor.DupTreeWithParent | runtime/Java/src/org/antlr/v4/runtime/tree/BaseTreeAdaptor.java:185-200 | Null gives null. Otherwise the result is a fresh deep copy (`Copy`) of the subtree: the same payloads and child counts, every copied child linked back to its copied parent at its position, and every copy node newer than its parent. The root gets `parent` and t's child index. No pre-existing node changes. |
| Adaptor.BaseTreeAdaptor.DupTree | runtime/Java/src/org/antlr/v4/runtime/tree/BaseTreeAdaptor.java:177-179 | The same as DupTreeWithParent, with a copy root that has no parent. |
| Adaptor.BaseTreeAdaptor.GetUniqueID | runtime/Java/src/org/antlr/v4/runtime/tree/BaseTreeAdaptor.java:341-355 | Creates the map on first use. A node seen before gets its old id and nothing changes. A new node gets the counter's value, which is `Int32(number seen + 1)`, and is recorded; then the counter steps by Java `++`. The id-tracker invariant is kept. |
| Adaptor.BaseTreeAdaptor.IdsDistinct | runtime/Java/src/org/antlr/v4/runtime/tree/BaseTreeAdaptor.java:38-43 | While at most 2^32 nodes have been seen, two different nodes never share an id. |
| Adaptor.Int32Succ | runtime/Java/src/org/antlr/v4/runtime/tree/BaseTreeAdaptor.java:351 | Java `++` on the counter's value `Int32(n)` gives `Int32(n + 1)`, wrapping from the largest int to the smallest. |

## Left out

- `errorNode` (lines 165-171) is left out. It builds a `CommonErrorNode` from a token stream and an exception, and neither is part of this model.
- The `create(tokenType, ...)` overloads and the abstract `createToken` methods (lines 286-307, 365, 381) are left out. They delegate to a token factory defined by concrete subclasses. Creating a node from an optional token is `NodeStore.Create`.
- `setType` and `setText` (lines 313-323) are left out. They only throw `NoSuchMethodError`.
- The one-line accessors `isNil`, `getChildren`, `getType`, `getText`, `getChild`, `getChildCount`, `setChild` and `deleteChild` (lines 123, 173-175, 309-339) have no methods of their own. The node fields are read directly. `setChild` and `deleteChild` are not used by any modelled operation.
- `dupNode`, `setParent`, `setChildIndex` and `getChildIndex` are declared by `TreeAdaptor` and implemented elsewhere. `CommonTreeAdaptor` and `BaseTree` are not part of this model. `NodeStore` gives them the behaviour of a plain tree node: copy the payload, set a field.
- Aliasing of lists is not modelled. Child lists are values, so the two-line `t.children = child.children` shortcut the comment at lines 202-207 allows is not modelled, and neither is the shared-list or self-addition failure it can cause. The same goes for a kids list that is another node's child list.
- A child list the source leaves as `null` is an empty sequence. Elements of a kids list are never null.
- A null dereference in the source (casting a null `oldRoot` in becomeRoot, a null `newRoot` with a non-null `oldRoot`, a null kids list) is a precondition, not a modelled exception.
- Casting a node that does not implement `Tree` is not modelled: all nodes are tree nodes.
- DupTreeWithParent and DupTree require the subtree to be finite (`Acyclic`, a depth bound). A cyclic tree would make the source recurse without end.
- Adaptor.BaseTreeAdaptor.BecomeRootKids: the `Attached` form of the nil-oldRoot case is stated only when newRoot is not a nil node listed among the kids. The exact new store is stated in every case.
- Adaptor.BaseTreeAdaptor.RulePostProcessingKids: the `Attached` form for a given root is stated only when the root is not a nil node listed among the kids. The exact new store is stated in every case.
- Adaptor.BaseTreeAdaptor.IdsDistinct: distinctness is stated for at most 2^32 recorded nodes. After that, Java's `int` counter wraps and ids repeat, as the model's counter does.
- Identity in `treeToUniqueIDMap` is node identity: the key is the node's index, and `null` is a key of its own. `HashMap` hashing and `Integer` boxing are not modelled.
- `treeToUniqueIDMap` is typed as a raw `Map` in the source. Here it holds only what `getUniqueID` puts in it.
- Where the comments and the code disagree, the model follows the code:
  - The comment at lines 89-93 says that, for a nil oldRoot, the node created from rootToken is returned as the new root. The code at line 108 returns `oldRoot`.
  - The two-argument becomeRoot (lines 249-256) rejects only a nil newRoot with more than one child. A nil newRoot with no children is kept as the root and receives oldRoot.
- Concurrency is not modelled: the source's map and counter are not synchronised.
