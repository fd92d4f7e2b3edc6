/** BaseTreeAdaptor: the tree-construction algebra a parser uses to assemble ASTs while a rule is
    being parsed (re-rooting, rule post-processing, deep copy, debugging ids), over any store of
    tree nodes. A parameter of type `Option<NodeId>` is a Java reference that may be null.
 */
module Adaptor {
  import opened Trees
  import opened Store

  /** The structural error becomeRoot(newRoot, oldRoot) raises for a nil new root with more than
      one child ("more than one node as root"). */
  datatype TreeError = MoreThanOneNodeAsRoot

  datatype Result<T> = Ok(value: T) | Err(error: TreeError)

  /** The caller's list of pending kids, which the three-argument becomeRoot drains. */
  class KidList {
    var items: seq<NodeId>

    constructor (items: seq<NodeId>)
      ensures this.items == items
    {
      this.items := items;
    }
  }

  const TWO_TO_32: int := 0x1_0000_0000

  /** A Java `int`: `x` wrapped into [-2^31, 2^31). */
  function Int32(x: int): (r: int)
    ensures -0x8000_0000 <= r < 0x8000_0000
    ensures (x - r) % TWO_TO_32 == 0
  {
    (x + 0x8000_0000) % TWO_TO_32 - 0x8000_0000
  }

  /** Java's `++` on an `int`: the largest int steps to the smallest. */
  function Inc32(v: int): (r: int)
    ensures -0x8000_0000 <= v < 0x8000_0000 ==> -0x8000_0000 <= r < 0x8000_0000
    ensures v != 0x7fff_ffff ==> r == v + 1
  {
    if v == 0x7fff_ffff then -0x8000_0000 else v + 1
  }

  /** Incrementing the wrapped value of `n` gives the wrapped value of `n + 1`. */
  lemma Int32Succ(n: int)
    ensures Inc32(Int32(n)) == Int32(n + 1)
  {
    var y := n + 0x8000_0000;
    var q, r := y / TWO_TO_32, y % TWO_TO_32;
    assert y == q * TWO_TO_32 + r;
    if r + 1 < TWO_TO_32 {
      ModOf(y + 1, q, r + 1);
    } else {
      ModOf(y + 1, q + 1, 0);
    }
  }

  lemma ModOf(a: int, q: int, r: int)
    requires 0 <= r < TWO_TO_32 && a == q * TWO_TO_32 + r
    ensures a % TWO_TO_32 == r
  {
  }

  /** No two of the first 2^32 counter values wrap to the same int. */
  lemma Int32Injective(a: int, b: int)
    requires 1 <= a < b <= TWO_TO_32
    ensures Int32(a) != Int32(b)
  {
  }

  class BaseTreeAdaptor {
    /** node -> id, created on the first getUniqueID call. */
    var treeToUniqueIDMap: Option<map<Option<NodeId>, int>>
    /** The id the next first-seen node receives. */
    var uniqueNodeID: int
    /** The nodes that received an id, in the order they were first seen. */
    ghost var seen: seq<Option<NodeId>>

    ghost function IdMap(): map<Option<NodeId>, int>
      reads this
    {
      if treeToUniqueIDMap.None? then map[] else treeToUniqueIDMap.value
    }

    /** The i-th node first seen has id i + 1 (as a Java int), and the counter is one past the last. */
    ghost predicate Valid()
      reads this
    {
      (treeToUniqueIDMap.None? ==> seen == []) &&
      (forall i, j :: 0 <= i < j < |seen| ==> seen[i] != seen[j]) &&
      (forall k :: k in IdMap() <==> k in seen) &&
      (forall i :: 0 <= i < |seen| ==> IdMap()[seen[i]] == Int32(i + 1)) &&
      uniqueNodeID == Int32(|seen| + 1)
    }

    constructor ()
      ensures Valid() && seen == [] && uniqueNodeID == 1 && treeToUniqueIDMap.None?
    {
      treeToUniqueIDMap := None;
      uniqueNodeID := 1;
      seen := [];
    }

    // -------------------------------------------------------------------------------------------
    // Null-guarded delegations

    /** addChild(t, child): Tree.addChild, skipped when either is null. */
    method AddChild(store: NodeStore, t: Option<NodeId>, child: Option<NodeId>)
      requires store.Valid()
      requires t.Some? ==> t.value < |store.nodes|
      requires child.Some? ==> child.value < |store.nodes|
      modifies store
      ensures store.Valid()
      ensures t.Some? && child.Some? ==> store.nodes == AddChildTo(old(store.nodes), t.value, child.value)
      ensures t.None? || child.None? ==> store.nodes == old(store.nodes)
    {
      if t.Some? && child.Some? {
        store.AddChild(t.value, child.value);
      }
    }

    /** addChildren(root, kids): Tree.addChildren, skipped when root is null. */
    method AddChildren(store: NodeStore, root: Option<NodeId>, kids: seq<NodeId>)
      requires store.Valid() && InStore(store.nodes, kids)
      requires root.Some? ==> root.value < |store.nodes|
      modifies store
      ensures store.Valid()
      ensures root.Some? ==> store.nodes == AddChildrenTo(old(store.nodes), root.value, kids)
      ensures root.None? ==> store.nodes == old(store.nodes)
    {
      if root.Some? {
        store.AddChildren(root.value, kids);
      }
    }

    /** nil(): a fresh nil node. */
    method Nil(store: NodeStore) returns (n: NodeId)
      requires store.Valid()
      modifies store
      ensures store.Valid()
      ensures n == |old(store.nodes)| && store.nodes == old(store.nodes) + [Node(None, [], None, -1)]
      ensures store.nodes[n].IsNil()
    {
      n := store.Create(None);
    }

    // -------------------------------------------------------------------------------------------
    // Re-rooting while kids are pending

    /** becomeRoot(oldRoot, newRoot, kids). A nil oldRoot is a list: its children and then the kids
        go under newRoot, and oldRoot is returned. Otherwise the kids go under oldRoot, oldRoot
        becomes the last child of newRoot, and newRoot is returned. The kids list ends empty. */
    method BecomeRootKids(store: NodeStore, oldRoot: NodeId, newRoot: Option<NodeId>, kids: KidList)
      returns (r: Option<NodeId>)
      requires store.Valid() && oldRoot < |store.nodes| && InStore(store.nodes, kids.items)
      requires newRoot.Some? ==> newRoot.value < |store.nodes|
      modifies store, kids
      ensures store.Valid() && kids.items == []
      // oldRoot is nil
      ensures old(store.nodes[oldRoot].IsNil()) ==> r == Some(oldRoot)
      ensures old(store.nodes[oldRoot].IsNil()) && newRoot.None? ==> store.nodes == old(store.nodes)
      ensures old(store.nodes[oldRoot].IsNil()) && newRoot.Some? ==>
        store.nodes == AddChildrenTo(old(store.nodes), newRoot.value, old(store.nodes[oldRoot].children) + old(kids.items))
      ensures old(store.nodes[oldRoot].IsNil()) && newRoot.Some? &&
              !(old(store.nodes[newRoot.value].IsNil()) && newRoot.value in old(kids.items)) ==>
        Attached(old(store.nodes), store.nodes, newRoot.value,
                 old(store.nodes[oldRoot].children) + Flatten(old(store.nodes), old(kids.items)))
      // oldRoot is a real root
      ensures !old(store.nodes[oldRoot].IsNil()) ==> r == newRoot
      ensures !old(store.nodes[oldRoot].IsNil()) && newRoot.None? ==>
        store.nodes == AddChildrenTo(old(store.nodes), oldRoot, old(kids.items)) &&
        Attached(old(store.nodes), store.nodes, oldRoot, Flatten(old(store.nodes), old(kids.items)))
      ensures !old(store.nodes[oldRoot].IsNil()) && newRoot.Some? ==>
        store.nodes == AddChildTo(AddChildrenTo(old(store.nodes), oldRoot, old(kids.items)), newRoot.value, oldRoot)
      ensures !old(store.nodes[oldRoot].IsNil()) && newRoot.Some? && newRoot.value != oldRoot ==>
        store.nodes[oldRoot].children == old(store.nodes[oldRoot].children) + Flatten(old(store.nodes), old(kids.items)) &&
        store.nodes[newRoot.value].children == old(store.nodes[newRoot.value].children) + [oldRoot] &&
        store.nodes[oldRoot].parent == newRoot &&
        store.nodes[oldRoot].childIndex == |store.nodes[newRoot.value].children| - 1
    {
      ghost var h0 := store.nodes;
      ghost var ks := kids.items;
      if store.nodes[oldRoot].IsNil() {
        var oldKids := store.nodes[oldRoot].children;
        assert InStore(h0, oldKids);
        AddChildren(store, newRoot, oldKids);
        AddChildren(store, newRoot, kids.items);
        kids.items := [];
        r := Some(oldRoot);
        if newRoot.Some? {
          var n := newRoot.value;
          AddChildrenConcat(h0, n, oldKids, ks);
          if !(h0[n].IsNil() && n in ks) {
            assert forall i :: 0 <= i < |oldKids| ==> !h0[oldKids[i]].IsNil();
            AdoptAll(h0, n, oldKids, ks);
          }
        }
      } else {
        AddChildren(store, Some(oldRoot), kids.items);
        AddChildrenAttached(h0, oldRoot, ks);
        ghost var h1 := store.nodes;
        kids.items := [];
        AddChild(store, newRoot, Some(oldRoot));
        r := newRoot;
        if newRoot.Some? && newRoot.value != oldRoot {
          AddChildAttached(h1, newRoot.value, oldRoot);
        }
      }
    }

    /** becomeRoot(oldRoot, rootToken, kids): as BecomeRootKids with a node created from rootToken.
        When oldRoot is nil the new node receives oldRoot's children and the kids, but oldRoot is
        what is returned. */
    method BecomeRootKidsToken(store: NodeStore, oldRoot: NodeId, rootToken: Option<Token>, kids: KidList)
      returns (r: Option<NodeId>)
      requires store.Valid() && oldRoot < |store.nodes| && InStore(store.nodes, kids.items)
      modifies store, kids
      ensures store.Valid() && kids.items == []
      ensures old(store.nodes[oldRoot].IsNil()) ==>
        r == Some(oldRoot) &&
        store.nodes == AddChildrenTo(old(store.nodes) + [Node(rootToken, [], None, -1)], |old(store.nodes)|,
                                     old(store.nodes[oldRoot].children) + old(kids.items)) &&
        Attached(old(store.nodes) + [Node(rootToken, [], None, -1)], store.nodes, |old(store.nodes)|,
                 old(store.nodes[oldRoot].children) + Flatten(old(store.nodes), old(kids.items)))
      ensures !old(store.nodes[oldRoot].IsNil()) ==>
        r == Some(|old(store.nodes)|) &&
        store.nodes == AddChildTo(AddChildrenTo(old(store.nodes), oldRoot, old(kids.items)) + [Node(rootToken, [], None, -1)],
                                  |old(store.nodes)|, oldRoot) &&
        store.nodes[oldRoot].children == old(store.nodes[oldRoot].children) + Flatten(old(store.nodes), old(kids.items)) &&
        store.nodes[r.value] == Node(rootToken, [oldRoot], None, -1) &&
        store.nodes[oldRoot].parent == r && store.nodes[oldRoot].childIndex == 0
    {
      ghost var h0 := store.nodes;
      ghost var ks := kids.items;
      if store.nodes[oldRoot].IsNil() {
        var newRoot := store.Create(rootToken);
        ghost var h1 := store.nodes;
        var oldKids := store.nodes[oldRoot].children;
        assert InStore(h0, oldKids);
        AddChildren(store, Some(newRoot), oldKids);
        AddChildren(store, Some(newRoot), kids.items);
        kids.items := [];
        r := Some(oldRoot);
        assert forall i :: 0 <= i < |oldKids| ==> !h1[oldKids[i]].IsNil();
        assert newRoot !in ks;
        AdoptAll(h1, newRoot, oldKids, ks);
        FlattenExtend(h0, Node(rootToken, [], None, -1), ks);
      } else {
        AddChildren(store, Some(oldRoot), kids.items);
        AddChildrenAttached(h0, oldRoot, ks);
        kids.items := [];
        var newRoot := store.Create(rootToken);
        ghost var h1 := store.nodes;
        AddChild(store, Some(newRoot), Some(oldRoot));
        AddChildAttached(h1, newRoot, oldRoot);
        r := Some(newRoot);
      }
    }

    // -------------------------------------------------------------------------------------------
    // Rule post-processing

    /** rulePostProcessing(root, kids): leftover kids go under a non-null root; with no root, no
        kids give null, one kid is the result itself (detached), several go under a fresh nil node. */
    method RulePostProcessingKids(store: NodeStore, root: Option<NodeId>, kids: KidList) returns (r: Option<NodeId>)
      requires store.Valid() && InStore(store.nodes, kids.items)
      requires root.Some? ==> root.value < |store.nodes|
      modifies store
      ensures store.Valid()
      ensures root.Some? ==> r == root && store.nodes == AddChildrenTo(old(store.nodes), root.value, kids.items)
      ensures root.Some? && !(old(store.nodes[root.value].IsNil()) && root.value in kids.items) ==>
        Attached(old(store.nodes), store.nodes, root.value, Flatten(old(store.nodes), kids.items))
      ensures root.None? && |kids.items| == 0 ==> r.None? && store.nodes == old(store.nodes)
      ensures root.None? && |kids.items| == 1 ==>
        r == Some(kids.items[0]) &&
        store.nodes == old(store.nodes)[kids.items[0] := old(store.nodes[kids.items[0]]).(parent := None, childIndex := -1)]
      ensures root.None? && |kids.items| > 1 ==>
        r == Some(|old(store.nodes)|) &&
        store.nodes == AddChildrenTo(old(store.nodes) + [Node(None, [], None, -1)], |old(store.nodes)|, kids.items) &&
        Attached(old(store.nodes) + [Node(None, [], None, -1)], store.nodes, |old(store.nodes)|, Flatten(old(store.nodes), kids.items)) &&
        store.nodes[r.value] == Node(None, Flatten(old(store.nodes), kids.items), None, -1)
      ensures root.None? && |kids.items| > 1 && (forall i :: 0 <= i < |kids.items| ==> !old(store.nodes[kids.items[i]].IsNil())) ==>
        store.nodes[r.value].children == kids.items
    {
      ghost var h0 := store.nodes;
      r := root;
      if root.Some? {
        AddChildren(store, root, kids.items);
        if !(h0[root.value].IsNil() && root.value in kids.items) {
          AddChildrenAttached(h0, root.value, kids.items);
        }
      } else {
        if |kids.items| == 1 {
          var k := kids.items[0];
          r := Some(k);
          store.SetParent(k, None);
          store.SetChildIndex(k, -1);
        }
        if |kids.items| > 1 {
          var n := Nil(store);
          ghost var h1 := store.nodes;
          r := Some(n);
          AddChildren(store, r, kids.items);
          AddChildrenAttached(h1, n, kids.items);
          FlattenExtend(h0, Node(None, [], None, -1), kids.items);
          FlattenInStore(h0, kids.items);
          ghost var added := Flatten(h0, kids.items);
          assert n !in added;
          assert store.nodes[n].children == added;
          if forall i :: 0 <= i < |kids.items| ==> !h0[kids.items[i]].IsNil() {
            FlattenRoots(h0, kids.items);
          }
        }
      }
    }

    /** rulePostProcessing(root): ^(nil x) becomes x, detached; a childless nil node becomes null;
        anything else is returned as it is. */
    method RulePostProcessing(store: NodeStore, root: Option<NodeId>) returns (r: Option<NodeId>)
      requires store.Valid()
      requires root.Some? ==> root.value < |store.nodes|
      modifies store
      ensures store.Valid()
      ensures root.None? || !old(store.nodes[root.value].IsNil()) || |old(store.nodes[root.value].children)| > 1 ==>
        r == root && store.nodes == old(store.nodes)
      ensures root.Some? && old(store.nodes[root.value].IsNil()) && |old(store.nodes[root.value].children)| == 0 ==>
        r.None? && store.nodes == old(store.nodes)
      ensures root.Some? && old(store.nodes[root.value].IsNil()) && |old(store.nodes[root.value].children)| == 1 ==>
        var c := old(store.nodes[root.value].children[0]);
        r == Some(c) && store.nodes == old(store.nodes)[c := old(store.nodes[c]).(parent := None, childIndex := -1)]
    {
      r := root;
      if r.Some? && store.nodes[r.value].IsNil() {
        if |store.nodes[r.value].children| == 0 {
          r := None;
        } else if |store.nodes[r.value].children| == 1 {
          var c := store.nodes[r.value].children[0];
          r := Some(c);
          store.SetParent(c, None);
          store.SetChildIndex(c, -1);
        }
      }
    }

    // -------------------------------------------------------------------------------------------
    // Re-rooting two built subtrees

    /** becomeRoot(newRoot, oldRoot): oldRoot (or, when nil, its children) goes under newRoot, or
        under the single child of a nil newRoot, and that node is returned. A null oldRoot leaves
        newRoot as it is; a nil newRoot with more than one child is an error. */
    method BecomeRoot(store: NodeStore, newRoot: Option<NodeId>, oldRoot: Option<NodeId>)
      returns (res: Result<Option<NodeId>>)
      requires store.Valid()
      requires newRoot.Some? ==> newRoot.value < |store.nodes|
      requires oldRoot.Some? ==> oldRoot.value < |store.nodes| && newRoot.Some?
      modifies store
      ensures store.Valid()
      ensures oldRoot.None? ==> res == Ok(newRoot) && store.nodes == old(store.nodes)
      ensures oldRoot.Some? && old(store.nodes[newRoot.value].IsNil()) && |old(store.nodes[newRoot.value].children)| > 1 ==>
        res == Err(MoreThanOneNodeAsRoot) && store.nodes == old(store.nodes)
      ensures oldRoot.Some? && !(old(store.nodes[newRoot.value].IsNil()) && |old(store.nodes[newRoot.value].children)| > 1) ==>
        var root := if old(store.nodes[newRoot.value].IsNil()) && |old(store.nodes[newRoot.value].children)| == 1
                    then old(store.nodes[newRoot.value].children[0]) else newRoot.value;
        res == Ok(Some(root)) &&
        store.nodes == AddChildTo(old(store.nodes), root, oldRoot.value) &&
        Attached(old(store.nodes), store.nodes, root, Spliced(old(store.nodes), oldRoot.value))
    {
      if oldRoot.None? {
        return Ok(newRoot);
      }
      var root := newRoot.value;
      if store.nodes[root].IsNil() {
        var nc := |store.nodes[root].children|;
        if nc == 1 {
          root := store.nodes[root].children[0];
        } else if nc > 1 {
          return Err(MoreThanOneNodeAsRoot);
        }
      }
      AddChildAttached(store.nodes, root, oldRoot.value);
      store.AddChild(root, oldRoot.value);
      res := Ok(Some(root));
    }

    /** becomeRoot(newRoot: Token, oldRoot): becomeRoot on a node created from the token. */
    method BecomeRootToken(store: NodeStore, newRoot: Option<Token>, oldRoot: Option<NodeId>)
      returns (res: Result<Option<NodeId>>)
      requires store.Valid()
      requires oldRoot.Some? ==> oldRoot.value < |store.nodes|
      modifies store
      ensures store.Valid()
      ensures res == Ok(Some(|old(store.nodes)|))
      ensures oldRoot.None? ==> store.nodes == old(store.nodes) + [Node(newRoot, [], None, -1)]
      ensures oldRoot.Some? ==>
        store.nodes == AddChildTo(old(store.nodes) + [Node(newRoot, [], None, -1)], |old(store.nodes)|, oldRoot.value) &&
        store.nodes[|old(store.nodes)|].children == Spliced(old(store.nodes), oldRoot.value)
    {
      var n := store.Create(newRoot);
      ghost var h1 := store.nodes;
      res := BecomeRoot(store, Some(n), oldRoot);
      if oldRoot.Some? {
        assert Spliced(h1, oldRoot.value) == Spliced(h1[..n], oldRoot.value);
      }
    }

    // -------------------------------------------------------------------------------------------
    // Deep copy

    /** dupTree(t, parent): a copy of the whole subtree at t, made of fresh nodes; the copy's root
        keeps t's child index and gets `parent` as its parent. The source nodes are not changed.
        `depth` bounds the depth of the subtree (the recursion's measure). */
    method DupTreeWithParent(store: NodeStore, t: Option<NodeId>, parent: Option<NodeId>, ghost depth: nat)
      returns (r: Option<NodeId>)
      requires store.Valid()
      requires t.Some? ==> Bounded(store.nodes, t.value, depth)
      modifies store
      decreases depth
      ensures store.Valid()
      ensures |old(store.nodes)| <= |store.nodes|
      ensures forall k :: 0 <= k < |old(store.nodes)| ==> store.nodes[k] == old(store.nodes[k])
      ensures t.None? ==> r.None? && store.nodes == old(store.nodes)
      ensures t.Some? ==>
        r.Some? && |old(store.nodes)| <= r.value &&
        Copy(store.nodes, old(store.nodes), t.value, r.value) &&
        store.nodes[r.value].parent == parent &&
        store.nodes[r.value].childIndex == old(store.nodes[t.value].childIndex)
    {
      if t.None? {
        return None;
      }
      var src := t.value;
      ghost var h0 := store.nodes;
      var newTree := store.DupNode(src);
      store.SetChildIndex(newTree, store.nodes[src].childIndex);
      store.SetParent(newTree, parent);
      var n := |store.nodes[src].children|;
      var i := 0;
      while i < n
        invariant 0 <= i <= n && n == |h0[src].children|
        invariant store.Valid()
        invariant CopyUpTo(store.nodes, h0, src, newTree, i, parent)
      {
        ghost var hA := store.nodes;
        var child := store.nodes[src].children[i];
        assert Bounded(h0, child, depth - 1);
        BoundedExtend(h0, hA, child, depth - 1);
        var sub := DupTreeWithParent(store, Some(child), Some(src), depth - 1);
        ghost var hB := store.nodes;
        var cc := sub.value;
        CopySource(hB, h0, hA, child, cc);
        AddChild(store, Some(newTree), sub);
        AddChildSingle(hB, newTree, cc);
        CopyAdvance(hA, hB, store.nodes, h0, src, newTree, i, parent, cc);
        i := i + 1;
      }
      r := Some(newTree);
    }

    /** dupTree(t): dupTree(t, null). */
    method DupTree(store: NodeStore, t: Option<NodeId>) returns (r: Option<NodeId>)
      requires store.Valid()
      requires t.Some? ==> Acyclic(store.nodes, t.value)
      modifies store
      ensures store.Valid()
      ensures |old(store.nodes)| <= |store.nodes|
      ensures forall k :: 0 <= k < |old(store.nodes)| ==> store.nodes[k] == old(store.nodes[k])
      ensures t.None? ==> r.None? && store.nodes == old(store.nodes)
      ensures t.Some? ==>
        r.Some? && |old(store.nodes)| <= r.value &&
        Copy(store.nodes, old(store.nodes), t.value, r.value) &&
        store.nodes[r.value].parent.None? &&
        store.nodes[r.value].childIndex == old(store.nodes[t.value].childIndex)
    {
      ghost var d: nat := 0;
      if t.Some? {
        d :| Bounded(store.nodes, t.value, d);
      }
      r := DupTreeWithParent(store, t, None, d);
    }

    // -------------------------------------------------------------------------------------------
    // Debugging ids

    /** getUniqueID(node): the id node was given before, or else the counter's value, after which
        the counter moves on by one. */
    method GetUniqueID(node: Option<NodeId>) returns (id: int)
      requires Valid()
      modifies this
      ensures Valid() && treeToUniqueIDMap.Some?
      ensures node in old(IdMap()) ==>
        id == old(IdMap())[node] && IdMap() == old(IdMap()) && seen == old(seen) && uniqueNodeID == old(uniqueNodeID)
      ensures node !in old(IdMap()) ==>
        id == old(uniqueNodeID) && id == Int32(|old(seen)| + 1) &&
        IdMap() == old(IdMap())[node := id] && seen == old(seen) + [node] &&
        uniqueNodeID == Inc32(old(uniqueNodeID))
    {
      if treeToUniqueIDMap.None? {
        treeToUniqueIDMap := Some(map[]);
      }
      var m := treeToUniqueIDMap.value;
      if node in m {
        return m[node];
      }
      id := uniqueNodeID;
      ghost var s := seen;
      assert node !in s;
      treeToUniqueIDMap := Some(m[node := id]);
      seen := seen + [node];
      uniqueNodeID := Inc32(uniqueNodeID);
      Int32Succ(|s| + 1);
      assert IdMap() == m[node := id];
      forall i | 0 <= i < |seen|
        ensures IdMap()[seen[i]] == Int32(i + 1)
      {
        if i < |s| {
          assert seen[i] == s[i] && s[i] != node;
        }
      }
    }

    /** Ids never collide while fewer than 2^32 nodes have been seen. */
    lemma IdsDistinct(a: Option<NodeId>, b: Option<NodeId>)
      requires Valid() && |seen| <= TWO_TO_32
      requires a in IdMap() && b in IdMap() && a != b
      ensures IdMap()[a] != IdMap()[b]
    {
      assert a in seen && b in seen;
      var i :| 0 <= i < |seen| && seen[i] == a;
      var j :| 0 <= j < |seen| && seen[j] == b;
      assert IdMap()[a] == Int32(i + 1) && IdMap()[b] == Int32(j + 1);
      if i < j { Int32Injective(i + 1, j + 1); } else { Int32Injective(j + 1, i + 1); }
    }
  }
}
