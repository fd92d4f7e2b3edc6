/** Tree nodes as values, and the effect of the Tree operations the adaptor relies on
    (adding a child, adding a list of children), as functions on a whole store of nodes.

    A node is referred to by its index in the store. A node without a token payload is a
    "nil" node: a pure container whose children stand for an unrooted list of siblings.
 */
module Trees {

  datatype Option<T> = None | Some(value: T)

  /** A token payload: its type and its text. */
  datatype Token = Token(ttype: int, text: string)

  /** A reference to a node of a store: its index. */
  type NodeId = nat

  datatype Node = Node(token: Option<Token>, children: seq<NodeId>, parent: Option<NodeId>, childIndex: int)
  {
    /** A node with no token is a flat-list container. */
    predicate IsNil() { token.None? }
  }

  /** Every node of the program, indexed by NodeId. */
  type Heap = seq<Node>

  /** Children are nodes of the store, and a nil node is never a child: adding a nil node splices
      its children in instead of nesting it. */
  ghost predicate WellFormed(h: Heap) {
    forall n, j :: 0 <= n < |h| && 0 <= j < |h[n].children| ==>
      h[n].children[j] < |h| && !h[h[n].children[j]].IsNil()
  }

  /** Every element of `s` is a node of the store. */
  predicate InStore(h: Heap, s: seq<NodeId>) {
    forall i :: 0 <= i < |s| ==> s[i] < |h|
  }

  /** `c` points back at `t`: its parent is `t` and its child index is a position of `t` holding `c`. */
  ghost predicate Linked(h: Heap, t: NodeId, c: NodeId)
    requires t < |h|
  {
    c < |h| && h[c].parent == Some(t) &&
    0 <= h[c].childIndex < |h[t].children| && h[t].children[h[c].childIndex] == c
  }

  /** `h'` is `h` after `added` was appended to the children of `t`: no token changes, no other child
      list changes, every node appended is linked back to `t`, and nodes neither `t` nor appended are
      untouched. */
  ghost predicate Attached(h: Heap, h': Heap, t: NodeId, added: seq<NodeId>)
  {
    |h'| == |h| && t < |h| &&
    h'[t].children == h[t].children + added &&
    (forall k :: 0 <= k < |h| ==> h'[k].token == h[k].token) &&
    (forall k :: 0 <= k < |h| && k != t ==> h'[k].children == h[k].children) &&
    (forall k :: 0 <= k < |h| && k != t && k !in added ==> h'[k] == h[k]) &&
    (t !in added ==> h'[t].parent == h[t].parent && h'[t].childIndex == h[t].childIndex) &&
    (forall j :: |h[t].children| <= j < |h'[t].children| ==> Linked(h', t, h'[t].children[j]))
  }

  /** One step of Tree.addChild: append `c` to `t`'s children, then set `c`'s parent to `t` and
      its child index to its new position. */
  function Append(h: Heap, t: NodeId, c: NodeId): (h': Heap)
    requires t < |h| && c < |h|
    ensures |h'| == |h|
  {
    var h1 := h[t := h[t].(children := h[t].children + [c])];
    h1[c := h1[c].(parent := Some(t), childIndex := |h[t].children|)]
  }

  /** Append each of `cs`, first to last. */
  function AppendAll(h: Heap, t: NodeId, cs: seq<NodeId>): (h': Heap)
    requires t < |h| && InStore(h, cs)
    ensures |h'| == |h|
    decreases |cs|
  {
    if cs == [] then h else Append(AppendAll(h, t, cs[..|cs| - 1]), t, cs[|cs| - 1])
  }

  /** Appending one more element of `cs` extends the run over its prefix by one `Append`. */
  lemma AppendAllSnoc(h: Heap, t: NodeId, cs: seq<NodeId>, i: nat)
    requires t < |h| && InStore(h, cs) && i < |cs|
    ensures InStore(h, cs[..i]) && InStore(h, cs[..i + 1])
    ensures AppendAll(h, t, cs[..i + 1]) == Append(AppendAll(h, t, cs[..i]), t, cs[i])
  {
    assert InStore(h, cs[..i + 1]);
    assert cs[..i + 1][..i] == cs[..i];
  }

  /** What adding `k` contributes to a child list: the children of a nil node, else `k` itself. */
  function Spliced(h: Heap, k: NodeId): seq<NodeId>
    requires k < |h|
  {
    if h[k].IsNil() then h[k].children else [k]
  }

  /** What adding each of `kids` in turn contributes to a child list. */
  function Flatten(h: Heap, kids: seq<NodeId>): seq<NodeId>
    requires InStore(h, kids)
    decreases |kids|
  {
    if kids == [] then [] else Flatten(h, kids[..|kids| - 1]) + Spliced(h, kids[|kids| - 1])
  }

  /** Tree.addChild(t, child): a nil child has its children moved under `t`; any other child is
      appended itself. */
  function AddChildTo(h: Heap, t: NodeId, child: NodeId): (h': Heap)
    requires WellFormed(h) && t < |h| && child < |h|
    ensures |h'| == |h| && WellFormed(h')
  {
    AppendAllWellFormed(h, t, Spliced(h, child));
    AppendAll(h, t, Spliced(h, child))
  }

  /** Tree.addChildren(t, kids): addChild for each kid, first to last. */
  function AddChildrenTo(h: Heap, t: NodeId, kids: seq<NodeId>): (h': Heap)
    requires WellFormed(h) && t < |h| && InStore(h, kids)
    ensures |h'| == |h| && WellFormed(h')
    decreases |kids|
  {
    if kids == [] then h else AddChildTo(AddChildrenTo(h, t, kids[..|kids| - 1]), t, kids[|kids| - 1])
  }

  // ---------------------------------------------------------------------------------------------
  // Lemmas about the effect of adding children

  lemma AppendAttached(h: Heap, t: NodeId, c: NodeId)
    requires t < |h| && c < |h|
    ensures Attached(h, Append(h, t, c), t, [c])
  {
  }

  lemma AttachedTrans(h: Heap, h1: Heap, h2: Heap, t: NodeId, a: seq<NodeId>, b: seq<NodeId>)
    requires Attached(h, h1, t, a) && Attached(h1, h2, t, b)
    ensures Attached(h, h2, t, a + b)
  {
    var n0, n1 := |h[t].children|, |h1[t].children|;
    assert h2[t].children == h[t].children + (a + b);
    forall j | n0 <= j < |h2[t].children|
      ensures Linked(h2, t, h2[t].children[j])
    {
      if j < n1 {
        var c := h1[t].children[j];
        assert h2[t].children[j] == c;
        assert Linked(h1, t, c);
        if c in b {
          var j' :| 0 <= j' < |b| && b[j'] == c;
          assert h2[t].children[n1 + j'] == c;
          assert Linked(h2, t, h2[t].children[n1 + j']);
        } else if c != t {
          assert h2[c] == h1[c];
          assert h2[t].children[h1[c].childIndex] == c;
        } else {
          assert h2[t].children[h1[t].childIndex] == c;
        }
      }
    }
  }

  lemma {:induction false} AppendAllAttached(h: Heap, t: NodeId, cs: seq<NodeId>)
    requires t < |h| && InStore(h, cs)
    ensures Attached(h, AppendAll(h, t, cs), t, cs)
    decreases |cs|
  {
    if cs == [] {
      assert h[t].children + cs == h[t].children;
    } else {
      var init, last := cs[..|cs| - 1], cs[|cs| - 1];
      AppendAllAttached(h, t, init);
      AppendAttached(AppendAll(h, t, init), t, last);
      AttachedTrans(h, AppendAll(h, t, init), AppendAll(h, t, cs), t, init, [last]);
      assert init + [last] == cs;
    }
  }

  lemma AppendAllWellFormed(h: Heap, t: NodeId, cs: seq<NodeId>)
    requires WellFormed(h) && t < |h|
    requires forall i :: 0 <= i < |cs| ==> cs[i] < |h| && !h[cs[i]].IsNil()
    ensures WellFormed(AppendAll(h, t, cs))
  {
    AppendAllAttached(h, t, cs);
    var h' := AppendAll(h, t, cs);
    forall n, j | 0 <= n < |h'| && 0 <= j < |h'[n].children|
      ensures h'[n].children[j] < |h'| && !h'[h'[n].children[j]].IsNil()
    {
      if n == t && j >= |h[t].children| {
        assert h'[n].children[j] in cs;
      }
    }
  }

  lemma AddChildAttached(h: Heap, t: NodeId, child: NodeId)
    requires WellFormed(h) && t < |h| && child < |h|
    ensures Attached(h, AddChildTo(h, t, child), t, Spliced(h, child))
  {
    AppendAllAttached(h, t, Spliced(h, child));
  }

  /** Adding a list of kids appends exactly what they flatten to. The one exclusion is a nil
      target that is itself among the kids: its own child list changes on the way. */
  lemma {:induction false} AddChildrenAttached(h: Heap, t: NodeId, kids: seq<NodeId>)
    requires WellFormed(h) && t < |h| && InStore(h, kids)
    requires !(h[t].IsNil() && t in kids)
    ensures Attached(h, AddChildrenTo(h, t, kids), t, Flatten(h, kids))
    decreases |kids|
  {
    if kids == [] {
      assert h[t].children + [] == h[t].children;
    } else {
      var init, last := kids[..|kids| - 1], kids[|kids| - 1];
      AddChildrenAttached(h, t, init);
      var h1 := AddChildrenTo(h, t, init);
      AddChildAttached(h1, t, last);
      assert Spliced(h1, last) == Spliced(h, last);
      AttachedTrans(h, h1, AddChildrenTo(h, t, kids), t, Flatten(h, init), Spliced(h, last));
    }
  }

  /** Adding `a` and then `b` is adding `a + b`. */
  lemma {:induction false} AddChildrenConcat(h: Heap, t: NodeId, a: seq<NodeId>, b: seq<NodeId>)
    requires WellFormed(h) && t < |h|
    requires InStore(h, a)
    requires InStore(h, b)
    ensures AddChildrenTo(AddChildrenTo(h, t, a), t, b) == AddChildrenTo(h, t, a + b)
    decreases |b|
  {
    if b == [] {
      assert a + b == a;
    } else {
      InitOfConcat(h, a, b);
      AddChildrenConcat(h, t, a, b[..|b| - 1]);
    }
  }

  lemma {:induction false} FlattenConcat(h: Heap, a: seq<NodeId>, b: seq<NodeId>)
    requires InStore(h, a)
    requires InStore(h, b)
    ensures Flatten(h, a + b) == Flatten(h, a) + Flatten(h, b)
    decreases |b|
  {
    if b == [] {
      assert a + b == a;
    } else {
      var init := b[..|b| - 1];
      InitOfConcat(h, a, b);
      FlattenConcat(h, a, init);
      ConcatAssoc(Flatten(h, a), Flatten(h, init), Spliced(h, b[|b| - 1]));
    }
  }

  lemma ConcatAssoc(x: seq<NodeId>, y: seq<NodeId>, z: seq<NodeId>)
    ensures (x + y) + z == x + (y + z)
  {
  }

  /** The last-element split of `a + b` is that of `b`, after `a`. */
  lemma InitOfConcat(h: Heap, a: seq<NodeId>, b: seq<NodeId>)
    requires InStore(h, a) && InStore(h, b) && b != []
    ensures InStore(h, a + b) && InStore(h, b[..|b| - 1])
    ensures (a + b)[..|a + b| - 1] == a + b[..|b| - 1]
    ensures (a + b)[|a + b| - 1] == b[|b| - 1]
  {
    assert (a + b)[..|a + b| - 1] == a + b[..|b| - 1];
  }

  /** Flattening kids of the store yields nodes of the store. */
  lemma {:induction false} FlattenInStore(h: Heap, kids: seq<NodeId>)
    requires WellFormed(h) && InStore(h, kids)
    ensures InStore(h, Flatten(h, kids))
    decreases |kids|
  {
    if kids != [] {
      FlattenInStore(h, kids[..|kids| - 1]);
    }
  }

  /** A list of genuine (non-nil) nodes flattens to itself. */
  lemma {:induction false} FlattenRoots(h: Heap, kids: seq<NodeId>)
    requires forall i :: 0 <= i < |kids| ==> kids[i] < |h| && !h[kids[i]].IsNil()
    ensures Flatten(h, kids) == kids
    decreases |kids|
  {
    if kids != [] {
      var init, last := kids[..|kids| - 1], kids[|kids| - 1];
      assert forall i :: 0 <= i < |init| ==> init[i] == kids[i];
      FlattenRoots(h, init);
      assert Spliced(h, last) == [last];
      assert init + [last] == kids;
    }
  }

  /** Adding the children of a nil node, none of them nil, and then `ks` to `n` adds them all in
      one run, and attaches those children followed by the flattened `ks`. */
  lemma AdoptAll(h: Heap, n: NodeId, oldKids: seq<NodeId>, ks: seq<NodeId>)
    requires WellFormed(h) && n < |h| && InStore(h, oldKids) && InStore(h, ks)
    requires forall i :: 0 <= i < |oldKids| ==> !h[oldKids[i]].IsNil()
    requires !(h[n].IsNil() && n in ks)
    ensures AddChildrenTo(AddChildrenTo(h, n, oldKids), n, ks) == AddChildrenTo(h, n, oldKids + ks)
    ensures Attached(h, AddChildrenTo(h, n, oldKids + ks), n, oldKids + Flatten(h, ks))
  {
    AddChildrenConcat(h, n, oldKids, ks);
    assert InStore(h, oldKids + ks);
    assert !(h[n].IsNil() && n in oldKids + ks);
    AddChildrenAttached(h, n, oldKids + ks);
    FlattenConcat(h, oldKids, ks);
    FlattenRoots(h, oldKids);
  }

  /** Allocating a node does not change what existing kids flatten to. */
  lemma {:induction false} FlattenExtend(h: Heap, x: Node, kids: seq<NodeId>)
    requires InStore(h, kids)
    ensures Flatten(h + [x], kids) == Flatten(h, kids)
    decreases |kids|
  {
    if kids != [] {
      FlattenExtend(h, x, kids[..|kids| - 1]);
      assert (h + [x])[kids[|kids| - 1]] == h[kids[|kids| - 1]];
    }
  }

  // ---------------------------------------------------------------------------------------------
  // Deep copies

  /** The subtree at `t` is at most `d` levels deep: it is finite and has no cycle. */
  ghost predicate Bounded(h: Heap, t: NodeId, d: nat)
    decreases d
  {
    t < |h| && d > 0 && forall i :: 0 <= i < |h[t].children| ==> Bounded(h, h[t].children[i], d - 1)
  }

  ghost predicate Acyclic(h: Heap, t: NodeId) {
    exists d: nat :: Bounded(h, t, d)
  }

  /** Node `c` of `h'` is a deep copy of node `t` of `s`: the same payload, as many children, and
      each child of `c` a copy of the child of `t` at the same position. Every node of the copy has
      a greater id than its parent, so the copy shares no node with itself above it. */
  ghost predicate Copy(h': Heap, s: Heap, t: NodeId, c: NodeId)
    decreases |h'| - c, 1
  {
    t < |s| && c < |h'| && h'[c].token == s[t].token && |h'[c].children| == |s[t].children| &&
    forall j :: 0 <= j < |s[t].children| ==> ChildCopied(h', s, t, c, j)
  }

  /** Child `j` of `c` is a fresher node, linked back to `c` at position `j`, and a copy of child `j`
      of `t`. */
  ghost predicate ChildCopied(h': Heap, s: Heap, t: NodeId, c: NodeId, j: nat)
    decreases |h'| - c, 0
  {
    t < |s| && c < |h'| && j < |s[t].children| && j < |h'[c].children| &&
    var cc := h'[c].children[j];
    c < cc < |h'| && h'[cc].parent == Some(c) && h'[cc].childIndex == j &&
    Copy(h', s, s[t].children[j], cc)
  }

  /** A copy survives any change to nodes outside it and to its root's links. */
  lemma {:induction false} CopyFrame(h1: Heap, h2: Heap, s: Heap, t: NodeId, c: NodeId)
    requires Copy(h1, s, t, c)
    requires |h1| <= |h2|
    requires forall k :: c < k < |h1| ==> h2[k] == h1[k]
    requires h2[c].token == h1[c].token && h2[c].children == h1[c].children
    ensures Copy(h2, s, t, c)
    decreases |h1| - c
  {
    forall j | 0 <= j < |s[t].children|
      ensures ChildCopied(h2, s, t, c, j)
    {
      assert ChildCopied(h1, s, t, c, j);
      var cc := h1[c].children[j];
      CopyFrame(h1, h2, s, s[t].children[j], cc);
    }
  }

  /** Adding a node that is not nil appends just that node: `t`'s child list grows by `c` and `c`
      learns its parent and position; nothing else changes. */
  lemma AddChildSingle(h: Heap, t: NodeId, c: NodeId)
    requires WellFormed(h) && t < |h| && c < |h| && t != c && !h[c].IsNil()
    ensures var h' := AddChildTo(h, t, c);
      |h'| == |h| &&
      (forall k :: 0 <= k < |h| && k != t && k != c ==> h'[k] == h[k]) &&
      h'[t] == h[t].(children := h[t].children + [c]) &&
      h'[c] == h[c].(parent := Some(t), childIndex := |h[t].children|)
  {
    assert Spliced(h, c) == [c];
    assert [c][..0] == [];
    assert AppendAll(h, t, [c]) == Append(h, t, c);
  }

  /** Child `j` of `p` stays copied when nothing above `p` changes and `p` keeps that child. */
  lemma KeepCopied(hA: Heap, hC: Heap, s: Heap, src: NodeId, p: NodeId, j: nat)
    requires ChildCopied(hA, s, src, p, j)
    requires |hA| <= |hC| && p < |hC| && j < |hC[p].children|
    requires hC[p].children[j] == hA[p].children[j]
    requires forall k :: p < k < |hA| ==> hC[k] == hA[k]
    ensures ChildCopied(hC, s, src, p, j)
  {
    CopyFrame(hA, hC, s, s[src].children[j], hA[p].children[j]);
  }

  /** A copy `cc` of child `i` of `src`, linked under `p` at position `i`, completes child `i`. */
  lemma NewCopied(hB: Heap, hC: Heap, s: Heap, src: NodeId, p: NodeId, i: nat, cc: NodeId)
    requires src < |s| && i < |s[src].children| && Copy(hB, s, s[src].children[i], cc)
    requires p < cc < |hB| <= |hC| && i < |hC[p].children| && hC[p].children[i] == cc
    requires forall k :: cc < k < |hB| ==> hC[k] == hB[k]
    requires hC[cc] == hB[cc].(parent := Some(p), childIndex := i)
    ensures ChildCopied(hC, s, src, p, i)
  {
    CopyFrame(hB, hC, s, s[src].children[i], cc);
  }

  /** Halfway through copying `src` of `s` into the fresh node `p` of `h`: the nodes of `s` are
      untouched, `p` carries `src`'s payload and its own links, and its first `i` children are
      copies of those of `src`. */
  ghost predicate CopyUpTo(h: Heap, s: Heap, src: NodeId, p: NodeId, i: nat, parent: Option<NodeId>)
  {
    src < |s| && i <= |s[src].children| && p == |s| < |h| &&
    (forall k :: 0 <= k < |s| ==> h[k] == s[k]) &&
    h[p].token == s[src].token && h[p].parent == parent && h[p].childIndex == s[src].childIndex &&
    |h[p].children| == i &&
    forall j :: 0 <= j < i ==> ChildCopied(h, s, src, p, j)
  }

  /** Once the copy `cc` of child `i` of `src`, made in nodes allocated after `hA`, is added under
      `p`, one more child of `p` is copied. */
  lemma CopyAdvance(hA: Heap, hB: Heap, hC: Heap, s: Heap, src: NodeId, p: NodeId, i: nat,
                    parent: Option<NodeId>, cc: NodeId)
    requires CopyUpTo(hA, s, src, p, i, parent) && i < |s[src].children|
    requires |hA| <= |hB| && forall k :: 0 <= k < |hA| ==> hB[k] == hA[k]
    requires |hA| <= cc < |hB| && Copy(hB, s, s[src].children[i], cc)
    requires |hC| == |hB| && forall k :: 0 <= k < |hB| && k != p && k != cc ==> hC[k] == hB[k]
    requires hC[p] == hB[p].(children := hB[p].children + [cc])
    requires hC[cc] == hB[cc].(parent := Some(p), childIndex := i)
    ensures CopyUpTo(hC, s, src, p, i + 1, parent)
  {
    forall j | 0 <= j < i
      ensures ChildCopied(hC, s, src, p, j)
    {
      KeepCopied(hA, hC, s, src, p, j);
    }
    NewCopied(hB, hC, s, src, p, i, cc);
  }

  /** A copy of a node of `s2` is a copy of the same node of any well-formed prefix `s1` of `s2`
      that holds it. */
  lemma {:induction false} CopySource(h': Heap, s1: Heap, s2: Heap, t: NodeId, c: NodeId)
    requires Copy(h', s2, t, c)
    requires WellFormed(s1) && t < |s1| && |s1| <= |s2|
    requires forall k :: 0 <= k < |s1| ==> s2[k] == s1[k]
    ensures Copy(h', s1, t, c)
    decreases |h'| - c
  {
    forall j | 0 <= j < |s1[t].children|
      ensures ChildCopied(h', s1, t, c, j)
    {
      assert ChildCopied(h', s2, t, c, j);
      CopySource(h', s1, s2, s1[t].children[j], h'[c].children[j]);
    }
  }

  /** Allocating nodes keeps a subtree's depth bound. */
  lemma {:induction false} BoundedExtend(s1: Heap, s2: Heap, t: NodeId, d: nat)
    requires Bounded(s1, t, d) && |s1| <= |s2|
    requires forall k :: 0 <= k < |s1| ==> s2[k] == s1[k]
    ensures Bounded(s2, t, d)
    decreases d
  {
    forall i | 0 <= i < |s2[t].children|
      ensures Bounded(s2, s2[t].children[i], d - 1)
    {
      BoundedExtend(s1, s2, s1[t].children[i], d - 1);
    }
  }
}
