/** The tree nodes themselves: the Tree capability the adaptor works through (creating a node
    from a token, duplicating a node, setting parent and child index, adding children). Every
    node lives in one store, so a change to any node is a change to the store.
 */
module Store {
  import opened Trees

  class NodeStore {
    var nodes: Heap

    ghost predicate Valid()
      reads this
    {
      WellFormed(nodes)
    }

    constructor ()
      ensures Valid() && nodes == []
    {
      nodes := [];
    }

    /** A fresh node holding `token` (a nil node when there is none): no children, no parent,
        child index -1. */
    method Create(token: Option<Token>) returns (n: NodeId)
      requires Valid()
      modifies this
      ensures Valid()
      ensures n == |old(nodes)| && nodes == old(nodes) + [Node(token, [], None, -1)]
    {
      n := |nodes|;
      nodes := nodes + [Node(token, [], None, -1)];
    }

    /** A fresh node with the payload of `t` and none of its links or children. */
    method DupNode(t: NodeId) returns (n: NodeId)
      requires Valid() && t < |nodes|
      modifies this
      ensures Valid()
      ensures n == |old(nodes)| && nodes == old(nodes) + [Node(old(nodes[t].token), [], None, -1)]
    {
      n := Create(nodes[t].token);
    }

    method SetParent(t: NodeId, p: Option<NodeId>)
      requires Valid() && t < |nodes|
      modifies this
      ensures Valid()
      ensures nodes == old(nodes)[t := old(nodes[t]).(parent := p)]
    {
      nodes := nodes[t := nodes[t].(parent := p)];
    }

    method SetChildIndex(t: NodeId, i: int)
      requires Valid() && t < |nodes|
      modifies this
      ensures Valid()
      ensures nodes == old(nodes)[t := old(nodes[t]).(childIndex := i)]
    {
      nodes := nodes[t := nodes[t].(childIndex := i)];
    }

    /** One step of Tree.addChild: `c` goes at the end of `t`'s children and learns its parent
        and its position there. */
    method AppendChild(t: NodeId, c: NodeId)
      requires t < |nodes| && c < |nodes|
      modifies this
      ensures nodes == Append(old(nodes), t, c)
    {
      var before := nodes[t].children;
      nodes := nodes[t := nodes[t].(children := before + [c])];
      nodes := nodes[c := nodes[c].(parent := Some(t), childIndex := |before|)];
    }

    /** Tree.addChild: a nil child's children are moved under `t` one by one; any other child is
        appended; each node appended gets `t` as parent and its position as child index. */
    method AddChild(t: NodeId, child: NodeId)
      requires Valid() && t < |nodes| && child < |nodes|
      modifies this
      ensures Valid()
      ensures nodes == AddChildTo(old(nodes), t, child)
      ensures Attached(old(nodes), nodes, t, Spliced(old(nodes), child))
    {
      AddChildAttached(nodes, t, child);
      ghost var h0 := nodes;
      var cs := if nodes[child].IsNil() then nodes[child].children else [child];
      assert cs == Spliced(h0, child) && InStore(h0, cs);
      var i := 0;
      while i < |cs|
        invariant 0 <= i <= |cs|
        invariant |nodes| == |h0|
        invariant nodes == AppendAll(h0, t, cs[..i])
      {
        AppendAllSnoc(h0, t, cs, i);
        AppendChild(t, cs[i]);
        i := i + 1;
      }
      assert cs[..i] == cs;
    }

    /** Tree.addChildren: addChild for each kid, first to last. */
    method AddChildren(t: NodeId, kids: seq<NodeId>)
      requires Valid() && t < |nodes| && InStore(nodes, kids)
      modifies this
      ensures Valid()
      ensures nodes == AddChildrenTo(old(nodes), t, kids)
    {
      ghost var h0 := nodes;
      var i := 0;
      while i < |kids|
        invariant 0 <= i <= |kids|
        invariant |nodes| == |h0|
        invariant Valid()
        invariant nodes == AddChildrenTo(h0, t, kids[..i])
      {
        assert kids[..i + 1][..i] == kids[..i];
        AddChild(t, kids[i]);
        i := i + 1;
      }
      assert kids[..i] == kids;
    }
  }
}
