/** When the panel already shows a forest, reconciling against the same
    forest changes nothing: no element is created, moved, written or
    removed, and nothing is logged. */
module RenderMirror {
  import opened Tabs
  import opened Dom
  import opened Renderer
  import opened RenderFacts

  /** The item `h` mirrors the node `n`: it carries the node's tab id, is
      the item the index has for that id, its row shows the node, and it has
      a child list exactly when the node has children, mirroring them. */
  ghost predicate MirrorRow(d: Doc, idx: map<int, Handle>, h: Handle, n: TabTreeNode)
    decreases n, 1
  {
    IsItem(d, h) && KeyOf(d, h) == n.tab.id && n.tab.id in idx && idx[n.tab.id] == h
    && Shows(d.store[h], n)
    && (ChildList(d, h).Some? <==> n.children != [])
    && (ChildList(d, h).Some? ==> Mirror(d, idx, ChildList(d, h).value, n.children))
  }

  /** The list `t` holds, in order, one item mirroring each of `nodes`. */
  ghost predicate Mirror(d: Doc, idx: map<int, Handle>, t: Handle, nodes: seq<TabTreeNode>)
    decreases nodes, 0
  {
    IsList(d, t) && |Items(d, t)| == |nodes|
    && forall k :: 0 <= k < |nodes| ==> MirrorRow(d, idx, Items(d, t)[k], nodes[k])
  }

  lemma IdInIds(ns: seq<TabTreeNode>, k: int)
    requires 0 <= k < |ns|
    ensures ns[k].tab.id in Ids(ns)
  {
    assert [ns[k]][1..] == [];
    IdsOfMember(ns, k, ns[k].tab.id);
  }

  /** Reconciling a list that already mirrors `nodes` (under the index of
      the whole container) returns the document unchanged, whatever the old
      forest. */
  lemma {:induction false} ReconcileMirror(d: Doc, t: Handle, prev: seq<TabTreeNode>, nodes: seq<TabTreeNode>)
    requires Mirror(d, RowIndex(d), t, nodes)
    ensures Reconcile(d, t, prev, nodes) == Ok(d)
    decreases nodes, 1
  {
    StepsMirror(d, t, RowIndex(d), prev, nodes, 0);
    var oldLis := RowsIn(d, Items(d, t));
    forall h | h in oldLis ensures IsItem(d, h) && KeyOf(d, h) in Ids(nodes) {
      var k :| 0 <= k < |Items(d, t)| && Items(d, t)[k] == h;
      IdInIds(nodes, k);
    }
    PruneKeeps(d, oldLis, nodes);
  }

  lemma {:induction false} StepsMirror(d: Doc, t: Handle, idx: map<int, Handle>, prev: seq<TabTreeNode>,
                                       nodes: seq<TabTreeNode>, i: nat)
    requires idx == RowIndex(d) && Mirror(d, idx, t, nodes) && i <= |nodes|
    ensures Steps(d, t, idx, prev, nodes, i) == Ok(d)
    decreases nodes, 0, |nodes| - i
  {
    if i < |nodes| {
      StepMirror(d, t, idx, prev, nodes[i], i);
      StepsMirror(d, t, idx, prev, nodes, i + 1);
    }
  }

  lemma {:induction false} StepMirror(d: Doc, t: Handle, idx: map<int, Handle>, prev: seq<TabTreeNode>, node: TabTreeNode, i: nat)
    requires idx == RowIndex(d) && IsList(d, t) && i < |Items(d, t)| && MirrorRow(d, idx, Items(d, t)[i], node)
    ensures Step(d, t, idx, prev, node, i) == Ok(d)
    decreases node, 3
  {
    var li := Items(d, t)[i];
    UpdateNoop(d, li, node);
    assert Reuse(d, t, li, node, i) == Ok((d, li));
    assert Place(d, t, idx, node, i) == Ok((d, li));
    ChildListsMirror(d, li, prev, node);
  }

  lemma {:induction false} ChildListsMirror(d: Doc, li: Handle, prev: seq<TabTreeNode>, node: TabTreeNode)
    requires MirrorRow(d, RowIndex(d), li, node)
    ensures ChildLists(d, li, prev, node) == Ok(d)
    decreases node, 2
  {
    if node.children != [] {
      ReconcileMirror(d, ChildList(d, li).value, StoredChildren(prev, node.tab.id), node.children);
    }
  }
}
