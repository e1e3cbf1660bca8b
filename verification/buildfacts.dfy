/** What `TabTreeBuilder.build` (src/core/TabTreeBuilder.ts:15-44) promises
    about the forest it returns: its shape, order, depths and which tabs it
    holds. */
module BuildFacts {
  import opened Tabs
  import opened Sorting
  import opened Openers
  import opened Builder

  /** A stamped node: the index entry for its id, at the depth that is its
      number of opener hops to a root, its children the sorted children
      array of its map node, each one level deeper. */
  ghost predicate NodeOK(m: TabMap, l: Links, n: TabTreeNode) {
    && n.tab.id in m && m[n.tab.id] == n.tab
    && n.depth >= 0 && IsRootAt(m, n.tab.id, n.depth)
    && Tops(n.children) == SortBy(ChildrenOf(l, n.tab.id), IndexKey)
    && (forall c :: c in n.children ==> c.depth == n.depth + 1)
  }

  lemma {:induction false} StampNodes(m: TabMap, l: Links, sorted: seq<TabInfo>, depth: int, path: seq<int>)
    requires Linked(m, l) && ValidPath(m, path) && Siblings(m, sorted, Last(path)) && depth == |path|
    ensures forall n :: n in Flatten(Stamp(m, l, sorted, depth, path)) ==> NodeOK(m, l, n)
    decreases |m.Keys - PathSet(path)|, 0, |sorted|
  {
    if sorted != [] {
      var n := sorted[0];
      ChildNotOnPath(m, path, n.id);
      var below := path + [n.id];
      var kids := AddDepth(m, l, ChildrenOf(l, n.id), depth + 1, below);
      AddDepthNodes(m, l, ChildrenOf(l, n.id), depth + 1, below);
      StampNodes(m, l, sorted[1..], depth, path);
      var rest := Stamp(m, l, sorted[1..], depth, path);
      var top := TabTreeNode(n, kids, depth);
      StampHeadOK(m, l, sorted, depth, path);
      assert Stamp(m, l, sorted, depth, path) == [top] + rest;
      FlattenCons(top, rest);
    }
  }

  /** The head node `Stamp` makes is `NodeOK`. */
  lemma StampHeadOK(m: TabMap, l: Links, sorted: seq<TabInfo>, depth: int, path: seq<int>)
    requires Linked(m, l) && ValidPath(m, path) && Siblings(m, sorted, Last(path)) && depth == |path|
    requires sorted != []
    ensures NodeOK(m, l, Stamp(m, l, sorted, depth, path)[0])
  {
    var n := sorted[0];
    ChildNotOnPath(m, path, n.id);
    var below := path + [n.id];
    PathRooted(m, below, |path|);
    assert below[|path|] == n.id;
    var kids := AddDepth(m, l, ChildrenOf(l, n.id), depth + 1, below);
    AddDepthTops(m, l, ChildrenOf(l, n.id), depth + 1, below);
    assert Stamp(m, l, sorted, depth, path)[0] == TabTreeNode(n, kids, depth);
  }

  /** `addDepth` puts its nodes in index order, all at the given depth. */
  lemma AddDepthTops(m: TabMap, l: Links, nodes: seq<TabInfo>, depth: int, path: seq<int>)
    requires Linked(m, l) && ValidPath(m, path) && Siblings(m, nodes, Last(path))
    ensures Tops(AddDepth(m, l, nodes, depth, path)) == SortBy(nodes, IndexKey)
    ensures forall c :: c in AddDepth(m, l, nodes, depth, path) ==> c.depth == depth
  {
    var kids := AddDepth(m, l, nodes, depth, path);
    forall c | c in kids ensures c.depth == depth {
      var k :| 0 <= k < |kids| && kids[k] == c;
    }
  }

  lemma FlattenCons(top: TabTreeNode, rest: seq<TabTreeNode>)
    ensures forall n :: n in Flatten([top] + rest) <==> n == top || n in Flatten(top.children) || n in Flatten(rest)
  {
    assert ([top] + rest)[1..] == rest;
  }

  lemma {:induction false} AddDepthNodes(m: TabMap, l: Links, nodes: seq<TabInfo>, depth: int, path: seq<int>)
    requires Linked(m, l) && ValidPath(m, path) && Siblings(m, nodes, Last(path)) && depth == |path|
    ensures forall n :: n in Flatten(AddDepth(m, l, nodes, depth, path)) ==> NodeOK(m, l, n)
    decreases |m.Keys - PathSet(path)|, 1
  {
    var sorted := SortBy(nodes, IndexKey);
    assert forall n :: n in sorted ==> n in multiset(nodes);
    StampNodes(m, l, sorted, depth, path);
  }

  /** Every node of the built forest is stamped as `NodeOK` says. */
  lemma BuildNodes(tabs: seq<TabInfo>)
    requires UniqueIds(tabs)
    ensures forall n :: n in Flatten(Build(tabs)) ==> NodeOK(TabIndex(tabs), Link(TabIndex(tabs), tabs), n)
  {
    var m := TabIndex(tabs);
    LinkLinked(tabs);
    var l := Link(m, tabs);
    AddDepthNodes(m, l, l.roots, 0, []);
  }

  /** The roots are the tabs with no opener or an opener that is not in the
      input, stably sorted by `index ?? 0`, each at depth 0. */
  lemma BuildRoots(tabs: seq<TabInfo>)
    requires UniqueIds(tabs)
    ensures Tops(Build(tabs)) == SortBy(RootsAmong(IdSet(tabs), tabs), IndexKey)
    ensures forall n :: n in Build(tabs) ==> n.depth == 0
  {
    var m := TabIndex(tabs);
    LinkLinked(tabs);
    IndexOfUnique(tabs);
    var l := Link(m, tabs);
    LinkRoots(m, tabs);
    assert m.Keys == IdSet(tabs);
    var sorted := SortBy(l.roots, IndexKey);
    assert forall n :: n in sorted ==> n in multiset(l.roots);
    assert Build(tabs) == Stamp(m, l, sorted, 0, []);
  }

  /** Each node's children are the input tabs that name it as opener,
      stably sorted by `index ?? 0`, one level deeper than the node. */
  lemma BuildChildren(tabs: seq<TabInfo>)
    requires UniqueIds(tabs)
    ensures forall n :: n in Flatten(Build(tabs)) ==>
      Tops(n.children) == SortBy(OpenedBy(tabs, n.tab.id), IndexKey)
      && forall c :: c in n.children ==> c.depth == n.depth + 1
  {
    var m := TabIndex(tabs);
    IndexOfUnique(tabs);
    BuildNodes(tabs);
    forall n | n in Flatten(Build(tabs))
      ensures Tops(n.children) == SortBy(OpenedBy(tabs, n.tab.id), IndexKey)
    {
      LinkChildren(m, tabs, n.tab.id);
    }
  }

  /** Every sibling list is non-decreasing in `index ?? 0` and is a stable
      permutation of the tabs it is built from: nothing added or lost, and
      tabs with equal keys in input order. */
  lemma BuildOrder(tabs: seq<TabInfo>)
    requires UniqueIds(tabs)
    ensures Sorted(Tops(Build(tabs)), IndexKey)
    ensures multiset(Tops(Build(tabs))) == multiset(RootsAmong(IdSet(tabs), tabs))
    ensures forall k :: WithKey(Tops(Build(tabs)), IndexKey, k) == WithKey(RootsAmong(IdSet(tabs), tabs), IndexKey, k)
    ensures forall n :: n in Flatten(Build(tabs)) ==>
      Sorted(Tops(n.children), IndexKey)
      && multiset(Tops(n.children)) == multiset(OpenedBy(tabs, n.tab.id))
      && forall k :: WithKey(Tops(n.children), IndexKey, k) == WithKey(OpenedBy(tabs, n.tab.id), IndexKey, k)
  {
    BuildRoots(tabs);
    BuildChildren(tabs);
    forall k ensures WithKey(Tops(Build(tabs)), IndexKey, k) == WithKey(RootsAmong(IdSet(tabs), tabs), IndexKey, k) {
      SortIsStable(RootsAmong(IdSet(tabs), tabs), IndexKey, k);
    }
    forall n, k | n in Flatten(Build(tabs))
      ensures WithKey(Tops(n.children), IndexKey, k) == WithKey(OpenedBy(tabs, n.tab.id), IndexKey, k)
    {
      SortIsStable(OpenedBy(tabs, n.tab.id), IndexKey, k);
    }
  }

  /** A node's depth is the number of opener hops from its tab to a root. */
  lemma BuildDepth(tabs: seq<TabInfo>)
    requires UniqueIds(tabs)
    ensures forall n :: n in Flatten(Build(tabs)) ==> n.depth >= 0 && IsRootAt(TabIndex(tabs), n.tab.id, n.depth)
  {
    BuildNodes(tabs);
  }

  /** Each node carries an input record unchanged; no input gives no forest. */
  lemma BuildKeepsTabs(tabs: seq<TabInfo>)
    requires UniqueIds(tabs)
    ensures forall n :: n in Flatten(Build(tabs)) ==> n.tab in tabs
    ensures tabs == [] ==> Build(tabs) == []
  {
    BuildNodes(tabs);
    if tabs == [] {
      assert Link(TabIndex(tabs), tabs).roots == [];
    }
  }

  /** Tab 1 at position 0 with no opener, tabs 2 (position 0) and 3
      (position 1) opened by tab 1; other fields are free. */
  ghost predicate SampleTabs(t1: TabInfo, t2: TabInfo, t3: TabInfo) {
    && t1.id == 1 && t1.openerTabId == None && IndexKey(t1) == 0
    && t2.id == 2 && t2.openerTabId == Some(1) && IndexKey(t2) == 0
    && t3.id == 3 && t3.openerTabId == Some(1) && IndexKey(t3) == 1
  }

  /** The sample's roots: only tab 1. */
  lemma SampleRoots(t1: TabInfo, t2: TabInfo, t3: TabInfo)
    requires SampleTabs(t1, t2, t3)
    ensures SortBy(RootsAmong(IdSet([t1, t2, t3]), [t1, t2, t3]), IndexKey) == [t1]
  {
    var tabs := [t1, t2, t3];
    var ids := IdSet(tabs);
    assert 1 in ids by {
      assert t1 in tabs;
    }
    assert tabs == [t1] + [t2, t3] && [t2, t3] == [t2] + [t3] && [t3] == [t3] + [];
    RootsAmongCons(ids, t3, []);
    RootsAmongCons(ids, t2, [t3]);
    RootsAmongCons(ids, t1, [t2, t3]);
    assert RootsAmong(ids, tabs) == [t1];
    assert SortBy([t1], IndexKey) == Insert(t1, SortBy([], IndexKey), IndexKey);
  }

  /** The sample's children: 2 then 3 under tab 1, none under 2 or 3. */
  lemma SampleOpened(t1: TabInfo, t2: TabInfo, t3: TabInfo)
    requires SampleTabs(t1, t2, t3)
    ensures SortBy(OpenedBy([t1, t2, t3], 1), IndexKey) == [t2, t3]
    ensures OpenedBy([t1, t2, t3], 2) == [] && OpenedBy([t1, t2, t3], 3) == []
  {
    SampleOpenedRoot(t1, t2, t3);
    SampleOpenedLeaf(t1, t2, t3, 2);
    SampleOpenedLeaf(t1, t2, t3, 3);
    SortTwo(t2, t3, IndexKey);
  }

  lemma SampleOpenedRoot(t1: TabInfo, t2: TabInfo, t3: TabInfo)
    requires SampleTabs(t1, t2, t3)
    ensures OpenedBy([t1, t2, t3], 1) == [t2, t3]
  {
    OpenedByThree(t1, t2, t3, 1);
    assert [] + [t2] + [t3] == [t2, t3];
  }

  lemma SampleOpenedLeaf(t1: TabInfo, t2: TabInfo, t3: TabInfo, p: int)
    requires SampleTabs(t1, t2, t3) && (p == 2 || p == 3)
    ensures OpenedBy([t1, t2, t3], p) == []
  {
    OpenedByThree(t1, t2, t3, p);
  }

  /** `OpenedBy` over three tabs, one at a time. */
  lemma OpenedByThree(t1: TabInfo, t2: TabInfo, t3: TabInfo, p: int)
    ensures OpenedBy([t1, t2, t3], p) ==
      (if t1.openerTabId == Some(p) then [t1] else []) + (if t2.openerTabId == Some(p) then [t2] else [])
      + (if t3.openerTabId == Some(p) then [t3] else [])
  {
    assert [t1, t2, t3] == [t1] + [t2, t3] && [t2, t3] == [t2] + [t3] && [t3] == [t3] + [];
    OpenedByCons(t3, [], p);
    OpenedByCons(t2, [t3], p);
    OpenedByCons(t1, [t2, t3], p);
  }

  /** Tabs 1 (position 0), 2 (position 0, opened by 1) and 3 (position 1,
      opened by 1) give the single root 1 at depth 0 with children 2 then 3
      at depth 1, which have no children. */
  lemma BuildExample(tabs: seq<TabInfo>, t1: TabInfo, t2: TabInfo, t3: TabInfo)
    requires SampleTabs(t1, t2, t3) && tabs == [t1, t2, t3]
    ensures UniqueIds(tabs)
    ensures |Build(tabs)| == 1 && Build(tabs)[0].tab == t1 && Build(tabs)[0].depth == 0
    ensures Tops(Build(tabs)[0].children) == [t2, t3]
    ensures forall c :: c in Build(tabs)[0].children ==> c.depth == 1 && c.children == []
  {
    SampleUnique(t1, t2, t3);
    ExampleRoot(tabs, t1, t2, t3);
    ExampleChildren(tabs, t1, t2, t3);
    SampleOpened(t1, t2, t3);
    var n := Build(tabs)[0];
    TopFlattened(Build(tabs), n);
    BuildGrandchildren(tabs, n);
    LeavesOf(tabs, n.children, t2, t3, 0);
  }

  lemma SampleUnique(t1: TabInfo, t2: TabInfo, t3: TabInfo)
    requires SampleTabs(t1, t2, t3)
    ensures UniqueIds([t1, t2, t3])
  {
  }

  /** The sample's one root is tab 1, at depth 0. */
  lemma ExampleRoot(tabs: seq<TabInfo>, t1: TabInfo, t2: TabInfo, t3: TabInfo)
    requires SampleTabs(t1, t2, t3) && tabs == [t1, t2, t3] && UniqueIds(tabs)
    ensures |Build(tabs)| == 1 && Build(tabs)[0].tab == t1 && Build(tabs)[0].depth == 0
  {
    var f := Build(tabs);
    BuildRoots(tabs);
    SampleRoots(t1, t2, t3);
    assert Tops(f) == [t1];
    assert f[0] in f;
  }

  /** Tab 1's children are tabs 2 then 3. */
  lemma ExampleChildren(tabs: seq<TabInfo>, t1: TabInfo, t2: TabInfo, t3: TabInfo)
    requires SampleTabs(t1, t2, t3) && tabs == [t1, t2, t3] && UniqueIds(tabs)
    requires |Build(tabs)| == 1 && Build(tabs)[0].tab == t1
    ensures Tops(Build(tabs)[0].children) == [t2, t3]
  {
    var f := Build(tabs);
    TopFlattened(f, f[0]);
    BuildChildren(tabs);
    SampleOpened(t1, t2, t3);
  }

  /** Each child of a node of the built forest is one level deeper and has
      as children the tabs it opened, sorted. */
  lemma BuildGrandchildren(tabs: seq<TabInfo>, n: TabTreeNode)
    requires UniqueIds(tabs) && n in Flatten(Build(tabs))
    ensures forall c :: c in n.children ==>
      c.depth == n.depth + 1 && Tops(c.children) == SortBy(OpenedBy(tabs, c.tab.id), IndexKey)
  {
    BuildChildren(tabs);
    FlattenMembers(Build(tabs), n);
    forall c | c in n.children ensures c in Flatten(Build(tabs)) {
      TopFlattened(n.children, c);
    }
  }

  /** Two children that opened no input tab are leaves. */
  lemma LeavesOf(tabs: seq<TabInfo>, kids: seq<TabTreeNode>, t2: TabInfo, t3: TabInfo, depth: int)
    requires Tops(kids) == [t2, t3] && OpenedBy(tabs, t2.id) == [] && OpenedBy(tabs, t3.id) == []
    requires forall c :: c in kids ==>
      c.depth == depth + 1 && Tops(c.children) == SortBy(OpenedBy(tabs, c.tab.id), IndexKey)
    ensures forall c :: c in kids ==> c.depth == depth + 1 && c.children == []
  {
    forall c | c in kids ensures c.children == [] {
      var k :| 0 <= k < |kids| && kids[k] == c;
      LeafTab(tabs, kids, t2, t3, k);
      LeafChild(tabs, c);
    }
  }

  lemma LeafTab(tabs: seq<TabInfo>, kids: seq<TabTreeNode>, t2: TabInfo, t3: TabInfo, k: int)
    requires Tops(kids) == [t2, t3] && OpenedBy(tabs, t2.id) == [] && OpenedBy(tabs, t3.id) == []
    requires 0 <= k < |kids|
    ensures OpenedBy(tabs, kids[k].tab.id) == []
  {
    assert kids[k].tab == Tops(kids)[k];
    if k == 0 {
      assert Tops(kids)[0] == t2;
    } else {
      assert Tops(kids)[1] == t3;
    }
  }

  lemma LeafChild(tabs: seq<TabInfo>, c: TabTreeNode)
    requires OpenedBy(tabs, c.tab.id) == []
    requires Tops(c.children) == SortBy(OpenedBy(tabs, c.tab.id), IndexKey)
    ensures c.children == []
  {
    assert |Tops(c.children)| == 0;
  }

  /** Why `Build` asks for unique ids: of two parentless tabs sharing an id
      the index keeps the second, and the loop pushes that node once for
      each of them, so it would be a root twice. */
  lemma LinkDuplicates(a: TabInfo, b: TabInfo)
    requires a.id == b.id && a.openerTabId.None? && b.openerTabId.None?
    ensures TabIndex([a, b]) == map[a.id := b]
    ensures Link(TabIndex([a, b]), [a, b]).roots == [b, b]
  {
    DupIndex(a, b);
    LinkTwoRoots(TabIndex([a, b]), a, b);
  }

  /** Of two tabs sharing an id, the index keeps the second. */
  lemma DupIndex(a: TabInfo, b: TabInfo)
    requires a.id == b.id
    ensures TabIndex([a, b]) == map[a.id := b]
  {
    var m := TabIndex([a, b]);
    assert m.Keys == {a.id} by {
      assert a in [a, b];
    }
    assert m[b.id] == b by {
      assert [a, b][1] == b;
    }
  }

  /** Two parentless tabs of the index both become roots, in input order. */
  lemma LinkTwoRoots(m: TabMap, a: TabInfo, b: TabInfo)
    requires a.id in m && b.id in m && a.openerTabId.None? && b.openerTabId.None?
    ensures Link(m, [a, b]).roots == [m[a.id], m[b.id]]
  {
    assert [a][..0] == [];
    assert Link(m, [a]).roots == [m[a.id]];
    assert [a, b][..1] == [a];
    assert Link(m, [a, b]) == Link(m, [a]).(roots := Link(m, [a]).roots + [m[b.id]]);
  }
}
