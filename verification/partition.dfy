/** Which tabs the forest of `TabTreeBuilder.build`
    (src/core/TabTreeBuilder.ts:16-43) holds, and how often: a tab appears
    once when its opener chain reaches a root and never otherwise, so tabs
    on or below an opener cycle vanish. */
module BuildPartition {
  import opened Tabs
  import opened Sorting
  import opened Openers
  import opened Builder

  /** Some tab of `nodes` is `x` or on the opener chain of `x`. */
  ghost predicate Covers(m: TabMap, nodes: seq<TabInfo>, x: int) {
    exists s :: s in nodes && AncOrSelf(m, s.id, x)
  }

  /** `x` is covered by `s` exactly when it is `s` or covered by `s`'s
      children, and never both. */
  lemma SelfOrBelowChild(m: TabMap, l: Links, s: TabInfo, x: int)
    requires Linked(m, l) && Complete(m, l)
    requires s.id in m && m[s.id] == s && Rooted(m, s.id)
    ensures AncOrSelf(m, s.id, x) <==> x == s.id || Covers(m, ChildrenOf(l, s.id), x)
    ensures x == s.id ==> !Covers(m, ChildrenOf(l, s.id), x)
  {
    BelowVia(m, s.id, x);
    if Covers(m, ChildrenOf(l, s.id), x) {
      var c :| c in ChildrenOf(l, s.id) && AncOrSelf(m, c.id, x);
      assert Parent(m, c.id) == Some(s.id);
      var k: nat :| k > 0 && Anc(m, x, k) == Some(s.id);
      assert AncOrSelf(m, s.id, x);
    }
    if AncOrSelf(m, s.id, x) && x != s.id {
      var k: nat :| Anc(m, x, k) == Some(s.id);
      assert k > 0;
      assert exists k': nat :: k' > 0 && Anc(m, x, k') == Some(s.id);
      var c :| Parent(m, c) == Some(s.id) && AncOrSelf(m, c, x);
      assert m[c] in ChildrenOf(l, s.id) && m[c].id == c;
      assert Covers(m, ChildrenOf(l, s.id), x);
    }
    if x == s.id {
      assert Anc(m, x, 0) == Some(s.id);
      RootedNotInCycle(m, s.id);
      assert !InCycle(m, s.id);
    }
  }

  /** Among siblings without repeats at most one covers `x`. */
  lemma CoverSplit(m: TabMap, sorted: seq<TabInfo>, path: seq<int>, x: int)
    requires ValidPath(m, path) && Siblings(m, sorted, Last(path)) && NoDup(sorted) && sorted != []
    ensures Covers(m, sorted, x) <==> AncOrSelf(m, sorted[0].id, x) || Covers(m, sorted[1..], x)
    ensures !(AncOrSelf(m, sorted[0].id, x) && Covers(m, sorted[1..], x))
    ensures NoDup(sorted[1..])
  {
    var s := sorted[0];
    var rest := sorted[1..];
    assert sorted == [s] + rest;
    forall y ensures multiset(rest)[y] <= 1 {
      assert multiset(sorted)[y] <= 1;
    }
    assert multiset(sorted)[s] <= 1;
    assert s !in rest;
    if path != [] {
      PathRooted(m, path, |path| - 1);
    }
    forall t | t in rest ensures !(AncOrSelf(m, s.id, x) && AncOrSelf(m, t.id, x)) {
      AtMostOneSiblingAncestor(m, s.id, t.id, x);
    }
  }

  lemma CountCons(top: TabTreeNode, rest: seq<TabTreeNode>, x: int)
    ensures CountId([top] + rest, x) == (if top.tab.id == x then 1 else 0) + CountId(top.children, x) + CountId(rest, x)
  {
    assert ([top] + rest)[1..] == rest;
  }

  lemma {:induction false} CountStamp(m: TabMap, l: Links, sorted: seq<TabInfo>, depth: int, path: seq<int>, x: int)
    requires Linked(m, l) && Complete(m, l) && ValidPath(m, path)
    requires Siblings(m, sorted, Last(path)) && NoDup(sorted)
    ensures CountId(Stamp(m, l, sorted, depth, path), x) == if Covers(m, sorted, x) then 1 else 0
    decreases |m.Keys - PathSet(path)|, 0, |sorted|
  {
    if sorted != [] {
      var s := sorted[0];
      ChildNotOnPath(m, path, s.id);
      var below := path + [s.id];
      var kids := AddDepth(m, l, ChildrenOf(l, s.id), depth + 1, below);
      CountAddDepth(m, l, ChildrenOf(l, s.id), depth + 1, below, x);
      CoverSplit(m, sorted, path, x);
      CountStamp(m, l, sorted[1..], depth, path, x);
      CountStampHead(m, l, sorted, depth, path, x);
    }
  }

  /** The count over a stamped list from the counts of its head's subtree
      and of its tail. */
  lemma CountStampHead(m: TabMap, l: Links, sorted: seq<TabInfo>, depth: int, path: seq<int>, x: int)
    requires Linked(m, l) && Complete(m, l) && ValidPath(m, path)
    requires Siblings(m, sorted, Last(path)) && NoDup(sorted) && sorted != []
    requires ValidPath(m, path + [sorted[0].id])
    requires Covers(m, sorted, x) <==> AncOrSelf(m, sorted[0].id, x) || Covers(m, sorted[1..], x)
    requires !(AncOrSelf(m, sorted[0].id, x) && Covers(m, sorted[1..], x))
    requires CountId(AddDepth(m, l, ChildrenOf(l, sorted[0].id), depth + 1, path + [sorted[0].id]), x)
             == if Covers(m, ChildrenOf(l, sorted[0].id), x) then 1 else 0
    requires CountId(Stamp(m, l, sorted[1..], depth, path), x) == if Covers(m, sorted[1..], x) then 1 else 0
    ensures CountId(Stamp(m, l, sorted, depth, path), x) == if Covers(m, sorted, x) then 1 else 0
  {
    var s := sorted[0];
    var below := path + [s.id];
    CountStampUnfold(m, l, sorted, depth, path, x);
    PathRooted(m, below, |path|);
    assert below[|path|] == s.id;
    SelfOrBelowChild(m, l, s, x);
  }

  lemma CountStampUnfold(m: TabMap, l: Links, sorted: seq<TabInfo>, depth: int, path: seq<int>, x: int)
    requires Linked(m, l) && ValidPath(m, path) && Siblings(m, sorted, Last(path)) && sorted != []
    requires ValidPath(m, path + [sorted[0].id])
    ensures CountId(Stamp(m, l, sorted, depth, path), x)
            == (if sorted[0].id == x then 1 else 0)
               + CountId(AddDepth(m, l, ChildrenOf(l, sorted[0].id), depth + 1, path + [sorted[0].id]), x)
               + CountId(Stamp(m, l, sorted[1..], depth, path), x)
  {
    var s := sorted[0];
    var kids := AddDepth(m, l, ChildrenOf(l, s.id), depth + 1, path + [s.id]);
    var rest := Stamp(m, l, sorted[1..], depth, path);
    assert Stamp(m, l, sorted, depth, path) == [TabTreeNode(s, kids, depth)] + rest;
    CountCons(TabTreeNode(s, kids, depth), rest, x);
  }

  lemma {:induction false} CountAddDepth(m: TabMap, l: Links, nodes: seq<TabInfo>, depth: int, path: seq<int>, x: int)
    requires Linked(m, l) && Complete(m, l) && ValidPath(m, path)
    requires Siblings(m, nodes, Last(path)) && NoDup(nodes)
    ensures CountId(AddDepth(m, l, nodes, depth, path), x) == if Covers(m, nodes, x) then 1 else 0
    decreases |m.Keys - PathSet(path)|, 1
  {
    var sorted := SortBy(nodes, IndexKey);
    assert forall n :: n in sorted <==> n in multiset(nodes);
    CountStamp(m, l, sorted, depth, path, x);
  }

  /** A tab id occurs once in the forest when its opener chain reaches a
      root, and nowhere otherwise. */
  lemma BuildCount(tabs: seq<TabInfo>, x: int)
    requires UniqueIds(tabs)
    ensures CountId(Build(tabs), x) == if Rooted(TabIndex(tabs), x) then 1 else 0
  {
    var m := TabIndex(tabs);
    LinkLinked(tabs);
    var l := Link(m, tabs);
    CountAddDepth(m, l, l.roots, 0, [], x);
    if Covers(m, l.roots, x) {
      var s :| s in l.roots && AncOrSelf(m, s.id, x);
      var k: nat :| Anc(m, x, k) == Some(s.id);
      assert IsRootAt(m, x, k);
    }
    if Rooted(m, x) {
      var k: nat :| IsRootAt(m, x, k);
      var y := Anc(m, x, k).value;
      assert m[y] in l.roots;
      assert AncOrSelf(m, m[y].id, x);
    }
  }

  /** No tab occurs twice in the forest. */
  lemma BuildDistinct(tabs: seq<TabInfo>)
    requires UniqueIds(tabs)
    ensures DistinctIds(Build(tabs))
  {
    forall x ensures CountId(Build(tabs), x) <= 1 {
      BuildCount(tabs, x);
    }
  }

  /** A tab on an opener cycle (a self-opener included) appears nowhere. */
  lemma BuildDropsCycles(tabs: seq<TabInfo>, x: int)
    requires UniqueIds(tabs) && InCycle(TabIndex(tabs), x)
    ensures CountId(Build(tabs), x) == 0
    ensures x !in Ids(Build(tabs))
  {
    BuildCount(tabs, x);
    RootedNotInCycle(TabIndex(tabs), x);
    IdsCount(Build(tabs), x);
  }

  /** The ids of the input, in order. */
  function TabIds(tabs: seq<TabInfo>): (r: seq<int>)
    ensures |r| == |tabs|
    ensures forall i :: 0 <= i < |tabs| ==> r[i] == tabs[i].id
  {
    if tabs == [] then [] else [tabs[0].id] + TabIds(tabs[1..])
  }

  lemma {:induction false} TabIdsCount(tabs: seq<TabInfo>, x: int)
    requires UniqueIds(tabs)
    ensures multiset(TabIds(tabs))[x] == if x in IdSet(tabs) then 1 else 0
  {
    if tabs != [] {
      TabIdsCount(tabs[1..], x);
      assert TabIds(tabs) == [tabs[0].id] + TabIds(tabs[1..]);
      assert tabs == [tabs[0]] + tabs[1..];
      if x == tabs[0].id {
        assert x !in IdSet(tabs[1..]);
      }
    }
  }

  /** Without opener cycles a tab id occurs in the forest exactly when it
      is an input id. */
  lemma AcyclicCount(tabs: seq<TabInfo>, x: int)
    requires UniqueIds(tabs) && Acyclic(TabIndex(tabs))
    ensures CountId(Build(tabs), x) == if x in IdSet(tabs) then 1 else 0
  {
    var m := TabIndex(tabs);
    BuildCount(tabs, x);
    assert x in m <==> x in IdSet(tabs);
    if x in m {
      AcyclicRooted(m, x);
    } else {
      forall k: nat ensures !IsRootAt(m, x, k) {
        AncFromIndex(m, x, k);
      }
    }
  }

  /** With unique ids and no opener cycle every input tab appears exactly
      once, so the forest has as many nodes as there are tabs. */
  lemma BuildAcyclic(tabs: seq<TabInfo>)
    requires UniqueIds(tabs) && Acyclic(TabIndex(tabs))
    ensures forall t :: t in tabs ==> CountId(Build(tabs), t.id) == 1
    ensures |Flatten(Build(tabs))| == |tabs|
  {
    var f := Build(tabs);
    SameIds(f, TabIds(tabs)) by {
      forall x ensures multiset(FlatIds(f))[x] == multiset(TabIds(tabs))[x] {
        FlatIdsCount(f, x);
        AcyclicCount(tabs, x);
        TabIdsCount(tabs, x);
      }
    }
    forall t | t in tabs ensures CountId(f, t.id) == 1 {
      AcyclicCount(tabs, t.id);
    }
  }

  /** A forest whose ids are, with multiplicity, those of `ids` has `|ids|` nodes. */
  lemma SameIds(f: seq<TabTreeNode>, ids: seq<int>)
    requires forall x :: multiset(FlatIds(f))[x] == multiset(ids)[x]
    ensures |Flatten(f)| == |ids|
  {
    var a, b := multiset(FlatIds(f)), multiset(ids);
    assert forall x :: a[x] == b[x];
    assert a == b;
    assert |FlatIds(f)| == |multiset(FlatIds(f))| == |multiset(ids)| == |ids|;
    FlatIdsCount(f, 0);
  }
}
