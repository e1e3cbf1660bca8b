/** `TabTreeBuilder.build` (src/core/TabTreeBuilder.ts:15-44): index the tabs
    by id, hang each tab under its opener when the opener is present, then
    sort every sibling list by position and stamp depths. */
module Builder {
  import opened Tabs
  import opened Sorting
  import opened Entries
  import opened Openers

  /** No two input tabs share an id (Chrome's tab ids are unique per window). */
  ghost predicate UniqueIds(tabs: seq<TabInfo>) {
    forall i, j :: 0 <= i < j < |tabs| ==> tabs[i].id != tabs[j].id
  }

  /** The ids of the input. */
  function IdSet(tabs: seq<TabInfo>): (r: set<int>)
    ensures forall x :: x in r <==> exists t :: t in tabs && t.id == x
  {
    set t | t in tabs :: t.id
  }

  /** The tab index built from `[id, node]` entries: every id of the input is
      a key, and for a repeated id the last tab wins. */
  function TabIndex(tabs: seq<TabInfo>): (m: TabMap)
    ensures m.Keys == IdSet(tabs)
    ensures forall k :: k in m ==> m[k].id == k && m[k] in tabs
    ensures forall i :: 0 <= i < |tabs| && (forall j :: i < j < |tabs| ==> tabs[j].id != tabs[i].id) ==> m[tabs[i].id] == tabs[i]
  {
    var es := seq(|tabs|, i requires 0 <= i < |tabs| => (tabs[i].id, tabs[i]));
    IndexEntries(tabs, es);
    FromEntries(es)
  }

  lemma IndexEntries(tabs: seq<TabInfo>, es: seq<(int, TabInfo)>)
    requires |es| == |tabs| && forall i :: 0 <= i < |tabs| ==> es[i] == (tabs[i].id, tabs[i])
    ensures FromEntries(es).Keys == IdSet(tabs)
    ensures forall k :: k in FromEntries(es) ==> FromEntries(es)[k].id == k && FromEntries(es)[k] in tabs
    ensures forall i :: 0 <= i < |tabs| && (forall j :: i < j < |tabs| ==> tabs[j].id != tabs[i].id) ==> FromEntries(es)[tabs[i].id] == tabs[i]
  {
  }

  /** With unique ids each tab is the index entry for its own id. */
  lemma IndexOfUnique(tabs: seq<TabInfo>)
    requires UniqueIds(tabs)
    ensures forall t :: t in tabs ==> t.id in TabIndex(tabs) && TabIndex(tabs)[t.id] == t
  {
  }

  /** The state of the linking loop (lines 19-32): the roots array, and the
      children array of every map node that received a child, keyed by the
      node's id. A map node is written as its tab, the index entry for its id. */
  datatype Links = Links(roots: seq<TabInfo>, children: map<int, seq<TabInfo>>)

  /** The children array of the map node with id `p`; still empty if nothing was pushed. */
  function ChildrenOf(l: Links, p: int): seq<TabInfo> {
    if p in l.children then l.children[p] else []
  }

  /** The loop of lines 21-32 run over `tabs`: each tab's index node is
      pushed onto its opener's children when the opener is in the index, and
      onto the roots otherwise. A tab missing from the index is skipped. */
  function Link(m: TabMap, tabs: seq<TabInfo>): (l: Links)
    decreases |tabs|
  {
    if tabs == [] then Links([], map[])
    else
      var l := Link(m, tabs[..|tabs| - 1]);
      var t := tabs[|tabs| - 1];
      if t.id !in m then l
      else if t.openerTabId.Some? && t.openerTabId.value in m then
        var p := t.openerTabId.value;
        l.(children := l.children[p := ChildrenOf(l, p) + [m[t.id]]])
      else
        l.(roots := l.roots + [m[t.id]])
  }

  /** The tabs that become roots: no opener, or an opener that is not among `ids`. */
  function RootsAmong(ids: set<int>, tabs: seq<TabInfo>): (r: seq<TabInfo>)
    ensures forall t :: t in r <==> t in tabs && (t.openerTabId.None? || t.openerTabId.value !in ids)
    ensures forall t :: multiset(r)[t] <= multiset(tabs)[t]
  {
    if tabs == [] then []
    else
      var t := tabs[0];
      assert tabs == [t] + tabs[1..];
      (if t.openerTabId.None? || t.openerTabId.value !in ids then [t] else []) + RootsAmong(ids, tabs[1..])
  }

  /** The tabs opened by tab `p`, in input order. */
  function OpenedBy(tabs: seq<TabInfo>, p: int): (r: seq<TabInfo>)
    ensures forall t :: t in r <==> t in tabs && t.openerTabId == Some(p)
    ensures forall t :: multiset(r)[t] <= multiset(tabs)[t]
  {
    if tabs == [] then []
    else
      var t := tabs[0];
      assert tabs == [t] + tabs[1..];
      (if t.openerTabId == Some(p) then [t] else []) + OpenedBy(tabs[1..], p)
  }

  lemma RootsAmongCons(ids: set<int>, t: TabInfo, s: seq<TabInfo>)
    ensures RootsAmong(ids, [t] + s) == (if t.openerTabId.None? || t.openerTabId.value !in ids then [t] else []) + RootsAmong(ids, s)
  {
    assert ([t] + s)[1..] == s;
  }

  lemma OpenedByCons(t: TabInfo, s: seq<TabInfo>, p: int)
    ensures OpenedBy([t] + s, p) == (if t.openerTabId == Some(p) then [t] else []) + OpenedBy(s, p)
  {
    assert ([t] + s)[1..] == s;
  }

  lemma {:induction false} RootsAmongSnoc(ids: set<int>, s: seq<TabInfo>, t: TabInfo)
    ensures RootsAmong(ids, s + [t]) == RootsAmong(ids, s) + (if t.openerTabId.None? || t.openerTabId.value !in ids then [t] else [])
  {
    if s != [] {
      assert (s + [t])[1..] == s[1..] + [t];
      RootsAmongSnoc(ids, s[1..], t);
    }
  }

  lemma {:induction false} OpenedBySnoc(s: seq<TabInfo>, t: TabInfo, p: int)
    ensures OpenedBy(s + [t], p) == OpenedBy(s, p) + (if t.openerTabId == Some(p) then [t] else [])
  {
    if s != [] {
      assert (s + [t])[1..] == s[1..] + [t];
      OpenedBySnoc(s[1..], t, p);
    }
  }

  /** The roots array the linking loop fills is the reference filter: the
      tabs without a present opener, in input order. */
  lemma {:induction false} LinkRoots(m: TabMap, tabs: seq<TabInfo>)
    requires forall t :: t in tabs ==> t.id in m && m[t.id] == t
    ensures Link(m, tabs).roots == RootsAmong(m.Keys, tabs)
    decreases |tabs|
  {
    if tabs != [] {
      var init := tabs[..|tabs| - 1];
      var t := tabs[|tabs| - 1];
      assert tabs == init + [t];
      assert forall u :: u in init ==> u in tabs;
      LinkRoots(m, init);
      RootsAmongSnoc(m.Keys, init, t);
    }
  }

  /** The children array of every present tab is the tabs it opened, in
      input order; an absent id gets none. */
  lemma {:induction false} LinkChildren(m: TabMap, tabs: seq<TabInfo>, p: int)
    requires forall t :: t in tabs ==> t.id in m && m[t.id] == t
    ensures ChildrenOf(Link(m, tabs), p) == (if p in m then OpenedBy(tabs, p) else [])
    decreases |tabs|
  {
    if tabs != [] {
      var init := tabs[..|tabs| - 1];
      var t := tabs[|tabs| - 1];
      assert tabs == init + [t];
      assert forall u :: u in init ==> u in tabs;
      LinkChildren(m, init, p);
      OpenedBySnoc(init, t, p);
    }
  }

  /** Every node of `nodes` is the index entry for its id and hangs under `parent`. */
  ghost predicate Siblings(m: TabMap, nodes: seq<TabInfo>, parent: Option<int>) {
    forall n :: n in nodes ==> n.id in m && m[n.id] == n && Parent(m, n.id) == parent
  }

  /** Each node occurs at most once. */
  ghost predicate NoDup(s: seq<TabInfo>) {
    forall x :: multiset(s)[x] <= 1
  }

  /** The roots array holds parentless index nodes and each children array
      holds that node's children. */
  ghost predicate Linked(m: TabMap, l: Links) {
    Siblings(m, l.roots, None) && forall p :: Siblings(m, ChildrenOf(l, p), Some(p))
  }

  /** Every index node (the entry for its own id) is in the roots array or
      its parent's children array, and no array holds a node twice. */
  ghost predicate Complete(m: TabMap, l: Links) {
    (forall y :: y in m ==> m[y].id == y)
    && (forall y :: y in m && Parent(m, y).None? ==> m[y] in l.roots)
    && (forall y :: y in m && Parent(m, y).Some? ==> m[y] in ChildrenOf(l, Parent(m, y).value))
    && NoDup(l.roots)
    && (forall p :: NoDup(ChildrenOf(l, p)))
  }

  lemma {:induction false} UniqueNoDup(tabs: seq<TabInfo>)
    requires UniqueIds(tabs)
    ensures NoDup(tabs)
  {
    if tabs != [] {
      UniqueNoDup(tabs[1..]);
      assert tabs == [tabs[0]] + tabs[1..];
      forall x ensures multiset(tabs)[x] <= 1 {
        if x == tabs[0] {
          assert x !in tabs[1..];
        }
      }
    }
  }

  /** With unique ids the linking loop yields well-formed, complete arrays. */
  lemma LinkLinked(tabs: seq<TabInfo>)
    requires UniqueIds(tabs)
    ensures Linked(TabIndex(tabs), Link(TabIndex(tabs), tabs))
    ensures Complete(TabIndex(tabs), Link(TabIndex(tabs), tabs))
  {
    var m := TabIndex(tabs);
    var l := Link(m, tabs);
    IndexOfUnique(tabs);
    LinkRoots(m, tabs);
    UniqueNoDup(tabs);
    forall p ensures Siblings(m, ChildrenOf(l, p), Some(p)) && NoDup(ChildrenOf(l, p)) {
      LinkChildren(m, tabs, p);
    }
    forall y | y in m && Parent(m, y).Some? ensures m[y] in ChildrenOf(l, Parent(m, y).value) {
      LinkChildren(m, tabs, Parent(m, y).value);
    }
  }

  /** `addDepth` (lines 34-41): sort the array by `index ?? 0`, then map each
      node to a tree node at `depth` whose children are stamped one deeper.
      The ghost `path` holds the ids of the enclosing nodes; it shows the
      recursion ends. */
  function AddDepth(m: TabMap, l: Links, nodes: seq<TabInfo>, depth: int, ghost path: seq<int>): (r: seq<TabTreeNode>)
    requires Linked(m, l) && ValidPath(m, path) && Siblings(m, nodes, Last(path))
    ensures Sorted(Tops(r), IndexKey)
    ensures multiset(Tops(r)) == multiset(nodes)
    ensures forall k :: 0 <= k < |r| ==> r[k].depth == depth
    decreases |m.Keys - PathSet(path)|, 1
  {
    var sorted := SortBy(nodes, IndexKey);
    assert forall n :: n in sorted ==> n in multiset(nodes);
    Stamp(m, l, sorted, depth, path)
  }

  /** The `map` step of `addDepth` over an already sorted array. */
  function Stamp(m: TabMap, l: Links, sorted: seq<TabInfo>, depth: int, ghost path: seq<int>): (r: seq<TabTreeNode>)
    requires Linked(m, l) && ValidPath(m, path) && Siblings(m, sorted, Last(path))
    ensures Tops(r) == sorted
    ensures forall k :: 0 <= k < |r| ==> r[k].depth == depth
    decreases |m.Keys - PathSet(path)|, 0, |sorted|
  {
    if sorted == [] then []
    else
      var n := sorted[0];
      ChildNotOnPath(m, path, n.id);
      var below := path + [n.id];
      var kids := AddDepth(m, l, ChildrenOf(l, n.id), depth + 1, below);
      var rest := Stamp(m, l, sorted[1..], depth, path);
      StampCons(TabTreeNode(n, kids, depth), rest, sorted);
      [TabTreeNode(n, kids, depth)] + rest
  }

  /** A stamped head in front of the stamped tail keeps the order and the
      common depth. */
  lemma StampCons(top: TabTreeNode, rest: seq<TabTreeNode>, sorted: seq<TabInfo>)
    requires sorted != [] && top.tab == sorted[0] && Tops(rest) == sorted[1..]
    requires forall k :: 0 <= k < |rest| ==> rest[k].depth == top.depth
    ensures Tops([top] + rest) == sorted
    ensures forall k :: 0 <= k < |[top] + rest| ==> ([top] + rest)[k].depth == top.depth
  {
    var r := [top] + rest;
    forall k | 0 <= k < |r| ensures r[k].tab == sorted[k] && r[k].depth == top.depth {
      if k > 0 {
        assert r[k] == rest[k - 1];
      }
    }
  }

  /** `build` (lines 15-44). */
  function Build(tabs: seq<TabInfo>): (f: seq<TabTreeNode>)
    requires UniqueIds(tabs)
    ensures Sorted(Tops(f), IndexKey)
    ensures forall k :: 0 <= k < |f| ==> f[k].depth == 0
  {
    var m := TabIndex(tabs);
    LinkLinked(tabs);
    var l := Link(m, tabs);
    AddDepth(m, l, l.roots, 0, [])
  }
}
