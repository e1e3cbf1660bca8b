/** Tab records and the forest of tab nodes (src/core/types.ts), with the
    forest measures the builder and the renderer both talk about. */
module Tabs {

  /** `undefined` in the source becomes `None`. */
  datatype Option<T> = None | Some(value: T)

  /** A browser tab as the tab service reports it; the optional fields of
      the source record are `Option`s. */
  datatype TabInfo = TabInfo(
    id: int,
    title: string,
    url: string,
    favIconUrl: Option<string>,
    openerTabId: Option<int>,
    windowId: Option<int>,
    index: Option<int>,
    active: Option<bool>)

  /** A tab placed in the forest: its ordered children and its depth. */
  datatype TabTreeNode = TabTreeNode(tab: TabInfo, children: seq<TabTreeNode>, depth: int)

  /** `tab.index ?? 0`: the sibling sort key, a missing position counting as 0. */
  function IndexKey(t: TabInfo): int {
    if t.index.Some? then t.index.value else 0
  }

  /** `tab.title || "New Tab"`: the text a row shows; never empty. */
  function LabelText(t: TabInfo): (s: string)
    ensures s != ""
    ensures t.title != "" ==> s == t.title
    ensures t.title == "" ==> s == "New Tab"
  {
    if t.title == "" then "New Tab" else t.title
  }

  /** `tab.favIconUrl || ""`: the icon source a row shows. */
  function FaviconSrc(t: TabInfo): (s: string)
    ensures s == "" <==> t.favIconUrl.None? || t.favIconUrl.value == ""
    ensures t.favIconUrl.Some? ==> s == t.favIconUrl.value
  {
    if t.favIconUrl.Some? then t.favIconUrl.value else ""
  }

  /** A truthy `tab.active`. */
  predicate IsActive(t: TabInfo) {
    t.active == Some(true)
  }

  /** The tabs of a sibling list, in order. */
  function Tops(f: seq<TabTreeNode>): (r: seq<TabInfo>)
    ensures |r| == |f|
    ensures forall k :: 0 <= k < |f| ==> r[k] == f[k].tab
  {
    if f == [] then [] else [f[0].tab] + Tops(f[1..])
  }

  /** Every node of a forest, each parent before its children, siblings in order. */
  function Flatten(f: seq<TabTreeNode>): seq<TabTreeNode> {
    if f == [] then [] else [f[0]] + Flatten(f[0].children) + Flatten(f[1..])
  }

  /** The tab ids of `Flatten(f)`, in the same order. */
  function FlatIds(f: seq<TabTreeNode>): seq<int> {
    if f == [] then [] else [f[0].tab.id] + FlatIds(f[0].children) + FlatIds(f[1..])
  }

  /** How many nodes of the forest, at any depth, carry tab id `x`. */
  function CountId(f: seq<TabTreeNode>, x: int): nat {
    if f == [] then 0
    else (if f[0].tab.id == x then 1 else 0) + CountId(f[0].children, x) + CountId(f[1..], x)
  }

  /** The tab ids occurring anywhere in the forest. */
  function Ids(f: seq<TabTreeNode>): set<int> {
    if f == [] then {} else {f[0].tab.id} + Ids(f[0].children) + Ids(f[1..])
  }

  /** No tab id occurs twice anywhere in the forest. */
  ghost predicate DistinctIds(f: seq<TabTreeNode>) {
    forall x :: CountId(f, x) <= 1
  }

  lemma {:induction false} IdsCount(f: seq<TabTreeNode>, x: int)
    ensures x in Ids(f) <==> CountId(f, x) > 0
  {
    if f != [] {
      IdsCount(f[0].children, x);
      IdsCount(f[1..], x);
    }
  }

  lemma {:induction false} FlatIdsCount(f: seq<TabTreeNode>, x: int)
    ensures multiset(FlatIds(f))[x] == CountId(f, x)
    ensures |FlatIds(f)| == |Flatten(f)|
  {
    if f != [] {
      FlatIdsCount(f[0].children, x);
      FlatIdsCount(f[1..], x);
    }
  }

  lemma {:induction false} FlatIdsAreIds(f: seq<TabTreeNode>)
    ensures |FlatIds(f)| == |Flatten(f)|
    ensures forall k :: 0 <= k < |FlatIds(f)| ==> FlatIds(f)[k] == Flatten(f)[k].tab.id
  {
    if f != [] {
      FlatIdsAreIds(f[0].children);
      FlatIdsAreIds(f[1..]);
    }
  }

  /** A node of the forest is a node of `Flatten`, and its children's nodes too. */
  lemma {:induction false} FlattenMembers(f: seq<TabTreeNode>, n: TabTreeNode)
    requires n in Flatten(f)
    ensures n.tab.id in Ids(f)
    ensures forall c :: c in Flatten(n.children) ==> c in Flatten(f)
  {
    if f != [] {
      if n == f[0] {
      } else if n in Flatten(f[0].children) {
        FlattenMembers(f[0].children, n);
      } else {
        FlattenMembers(f[1..], n);
      }
    }
  }

  /** A top-level node is a node of `Flatten`. */
  lemma {:induction false} TopFlattened(f: seq<TabTreeNode>, n: TabTreeNode)
    requires n in f
    ensures n in Flatten(f)
  {
    if f[0] != n {
      TopFlattened(f[1..], n);
    }
  }

  /** The pieces of a forest with distinct ids have distinct ids and share none. */
  lemma DistinctParts(f: seq<TabTreeNode>)
    requires f != [] && DistinctIds(f)
    ensures DistinctIds(f[0].children) && DistinctIds(f[1..])
    ensures f[0].tab.id !in Ids(f[0].children) && f[0].tab.id !in Ids(f[1..])
    ensures Ids(f[0].children) !! Ids(f[1..])
  {
    forall x ensures CountId(f[0].children, x) <= 1 && CountId(f[1..], x) <= 1 {
      assert CountId(f, x) <= 1;
    }
    assert CountId(f, f[0].tab.id) <= 1;
    IdsCount(f[0].children, f[0].tab.id);
    IdsCount(f[1..], f[0].tab.id);
    forall x | x in Ids(f[0].children) ensures x !in Ids(f[1..]) {
      assert CountId(f, x) <= 1;
      IdsCount(f[0].children, x);
      IdsCount(f[1..], x);
    }
  }
}
