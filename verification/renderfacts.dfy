/** What each step of the renderer does, stated against independent
    definitions: the ids of a forest, the node a stored child list belongs
    to, what a row shows, which items pruning takes away. */
module RenderFacts {
  import opened Tabs
  import opened Dom
  import opened Renderer

  /** `findInTree(node, id)` holds exactly when `id` is the id of the node
      or of one of its descendants. */
  lemma {:induction false} FindInTreeIds(n: TabTreeNode, x: int)
    ensures FindInTree(n, x) <==> x in Ids([n])
    decreases n, 1
  {
    assert [n][1..] == [];
    AnyFindsIds(n.children, x);
  }

  lemma {:induction false} AnyFindsIds(ns: seq<TabTreeNode>, x: int)
    ensures AnyFinds(ns, x) <==> x in Ids(ns)
    decreases ns, 0
  {
    if ns != [] {
      FindInTreeIds(ns[0], x);
      AnyFindsIds(ns[1..], x);
      assert [ns[0]][1..] == [];
    }
  }

  /** The pruning test keeps an item exactly when its tab id occurs anywhere
      in the new forest. */
  lemma StillInTreeIds(ns: seq<TabTreeNode>, x: int)
    ensures StillInTree(ns, x) <==> x in Ids(ns)
  {
    AnyFindsIds(ns, x);
    if StillInTree(ns, x) {
      var k :| 0 <= k < |ns| && (ns[k].tab.id == x || FindInTree(ns[k], x));
      FindInTreeIds(ns[k], x);
      IdsOfMember(ns, k, x);
    }
    if x in Ids(ns) {
      var k := IdsWitness(ns, x);
      FindInTreeIds(ns[k], x);
    }
  }

  lemma {:induction false} IdsOfMember(ns: seq<TabTreeNode>, k: int, x: int)
    requires 0 <= k < |ns| && x in Ids([ns[k]])
    ensures x in Ids(ns)
  {
    assert [ns[k]][1..] == [];
    if k > 0 {
      IdsOfMember(ns[1..], k - 1, x);
    }
  }

  lemma {:induction false} IdsWitness(ns: seq<TabTreeNode>, x: int) returns (k: int)
    requires x in Ids(ns)
    ensures 0 <= k < |ns| && x in Ids([ns[k]])
  {
    assert [ns[0]][1..] == [];
    if x in Ids([ns[0]]) {
      k := 0;
    } else {
      var j := IdsWitness(ns[1..], x);
      k := j + 1;
    }
  }

  /** `getStoredChildren(old, id)` is empty when no node of `old` has the
      id; when it is not empty it is the children of a node with the id;
      and with distinct ids it is the children of the node with the id. */
  lemma {:induction false} StoredChildrenSpec(nodes: seq<TabTreeNode>, id: int, n: TabTreeNode)
    ensures id !in Ids(nodes) ==> StoredChildren(nodes, id) == []
    ensures StoredChildren(nodes, id) != [] ==>
              exists m :: m in Flatten(nodes) && m.tab.id == id && StoredChildren(nodes, id) == m.children
    ensures DistinctIds(nodes) && n in Flatten(nodes) && n.tab.id == id ==> StoredChildren(nodes, id) == n.children
    decreases nodes
  {
    if nodes != [] {
      var head := nodes[0];
      StoredChildrenSpec(head.children, id, n);
      StoredChildrenSpec(nodes[1..], id, n);
      var found := StoredChildren(head.children, id);
      if head.tab.id != id && found != [] {
        var m :| m in Flatten(head.children) && m.tab.id == id && found == m.children;
        FlattenMembers([head], m);
        assert Flatten(nodes) == [head] + Flatten(head.children) + Flatten(nodes[1..]);
      }
      if head.tab.id != id && found == [] && StoredChildren(nodes[1..], id) != [] {
        var m :| m in Flatten(nodes[1..]) && m.tab.id == id && StoredChildren(nodes[1..], id) == m.children;
        assert Flatten(nodes) == [head] + Flatten(head.children) + Flatten(nodes[1..]);
      }
      if DistinctIds(nodes) && n in Flatten(nodes) && n.tab.id == id {
        DistinctParts(nodes);
        StoredDistinct(nodes, id, n);
      }
    }
  }

  /** The distinct-ids case of `StoredChildrenSpec`, one level down. */
  lemma StoredDistinct(nodes: seq<TabTreeNode>, id: int, n: TabTreeNode)
    requires nodes != [] && DistinctIds(nodes) && n in Flatten(nodes) && n.tab.id == id
    requires DistinctIds(nodes[0].children) && DistinctIds(nodes[1..])
    requires nodes[0].tab.id !in Ids(nodes[0].children) && nodes[0].tab.id !in Ids(nodes[1..])
    requires Ids(nodes[0].children) !! Ids(nodes[1..])
    requires n in Flatten(nodes[0].children) ==> StoredChildren(nodes[0].children, id) == n.children
    requires n in Flatten(nodes[1..]) ==> StoredChildren(nodes[1..], id) == n.children
    requires id !in Ids(nodes[0].children) ==> StoredChildren(nodes[0].children, id) == []
    requires id !in Ids(nodes[1..]) ==> StoredChildren(nodes[1..], id) == []
    ensures StoredChildren(nodes, id) == n.children
  {
    var head := nodes[0];
    assert Flatten(nodes) == [head] + Flatten(head.children) + Flatten(nodes[1..]);
    if n in Flatten(head.children) {
      FlattenMembers(head.children, n);
      if head.tab.id == id {
        assert false;
      }
    } else if n in Flatten(nodes[1..]) {
      FlattenMembers(nodes[1..], n);
      if head.tab.id == id {
        assert false;
      }
    } else {
      assert n == head;
    }
  }

  /** The row of an item shows the node: its depth and active state, and
      the title and icon source wherever the row has a label and an icon. */
  ghost predicate Shows(e: Element, n: TabTreeNode) {
    e.Item? && e.depth == n.depth && e.row.Some?
    && (e.row.value.active <==> IsActive(n.tab))
    && (e.row.value.caption.Some? ==> e.row.value.caption.value.text == LabelText(n.tab))
    && (e.row.value.icon.Some? ==> e.row.value.icon.value.src == FaviconSrc(n.tab))
  }

  /** The label of the item's row shows a different text than the node needs. */
  predicate LabelStale(e: Element, n: TabTreeNode)
    requires e.Item? && e.row.Some?
  {
    e.row.value.caption.Some? && e.row.value.caption.value.text != LabelText(n.tab)
  }

  /** The icon of the item's row has a different source than the node needs. */
  predicate IconStale(e: Element, n: TabTreeNode)
    requires e.Item? && e.row.Some?
  {
    e.row.value.icon.Some? && e.row.value.icon.value.src != FaviconSrc(n.tab)
  }

  /** The rules of `updateNodeContent` for an item with a row: afterwards the
      row shows the node; the label and its tooltip are written, and logged,
      exactly when the text was stale; the icon likewise, hidden exactly
      when its new source is empty; the item keeps its tab id and child list. */
  lemma UpdateRules(d: Doc, li: Handle, n: TabTreeNode) returns (r: Doc)
    requires IsItem(d, li) && d.store[li].row.Some?
    ensures r == UpdateContent(d, li, n)
    ensures Shows(r.store[li], n)
    ensures r.store[li].tabId == d.store[li].tabId && r.store[li].sub == d.store[li].sub
    ensures r.store[li].row.value.caption.Some? == d.store[li].row.value.caption.Some?
    ensures r.store[li].row.value.icon.Some? == d.store[li].row.value.icon.Some?
    ensures LabelStale(d.store[li], n) ==> r.store[li].row.value.caption.value.tooltip == n.tab.url
    ensures !LabelStale(d.store[li], n) ==> r.store[li].row.value.caption == d.store[li].row.value.caption
    ensures IconStale(d.store[li], n) ==> (r.store[li].row.value.icon.value.hidden <==> FaviconSrc(n.tab) == "")
    ensures !IconStale(d.store[li], n) ==> r.store[li].row.value.icon == d.store[li].row.value.icon
    ensures r.log == d.log + (if LabelStale(d.store[li], n) then [LabelWritten(li)] else [])
                           + (if IconStale(d.store[li], n) then [FaviconWritten(li)] else [])
  {
    r := UpdateContent(d, li, n);
  }

  /** `updateNodeContent` changes nothing exactly when the item has no row
      or its row already shows the node. */
  lemma UpdateNoop(d: Doc, li: Handle, n: TabTreeNode)
    requires IsItem(d, li)
    ensures UpdateContent(d, li, n) == d <==> d.store[li].row.None? || Shows(d.store[li], n)
  {
    if d.store[li].row.Some? {
      var r := UpdateRules(d, li, n);
      if Shows(d.store[li], n) {
        assert r.store[li] == d.store[li];
        assert r.store == d.store;
      }
    }
  }

  /** Updating twice is updating once. */
  lemma UpdateIdempotent(d: Doc, li: Handle, n: TabTreeNode)
    requires IsItem(d, li)
    ensures UpdateContent(UpdateContent(d, li, n), li, n) == UpdateContent(d, li, n)
  {
    if d.store[li].row.Some? {
      var r := UpdateRules(d, li, n);
      UpdateNoop(r, li, n);
    }
  }

  /** `xs` without the handles in `gone`. */
  function Drop(xs: seq<Handle>, gone: set<Handle>): (r: seq<Handle>)
    ensures forall x :: x in r <==> x in xs && x !in gone
  {
    if xs == [] then [] else (if xs[0] in gone then [] else [xs[0]]) + Drop(xs[1..], gone)
  }

  lemma {:induction false} DropWithout(xs: seq<Handle>, h: Handle, gone: set<Handle>)
    ensures Drop(Without(xs, h), gone) == Drop(xs, gone + {h})
  {
    if xs != [] {
      DropWithout(xs[1..], h, gone);
      var w := Without(xs, h);
      if xs[0] == h {
        assert w == Without(xs[1..], h);
      } else {
        assert w == [xs[0]] + Without(xs[1..], h);
        assert w != [] && w[0] == xs[0] && w[1..] == Without(xs[1..], h);
        assert Drop(w, gone) == (if xs[0] in gone then [] else [xs[0]]) + Drop(w[1..], gone);
      }
    }
  }

  lemma {:induction false} DropNone(xs: seq<Handle>)
    ensures Drop(xs, {}) == xs
  {
    if xs != [] {
      DropNone(xs[1..]);
    }
  }

  /** The original items pruning takes away: those whose tab id is nowhere
      in the new forest, in the order the loop meets them. */
  function Pruned(d: Doc, oldLis: seq<Handle>, nodes: seq<TabTreeNode>): (r: seq<Handle>)
    requires forall h :: h in oldLis ==> IsItem(d, h)
    ensures forall h :: h in r <==> h in oldLis && KeyOf(d, h) !in Ids(nodes)
  {
    if oldLis == [] then []
    else (if KeyOf(d, oldLis[0]) in Ids(nodes) then [] else [oldLis[0]]) + Pruned(d, oldLis[1..], nodes)
  }

  function Removals(hs: seq<Handle>): (r: seq<Event>)
    ensures |r| == |hs| && forall k :: 0 <= k < |hs| ==> r[k] == Removed(hs[k])
  {
    if hs == [] then [] else [Removed(hs[0])] + Removals(hs[1..])
  }

  function AsSet(hs: seq<Handle>): (r: set<Handle>)
    ensures forall h :: h in r <==> h in hs
  {
    set h | h in hs
  }

  /** The items `hs` removed one after the other. */
  function RemoveAll(d: Doc, hs: seq<Handle>): (r: Doc)
    decreases hs
  {
    if hs == [] then d else RemoveAll(Remove(d, hs[0]), hs[1..])
  }

  /** Removing the items `hs` takes each of them out of the container. */
  lemma {:induction false} RemoveAllTop(d: Doc, hs: seq<Handle>)
    ensures |RemoveAll(d, hs).store| == |d.store|
    ensures RemoveAll(d, hs).top == Drop(d.top, AsSet(hs))
    decreases hs
  {
    if hs == [] {
      assert AsSet(hs) == {};
      DropNone(d.top);
    } else {
      var d1 := Remove(d, hs[0]);
      RemoveAllTop(d1, hs[1..]);
      assert AsSet(hs) == AsSet(hs[1..]) + {hs[0]};
      DropWithout(d.top, hs[0], AsSet(hs[1..]));
    }
  }

  /** Removing the items `hs` logs one removal per item, in order. */
  lemma {:induction false} RemoveAllLog(d: Doc, hs: seq<Handle>)
    ensures RemoveAll(d, hs).log == d.log + Removals(hs)
    decreases hs
  {
    if hs != [] {
      RemoveAllLog(Remove(d, hs[0]), hs[1..]);
      assert Removals(hs) == [Removed(hs[0])] + Removals(hs[1..]);
    }
  }

  /** Removing the items `hs` takes each of them out of every list and
      leaves every other element as it was. */
  lemma {:induction false} RemoveAllStore(d: Doc, hs: seq<Handle>, k: nat)
    requires k < |d.store|
    ensures k < |RemoveAll(d, hs).store|
    ensures RemoveAll(d, hs).store[k]
            == (if d.store[k].List? then List(Drop(d.store[k].items, AsSet(hs))) else d.store[k])
    decreases hs
  {
    if hs == [] {
      assert AsSet(hs) == {};
      if d.store[k].List? {
        DropNone(d.store[k].items);
      }
    } else {
      var d1 := Remove(d, hs[0]);
      RemoveAllStore(d1, hs[1..], k);
      assert AsSet(hs) == AsSet(hs[1..]) + {hs[0]};
      if d.store[k].List? {
        DropWithout(d.store[k].items, hs[0], AsSet(hs[1..]));
      }
    }
  }

  /** Pruning removes exactly the original items whose tab id occurs nowhere
      in the new forest, in the order of the list. */
  lemma {:induction false} PruneRemoves(d: Doc, oldLis: seq<Handle>, nodes: seq<TabTreeNode>)
    requires forall h :: h in oldLis ==> IsItem(d, h)
    ensures Prune(d, oldLis, nodes) == RemoveAll(d, Pruned(d, oldLis, nodes))
    decreases oldLis
  {
    if oldLis != [] {
      var li := oldLis[0];
      StillInTreeIds(nodes, KeyOf(d, li));
      var d1 := if StillInTree(nodes, KeyOf(d, li)) then d else Remove(d, li);
      assert forall h :: h in oldLis[1..] ==> IsItem(d1, h) && KeyOf(d1, h) == KeyOf(d, h) by {
        forall h | h in oldLis[1..] ensures IsItem(d1, h) && KeyOf(d1, h) == KeyOf(d, h) {
          assert h in oldLis;
        }
      }
      PruneRemoves(d1, oldLis[1..], nodes);
      PrunedSameKeys(d, d1, oldLis[1..], nodes);
      var tail := Pruned(d, oldLis[1..], nodes);
      if KeyOf(d, li) in Ids(nodes) {
        assert Pruned(d, oldLis, nodes) == tail;
        assert Prune(d, oldLis, nodes) == Prune(d, oldLis[1..], nodes);
      } else {
        assert Pruned(d, oldLis, nodes) == [li] + tail;
        assert ([li] + tail)[1..] == tail;
        assert RemoveAll(d, [li] + tail) == RemoveAll(Remove(d, li), tail);
        assert Prune(d, oldLis, nodes) == Prune(Remove(d, li), oldLis[1..], nodes);
      }
    }
  }

  lemma {:induction false} PrunedSameKeys(d: Doc, d1: Doc, hs: seq<Handle>, nodes: seq<TabTreeNode>)
    requires forall h :: h in hs ==> IsItem(d, h) && IsItem(d1, h) && KeyOf(d1, h) == KeyOf(d, h)
    ensures Pruned(d1, hs, nodes) == Pruned(d, hs, nodes)
  {
    if hs != [] {
      assert forall h :: h in hs[1..] ==> h in hs;
      PrunedSameKeys(d, d1, hs[1..], nodes);
    }
  }

  /** Pruning leaves the document alone when every original item's tab is
      still in the forest. */
  lemma {:induction false} PruneKeeps(d: Doc, oldLis: seq<Handle>, nodes: seq<TabTreeNode>)
    requires forall h :: h in oldLis ==> IsItem(d, h) && KeyOf(d, h) in Ids(nodes)
    ensures Prune(d, oldLis, nodes) == d
    decreases oldLis
  {
    if oldLis != [] {
      StillInTreeIds(nodes, KeyOf(d, oldLis[0]));
      assert forall h :: h in oldLis[1..] ==> h in oldLis;
      PruneKeeps(d, oldLis[1..], nodes);
    }
  }

  /** The old forest never changes what `reconcile` does to the document:
      it only feeds `getStoredChildren`, whose result only becomes the old
      forest of the nested call. So `lastTree` does not matter either. */
  lemma {:induction false} ReconcileIgnoresPrev(d: Doc, t: Handle, p1: seq<TabTreeNode>, p2: seq<TabTreeNode>, nodes: seq<TabTreeNode>)
    requires IsList(d, t)
    ensures Reconcile(d, t, p1, nodes) == Reconcile(d, t, p2, nodes)
    decreases nodes, 1
  {
    StepsIgnorePrev(d, t, RowIndex(d), p1, p2, nodes, 0);
  }

  lemma {:induction false} StepsIgnorePrev(d: Doc, t: Handle, idx: map<int, Handle>, p1: seq<TabTreeNode>, p2: seq<TabTreeNode>,
                                           nodes: seq<TabTreeNode>, i: nat)
    requires IsList(d, t) && IndexOK(d, idx) && i <= |nodes|
    ensures Steps(d, t, idx, p1, nodes, i) == Steps(d, t, idx, p2, nodes, i)
    decreases nodes, 0, |nodes| - i
  {
    if i < |nodes| {
      StepIgnoresPrev(d, t, idx, p1, p2, nodes[i], i);
      var stepped := Step(d, t, idx, p1, nodes[i], i);
      if stepped.Ok? {
        StepsIgnorePrev(stepped.value, t, idx, p1, p2, nodes, i + 1);
      }
    }
  }

  lemma {:induction false} StepIgnoresPrev(d: Doc, t: Handle, idx: map<int, Handle>, p1: seq<TabTreeNode>, p2: seq<TabTreeNode>,
                                           node: TabTreeNode, i: nat)
    requires IsList(d, t) && IndexOK(d, idx)
    ensures Step(d, t, idx, p1, node, i) == Step(d, t, idx, p2, node, i)
    decreases node, 3
  {
    var placed := Place(d, t, idx, node, i);
    if placed.Ok? {
      ChildListsIgnorePrev(placed.value.0, placed.value.1, p1, p2, node);
    }
  }

  lemma {:induction false} ChildListsIgnorePrev(d: Doc, li: Handle, p1: seq<TabTreeNode>, p2: seq<TabTreeNode>, node: TabTreeNode)
    requires IsItem(d, li)
    ensures ChildLists(d, li, p1, node) == ChildLists(d, li, p2, node)
    decreases node, 2
  {
    var childList := ChildList(d, li);
    if node.children != [] && childList.Some? {
      ReconcileIgnoresPrev(d, childList.value, StoredChildren(p1, node.tab.id), StoredChildren(p2, node.tab.id), node.children);
    }
  }

  lemma WithoutPrefix(a: seq<Handle>, b: seq<Handle>, h: Handle)
    requires h !in a
    ensures Without(a + b, h) == a + Without(b, h)
  {
    WithoutConcat(a, b, h);
  }

  /** The slot of a child is its first position. */
  lemma {:induction false} SlotIsFirst(xs: seq<Handle>, h: Handle, i: nat)
    requires i < |xs| && xs[i] == h && h !in xs[..i]
    ensures SlotOf(xs, Some(h)) == i
  {
    if i > 0 {
      assert xs[0] == xs[..i][0];
      assert xs[1..][i - 1] == h;
      assert xs[1..][..i - 1] == xs[..i][1..];
      SlotIsFirst(xs[1..], h, i - 1);
    }
  }

  /** Taking `li` out of `cur`, when it is not among the first `i`
      children, leaves the first `i` children and puts the one at slot `i`
      (if any) at the slot of the reference child. */
  lemma SlotAfterWithout(cur: seq<Handle>, li: Handle, i: nat, target: Option<Handle>)
    requires Distinct(cur) && i <= |cur| && li !in cur[..i]
    requires target == (if i < |cur| then Some(cur[i]) else None) && target != Some(li)
    ensures i <= |Without(cur, li)| && Without(cur, li)[..i] == cur[..i]
    ensures SlotOf(Without(cur, li), target) == i
  {
    var xs := Without(cur, li);
    WithoutAfter(cur, li, i);
    if i < |cur| {
      WithoutHeadKept(cur[i..], li);
      assert cur[i..][0] == cur[i];
      ConcatAt(cur[..i], Without(cur[i..], li));
      assert cur[i] !in cur[..i];
      SlotIsFirst(xs, cur[i], i);
    } else {
      assert cur[i..] == [];
      ConcatAt(cur[..i], []);
    }
  }

  lemma WithoutAfter(cur: seq<Handle>, li: Handle, i: nat)
    requires i <= |cur| && li !in cur[..i]
    ensures Without(cur, li) == cur[..i] + Without(cur[i..], li)
  {
    assert cur == cur[..i] + cur[i..];
    WithoutPrefix(cur[..i], cur[i..], li);
  }

  lemma WithoutHeadKept(ys: seq<Handle>, li: Handle)
    requires ys != [] && ys[0] != li
    ensures Without(ys, li) != [] && Without(ys, li)[0] == ys[0]
  {
  }

  lemma ConcatAt(a: seq<Handle>, b: seq<Handle>)
    ensures (a + b)[..|a|] == a
    ensures b != [] ==> (a + b)[|a|] == b[0]
  {
  }

  lemma SpliceFront(xs: seq<Handle>, li: Handle, p: nat)
    requires p <= |xs|
    ensures p < |xs[..p] + [li] + xs[p..]| && (xs[..p] + [li] + xs[p..])[..p] == xs[..p]
    ensures (xs[..p] + [li] + xs[p..])[p] == li
  {
  }

  /** Moving `li`, which is not among the first `i` children, in front of
      the child at slot `i` (or to the end when there is none) leaves the
      first `i` children alone and puts `li` at slot `i`. */
  lemma SpliceSlot(cur: seq<Handle>, li: Handle, i: nat, target: Option<Handle>)
    requires Distinct(cur) && i <= |cur| && li !in cur[..i]
    requires target == (if i < |cur| then Some(cur[i]) else None) && target != Some(li)
    ensures var xs := Without(cur, li);
      var ys := xs[..SlotOf(xs, target)] + [li] + xs[SlotOf(xs, target)..];
      i < |ys| && ys[..i] == cur[..i] && ys[i] == li
  {
    SlotAfterWithout(cur, li, i, target);
    SpliceFront(Without(cur, li), li, i);
  }

  /** Placing the node at slot `i` of list `t` reuses the item `idx` has for
      its id, creating an element only when there is none; a reused item is
      moved only when it is not at slot `i` already. When the first `i`
      children do not hold that item, they stay as they are and the item
      lands at slot `i`. (A list's children are distinct handles of
      existing elements, as in any document.) */
  lemma PlaceAtSlot(d: Doc, t: Handle, idx: map<int, Handle>, node: TabTreeNode, i: nat)
    requires IsList(d, t) && IndexOK(d, idx) && i <= |Items(d, t)|
    requires Distinct(Items(d, t)) && forall h :: h in Items(d, t) ==> h < |d.store|
    ensures var r := Place(d, t, idx, node, i);
      r.Ok? && node.tab.id in idx ==> r.value.1 == idx[node.tab.id] && |r.value.0.store| == |d.store|
    ensures var r := Place(d, t, idx, node, i);
      r.Ok? && node.tab.id !in idx ==> r.value.1 == |d.store| && Created(|d.store|) in r.value.0.log
    ensures node.tab.id in idx && SlotAt(d, t, i) == Some(idx[node.tab.id]) ==>
              Place(d, t, idx, node, i) == Ok((UpdateContent(d, idx[node.tab.id], node), idx[node.tab.id]))
    ensures var r := Place(d, t, idx, node, i);
      r.Ok? && (node.tab.id in idx ==> idx[node.tab.id] !in Items(d, t)[..i]) ==>
        IsList(r.value.0, t) && i < |Items(r.value.0, t)|
        && Items(r.value.0, t)[..i] == Items(d, t)[..i] && Items(r.value.0, t)[i] == r.value.1
  {
    if node.tab.id in idx {
      ReuseAtSlot(d, t, idx[node.tab.id], node, i);
    } else {
      FreshAtSlot(d, t, node, i);
    }
  }

  /** The reused item keeps the store's size, stays put when already at
      slot `i`, and otherwise lands there. */
  lemma ReuseAtSlot(d: Doc, t: Handle, li: Handle, node: TabTreeNode, i: nat)
    requires IsList(d, t) && IsItem(d, li) && KeyOf(d, li) == node.tab.id && i <= |Items(d, t)|
    requires Distinct(Items(d, t)) && forall h :: h in Items(d, t) ==> h < |d.store|
    ensures var r := Reuse(d, t, li, node, i); r.Ok? ==> |r.value.0.store| == |d.store|
    ensures SlotAt(d, t, i) == Some(li) ==> Reuse(d, t, li, node, i) == Ok((UpdateContent(d, li, node), li))
    ensures var r := Reuse(d, t, li, node, i);
      r.Ok? && li !in Items(d, t)[..i] ==>
        (IsList(r.value.0, t) && i < |Items(r.value.0, t)|
         && Items(r.value.0, t)[..i] == Items(d, t)[..i] && Items(r.value.0, t)[i] == li)
  {
    var cur := Items(d, t);
    var d1 := UpdateContent(d, li, node);
    assert d1.store[t] == d.store[t];
    var target := SlotAt(d1, t, i);
    if target != Some(li) {
      var r := InsertBefore(d1, t, li, target);
      InsertAt(d1, t, li, target);
      if r.Ok? && li !in cur[..i] {
        SpliceSlot(cur, li, i, target);
      }
    }
  }

  /** A created item is logged and lands at slot `i`. */
  lemma FreshAtSlot(d: Doc, t: Handle, node: TabTreeNode, i: nat)
    requires IsList(d, t) && i <= |Items(d, t)|
    requires Distinct(Items(d, t)) && forall h :: h in Items(d, t) ==> h < |d.store|
    ensures var r := Fresh(d, t, node, i); r.Ok? ==> Created(|d.store|) in r.value.0.log
    ensures var r := Fresh(d, t, node, i);
      r.Ok? ==> (IsList(r.value.0, t) && i < |Items(r.value.0, t)|
                 && Items(r.value.0, t)[..i] == Items(d, t)[..i] && Items(r.value.0, t)[i] == r.value.1)
  {
    var (d1, li) := CreateNode(d, node);
    assert d1.store[t] == d.store[t] by {
      assert d1.store[..|d.store|][t] == d.store[t];
    }
    FreshLogged(d, d1, t, node, i);
    FreshSlot(d, d1, t, node, i);
  }

  lemma FreshLogged(d: Doc, d1: Doc, t: Handle, node: TabTreeNode, i: nat)
    requires IsList(d, t) && d1 == CreateNode(d, node).0 && IsList(d1, t)
    ensures var r := Fresh(d, t, node, i); r.Ok? ==> Created(|d.store|) in r.value.0.log
  {
    var r := InsertBefore(d1, t, |d.store|, SlotAt(d1, t, i));
    if r.Ok? {
      assert r.value.log == d1.log + [Inserted(|d.store|, t)];
      CreatedLogged(d, node);
    }
  }

  lemma FreshSlot(d: Doc, d1: Doc, t: Handle, node: TabTreeNode, i: nat)
    requires IsList(d, t) && i <= |Items(d, t)| && d1 == CreateNode(d, node).0 && d1.store[t] == d.store[t]
    requires Distinct(Items(d, t)) && forall h :: h in Items(d, t) ==> h < |d.store|
    ensures var r := Fresh(d, t, node, i);
      r.Ok? ==> (IsList(r.value.0, t) && i < |Items(r.value.0, t)|
                 && Items(r.value.0, t)[..i] == Items(d, t)[..i] && Items(r.value.0, t)[i] == r.value.1)
  {
    var cur := Items(d, t);
    var li := |d.store|;
    assert li !in cur;
    var target := SlotAt(d1, t, i);
    assert target != Some(li) by {
      if target.Some? { assert target.value == cur[i]; }
    }
    var ins := InsertBefore(d1, t, li, target);
    if ins.Ok? {
      assert Fresh(d, t, node, i) == Ok((ins.value, li));
      InsertAt(d1, t, li, target);
      SpliceSlot(cur, li, i, target);
    }
  }

  /** `createNode` logs the creation of the item it returns. */
  lemma CreatedLogged(d: Doc, node: TabTreeNode)
    ensures Created(|d.store|) in CreateNode(d, node).0.log
  {
    var (d1, li) := Alloc(d, Item(node.tab.id, node.depth, Some(NewRow(node.tab)), None));
    assert Created(li) in d1.log;
    if node.children != [] {
      var (d2, ul) := BuildChildList(d1, node.children);
      assert d1.log <= d2.log;
    }
  }
}
