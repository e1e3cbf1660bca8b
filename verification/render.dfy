/** `TabTreeRenderer` (src/ui/TabTreeRenderer.ts): keeps the side panel's
    list elements in step with a forest of tab nodes, reusing the row of a
    tab wherever it already is in the panel, creating rows for new tabs and
    removing rows of closed ones. Each operation takes the document and
    returns the document it leaves; a DOM exception becomes `Err`. */
module Renderer {
  import opened Tabs
  import opened Dom

  /** The text of the placeholder shown for an empty window (line 235). */
  const EmptyText: string := "No tabs in this window"

  /** The renderer's state: the document and `lastTree`. */
  datatype Panel = Panel(doc: Doc, lastTree: Option<seq<TabTreeNode>>)

  /** The row `createNode` builds for a tab (lines 170-199). The icon is
      never hidden at first: only `onerror` hides it. */
  function NewRow(t: TabInfo): (r: RowPart)
    ensures r.active <==> IsActive(t)
    ensures r.caption.Some? && r.caption.value.text == LabelText(t) && r.caption.value.tooltip == t.url
    ensures r.icon.Some? && r.icon.value.src == FaviconSrc(t) && !r.icon.value.hidden
  {
    RowPart(IsActive(t), Some(Label(LabelText(t), t.url)), Some(Favicon(FaviconSrc(t), false)))
  }

  /** `li.querySelector(":scope > ul.tab-tree-children")`. */
  function ChildList(d: Doc, li: Handle): (r: Option<Handle>)
    requires IsItem(d, li)
    ensures r.Some? ==> IsList(d, r.value) && d.store[li].sub == r
    ensures r.None? ==> d.store[li].sub.None? || !IsList(d, d.store[li].sub.value)
  {
    var sub := d.store[li].sub;
    if sub.Some? && IsList(d, sub.value) then sub else None
  }

  /** `updateNodeContent` (lines 135-161): when the item has a row, the
      active class follows the tab, the label (with its tooltip) is written
      only when its text differs, the icon only when its source differs
      (hidden exactly when the new source is empty), and the depth is
      always stamped; an item without a row is left alone. */
  function UpdateContent(d: Doc, li: Handle, node: TabTreeNode): (r: Doc)
    requires IsItem(d, li)
    ensures d.store[li].row.None? ==> r == d
    ensures |r.store| == |d.store| && r.top == d.top && Extends(d, r)
    ensures forall h :: 0 <= h < |d.store| && h != li ==> r.store[h] == d.store[h]
    ensures r.store[li].Item? && r.store[li].sub == d.store[li].sub
  {
    var e := d.store[li];
    if e.row.None? then d
    else
      var part := e.row.value;
      var title := LabelText(node.tab);
      var writeLabel := part.caption.Some? && part.caption.value.text != title;
      var caption := if writeLabel then Some(Label(title, node.tab.url)) else part.caption;
      var src := FaviconSrc(node.tab);
      var writeIcon := part.icon.Some? && part.icon.value.src != src;
      var icon := if writeIcon then Some(Favicon(src, src == "")) else part.icon;
      var log := d.log + (if writeLabel then [LabelWritten(li)] else [])
                       + (if writeIcon then [FaviconWritten(li)] else []);
      var e' := e.(depth := node.depth, row := Some(RowPart(IsActive(node.tab), caption, icon)));
      Doc(d.store[li := e'], d.top, log)
  }

  /** `createNode` (lines 163-230), structure only: a new item for the tab
      with its row, and, when the node has children, a new child list
      holding a new item for each child in order. */
  function CreateNode(d: Doc, node: TabTreeNode): (r: (Doc, Handle))
    ensures r.1 == |d.store| && |d.store| < |r.0.store| && r.0.store[..|d.store|] == d.store
    ensures r.0.top == d.top && Extends(d, r.0)
    ensures IsItem(r.0, r.1) && KeyOf(r.0, r.1) == node.tab.id
    ensures r.0.store[r.1].depth == node.depth && r.0.store[r.1].row == Some(NewRow(node.tab))
    ensures ChildList(r.0, r.1).Some? <==> node.children != []
    ensures ChildList(r.0, r.1).Some? ==> |Items(r.0, ChildList(r.0, r.1).value)| == |node.children|
    decreases node, 1
  {
    var (d1, li) := Alloc(d, Item(node.tab.id, node.depth, Some(NewRow(node.tab)), None));
    assert ChildList(d1, li).None?;
    if node.children == [] then (d1, li)
    else
      var (d2, ul) := BuildChildList(d1, node.children);
      assert d2.store[li] == d1.store[li] by {
        assert d2.store[..|d1.store|][li] == d1.store[li];
      }
      (AttachChildList(d2, li, ul), li)
  }

  /** A new child list holding a new item for each of `kids` (lines 94-99,
      220-225). */
  function BuildChildList(d: Doc, kids: seq<TabTreeNode>): (r: (Doc, Handle))
    ensures r.1 == |d.store| && |d.store| < |r.0.store| && r.0.store[..|d.store|] == d.store
    ensures r.0.top == d.top && Extends(d, r.0)
    ensures IsList(r.0, r.1) && |Items(r.0, r.1)| == |kids|
    decreases kids, 1
  {
    var (d1, ul) := Alloc(d, List([]));
    var d2 := AppendNodes(d1, ul, kids, 0);
    assert d2.store[..|d.store|] == d.store by {
      assert d2.store[..|d1.store|][..|d.store|] == d1.store[..|d.store|];
    }
    (d2, ul)
  }

  /** Appends a new item for each of `kids[i..]` to the new list `ul`. */
  function AppendNodes(d: Doc, ul: Handle, kids: seq<TabTreeNode>, i: nat): (r: Doc)
    requires IsList(d, ul) && i <= |kids| && |Items(d, ul)| == i
    ensures |d.store| <= |r.store| && r.store[..ul] == d.store[..ul] && r.top == d.top && Extends(d, r)
    ensures IsList(r, ul) && |Items(r, ul)| == |kids|
    decreases kids, 0, |kids| - i
  {
    if i == |kids| then d
    else
      var (d1, h) := CreateNode(d, kids[i]);
      var d2 := AppendFresh(d1, ul, h);
      assert d2.store[..ul] == d.store[..ul] by {
        assert d1.store[..|d.store|][..ul] == d.store[..ul];
      }
      AppendNodes(d2, ul, kids, i + 1)
  }

  /** `li.appendChild(childUl)` for an item with no child list yet. */
  function AttachChildList(d: Doc, li: Handle, ul: Handle): (r: Doc)
    requires IsItem(d, li) && IsList(d, ul)
    ensures |r.store| == |d.store| && r.top == d.top && Extends(d, r) && IsItem(r, li)
    ensures ChildList(r, li) == Some(ul)
    ensures forall h :: 0 <= h < |d.store| && h != li ==> r.store[h] == d.store[h]
    ensures r.log == d.log + [Inserted(ul, li)]
  {
    Doc(d.store[li := d.store[li].(sub := Some(ul))], d.top, d.log + [Inserted(ul, li)])
  }

  /** `childList.remove()` for the item's child list `ul`. */
  function DropChildList(d: Doc, li: Handle, ul: Handle): (r: Doc)
    requires IsItem(d, li)
    ensures |r.store| == |d.store| && r.top == d.top && Extends(d, r) && IsItem(r, li)
    ensures ChildList(r, li).None?
    ensures forall h :: 0 <= h < |d.store| && h != li ==> r.store[h] == d.store[h]
    ensures r.log == d.log + [Removed(ul)]
  {
    Doc(d.store[li := d.store[li].(sub := None)], d.top, d.log + [Removed(ul)])
  }

  /** `getStoredChildren` (lines 118-128): the children of the first node
      with id `parentId` in a depth-first search that skips subtrees
      returning no children. */
  function StoredChildren(nodes: seq<TabTreeNode>, parentId: int): seq<TabTreeNode>
    decreases nodes
  {
    if nodes == [] then []
    else if nodes[0].tab.id == parentId then nodes[0].children
    else
      var found := StoredChildren(nodes[0].children, parentId);
      if |found| > 0 then found else StoredChildren(nodes[1..], parentId)
  }

  /** `findInTree` (lines 130-133). */
  predicate FindInTree(node: TabTreeNode, tabId: int)
    decreases node, 1
  {
    node.tab.id == tabId || AnyFinds(node.children, tabId)
  }

  /** `nodes.some(c => findInTree(c, tabId))`. */
  predicate AnyFinds(nodes: seq<TabTreeNode>, tabId: int)
    decreases nodes, 0
  {
    nodes != [] && (FindInTree(nodes[0], tabId) || AnyFinds(nodes[1..], tabId))
  }

  /** The `stillInTree` test of the pruning loop (lines 109-111). */
  predicate StillInTree(nodes: seq<TabTreeNode>, tabId: int) {
    exists k :: 0 <= k < |nodes| && (nodes[k].tab.id == tabId || FindInTree(nodes[k], tabId))
  }

  /** `listEl.children[i]`, null past the end. */
  function SlotAt(d: Doc, t: Handle, i: nat): (r: Option<Handle>)
    requires IsList(d, t)
    ensures r.Some? <==> i < |Items(d, t)|
    ensures r.Some? ==> r.value == Items(d, t)[i]
  {
    if i < |Items(d, t)| then Some(Items(d, t)[i]) else None
  }

  /** `oldByTabId` leads each id to an item carrying it. */
  ghost predicate IndexOK(d: Doc, idx: map<int, Handle>) {
    forall x :: x in idx ==> IsItem(d, idx[x]) && KeyOf(d, idx[x]) == x
  }

  lemma IndexOKExtends(d: Doc, r: Doc, idx: map<int, Handle>)
    requires IndexOK(d, idx) && Extends(d, r)
    ensures IndexOK(r, idx)
  {
    forall x | x in idx ensures IsItem(r, idx[x]) && KeyOf(r, idx[x]) == x {
      assert SameKind(d.store[idx[x]], r.store[idx[x]]);
    }
  }

  /** `oldByTabId` (lines 63-64): every item in the container, by tab id.
      Every item the container holds has its id indexed, and an id leads to
      the last item carrying it in document order. */
  function RowIndex(d: Doc): (m: map<int, Handle>)
    ensures IndexOK(d, m)
    ensures forall x :: x in m ==> m[x] in Contents(d)
    ensures forall h :: h in Contents(d) && IsItem(d, h) ==> KeyOf(d, h) in m
    ensures forall i :: 0 <= i < |Contents(d)| && LastOfKey(d, Contents(d), i) ==> m[KeyOf(d, Contents(d)[i])] == Contents(d)[i]
  {
    var rows := RowsIn(d, Contents(d));
    RowIndexLast(d, Contents(d), rows);
    IndexRows(d, rows)
  }

  /** `hs[i]` is an item and no later item of `hs` carries its id. */
  ghost predicate LastOfKey(d: Doc, hs: seq<Handle>, i: int)
    requires 0 <= i < |hs|
  {
    IsItem(d, hs[i]) && forall j :: i < j < |hs| && IsItem(d, hs[j]) ==> KeyOf(d, hs[j]) != KeyOf(d, hs[i])
  }

  /** The last item with an id among `hs` is the last row with it. */
  lemma RowIndexLast(d: Doc, hs: seq<Handle>, rows: seq<Handle>)
    requires rows == RowsIn(d, hs)
    ensures forall i :: 0 <= i < |hs| && LastOfKey(d, hs, i) ==> IndexRows(d, rows)[KeyOf(d, hs[i])] == hs[i]
  {
    var pos := RowsInPositions(d, hs);
    forall i | 0 <= i < |hs| && LastOfKey(d, hs, i) ensures IndexRows(d, rows)[KeyOf(d, hs[i])] == hs[i] {
      LastRow(d, hs, rows, pos, i);
    }
  }

  lemma LastRow(d: Doc, hs: seq<Handle>, rows: seq<Handle>, pos: seq<nat>, i: nat)
    requires forall h :: h in rows ==> IsItem(d, h)
    requires |pos| == |rows|
    requires forall k :: 0 <= k < |pos| ==> pos[k] < |hs| && hs[pos[k]] == rows[k]
    requires forall k, l :: 0 <= k < l < |pos| ==> pos[k] < pos[l]
    requires i < |hs| && i in pos && LastOfKey(d, hs, i)
    ensures IndexRows(d, rows)[KeyOf(d, hs[i])] == hs[i]
  {
    var k :| 0 <= k < |pos| && pos[k] == i;
    forall l | k < l < |rows| ensures KeyOf(d, rows[l]) != KeyOf(d, rows[k]) {
      assert pos[k] < pos[l] && hs[pos[l]] == rows[l];
    }
  }

  /** Lines 67-83: the item for `node` at slot `i` of list `t` — the item
      already carrying its id, brought up to date and moved only when it is
      not at slot `i` yet, or a new one inserted there. */
  function Place(d: Doc, t: Handle, idx: map<int, Handle>, node: TabTreeNode, i: nat): (r: Result<(Doc, Handle)>)
    requires IsList(d, t) && IndexOK(d, idx)
    ensures r.Ok? ==> Extends(d, r.value.0) && IsItem(r.value.0, r.value.1) && KeyOf(r.value.0, r.value.1) == node.tab.id
    ensures r.Ok? ==> IsList(r.value.0, t)
  {
    if node.tab.id in idx then Reuse(d, t, idx[node.tab.id], node, i)
    else Fresh(d, t, node, i)
  }

  /** Lines 72-78: the existing item `li`, updated, then moved to slot `i`
      unless it is there already. */
  function Reuse(d: Doc, t: Handle, li: Handle, node: TabTreeNode, i: nat): (r: Result<(Doc, Handle)>)
    requires IsList(d, t) && IsItem(d, li) && KeyOf(d, li) == node.tab.id
    ensures r.Ok? ==> Extends(d, r.value.0) && r.value.1 == li && IsItem(r.value.0, li) && KeyOf(r.value.0, li) == node.tab.id
    ensures r.Ok? ==> IsList(r.value.0, t)
  {
    var d1 := UpdateContent(d, li, node);
    var target := SlotAt(d1, t, i);
    if target == Some(li) then Ok((d1, li))
    else
      match InsertBefore(d1, t, li, target)
      case Err(e) => Err(e)
      case Ok(d2) =>
        assert SameKind(d1.store[li], d2.store[li]);
        ExtendsTrans(d, d1, d2);
        Ok((d2, li))
  }

  /** Lines 79-83: a new item for `node`, inserted at slot `i`. */
  function Fresh(d: Doc, t: Handle, node: TabTreeNode, i: nat): (r: Result<(Doc, Handle)>)
    requires IsList(d, t)
    ensures r.Ok? ==> Extends(d, r.value.0) && r.value.1 == |d.store| && IsItem(r.value.0, r.value.1)
    ensures r.Ok? ==> KeyOf(r.value.0, r.value.1) == node.tab.id && IsList(r.value.0, t)
  {
    var (d1, li) := CreateNode(d, node);
    assert IsList(d1, t) by {
      assert d1.store[..|d.store|][t] == d.store[t];
    }
    var r := InsertBefore(d1, t, li, SlotAt(d1, t, i));
    if r.Err? then Err(r.error)
    else
      var d2 := r.value;
      assert SameKind(d1.store[li], d2.store[li]);
      ExtendsTrans(d, d1, d2);
      Ok((d2, li))
  }

  /** Lines 85-104: the child list of the item `li` placed for `node` is
      reconciled against the stored children when the node has children and
      the item a child list; built afresh when the node has children and the
      item none; removed when the node has no children. */
  function ChildLists(d: Doc, li: Handle, prev: seq<TabTreeNode>, node: TabTreeNode): (r: Result<Doc>)
    requires IsItem(d, li)
    ensures r.Ok? ==> Extends(d, r.value)
    decreases node, 2
  {
    var childList := ChildList(d, li);
    if node.children != [] then
      if childList.Some? then
        Reconcile(d, childList.value, StoredChildren(prev, node.tab.id), node.children)
      else
        var (d1, ul) := BuildChildList(d, node.children);
        assert d1.store[li] == d.store[li] by {
          assert d1.store[..|d.store|][li] == d.store[li];
        }
        Ok(AttachChildList(d1, li, ul))
    else if childList.Some? then
      Ok(DropChildList(d, li, childList.value))
    else
      Ok(d)
  }

  /** One round of the loop of lines 66-105: the item for `node` placed at
      slot `i`, then its child list brought in line. */
  function Step(d: Doc, t: Handle, idx: map<int, Handle>, prev: seq<TabTreeNode>, node: TabTreeNode, i: nat): (r: Result<Doc>)
    requires IsList(d, t) && IndexOK(d, idx)
    ensures r.Ok? ==> Extends(d, r.value) && IsList(r.value, t) && IndexOK(r.value, idx)
    decreases node, 3
  {
    var placed := Place(d, t, idx, node, i);
    if placed.Err? then Err(placed.error)
    else
      var d1, li := placed.value.0, placed.value.1;
      var grown := ChildLists(d1, li, prev, node);
      if grown.Err? then grown
      else
        var d2 := grown.value;
        ExtendsTrans(d, d1, d2);
        IndexOKExtends(d, d2, idx);
        assert SameKind(d.store[t], d2.store[t]);
        grown
  }

  /** The loop of lines 66-105 from slot `i` on. */
  function Steps(d: Doc, t: Handle, idx: map<int, Handle>, prev: seq<TabTreeNode>, nodes: seq<TabTreeNode>, i: nat): (r: Result<Doc>)
    requires IsList(d, t) && IndexOK(d, idx) && i <= |nodes|
    ensures r.Ok? ==> Extends(d, r.value)
    decreases nodes, 0, |nodes| - i
  {
    if i == |nodes| then Ok(d)
    else
      var stepped := Step(d, t, idx, prev, nodes[i], i);
      if stepped.Err? then stepped
      else
        var r := Steps(stepped.value, t, idx, prev, nodes, i + 1);
        if r.Ok? then ExtendsTrans(d, stepped.value, r.value); r else r
  }

  /** Lines 107-115: each of the list's original items whose tab no longer
      occurs in the new forest is removed. */
  function Prune(d: Doc, oldLis: seq<Handle>, nodes: seq<TabTreeNode>): (r: Doc)
    requires forall h :: h in oldLis ==> IsItem(d, h)
    ensures |r.store| == |d.store| && Extends(d, r)
    decreases oldLis
  {
    if oldLis == [] then d
    else
      var li := oldLis[0];
      var d1 := if StillInTree(nodes, KeyOf(d, li)) then d else Remove(d, li);
      assert Extends(d, d1);
      assert forall h :: h in oldLis[1..] ==> IsItem(d1, h) by {
        forall h | h in oldLis[1..] ensures IsItem(d1, h) {
          var k :| 0 <= k < |oldLis[1..]| && oldLis[1..][k] == h;
          assert oldLis[k + 1] == h;
          assert h in oldLis;
          assert IsItem(d, h);
          assert SameKind(d.store[h], d1.store[h]);
        }
      }
      var r := Prune(d1, oldLis[1..], nodes);
      ExtendsTrans(d, d1, r);
      r
  }

  /** `reconcile` (lines 54-116). */
  function Reconcile(d: Doc, t: Handle, prev: seq<TabTreeNode>, nodes: seq<TabTreeNode>): (r: Result<Doc>)
    requires IsList(d, t)
    ensures r.Ok? ==> Extends(d, r.value)
    decreases nodes, 1
  {
    var oldLis := RowsIn(d, Items(d, t));
    match Steps(d, t, RowIndex(d), prev, nodes, 0)
    case Err(e) => Err(e)
    case Ok(d1) =>
      assert forall h :: h in oldLis ==> IsItem(d1, h) by {
        forall h | h in oldLis ensures IsItem(d1, h) {
          assert SameKind(d.store[h], d1.store[h]);
        }
      }
      var r := Prune(d1, oldLis, nodes);
      ExtendsTrans(d, d1, r);
      Ok(r)
  }

  /** `container.innerHTML = ""`. */
  function ClearContainer(d: Doc): (r: Doc)
    ensures r.top == [] && r.store == d.store && r.log == d.log + [Cleared]
  {
    Doc(d.store, [], d.log + [Cleared])
  }

  /** `getOrCreateList` (lines 30-40): the first list in the container, or,
      when there is none, a new empty list that replaces whatever the
      container held. */
  function GetOrCreateList(d: Doc): (r: (Doc, Handle))
    ensures IsList(r.0, r.1) && Extends(d, r.0)
    ensures FirstList(d, Contents(d)).Some? ==> r == (d, FirstList(d, Contents(d)).value)
    ensures FirstList(d, Contents(d)).None? ==>
              r.0.top == [r.1] && Items(r.0, r.1) == [] && r.1 == |d.store| && r.0.store[..|d.store|] == d.store
              && |r.0.store| == |d.store| + 1
  {
    match FirstList(d, Contents(d))
    case Some(list) => (d, list)
    case None =>
      var (d1, ul) := Alloc(ClearContainer(d), List([]));
      assert d1.store[..|d.store|] == d.store;
      (Doc(d1.store, [ul], d1.log + [Mounted(ul)]), ul)
  }

  /** Lines 19-21, 232-237: the container cleared and given the placeholder. */
  function ShowEmpty(d: Doc): (r: Doc)
    ensures |r.top| == 1 && r.top[0] < |r.store| && r.store[r.top[0]] == Note(EmptyText)
    ensures Extends(d, r) && r.store[..|d.store|] == d.store
  {
    var (d1, p) := Alloc(ClearContainer(d), Note(EmptyText));
    assert d1.store[..|d.store|] == d.store;
    Doc(d1.store, [p], d1.log + [Mounted(p)])
  }

  /** `render` (lines 17-28). */
  function Render(p: Panel, tree: seq<TabTreeNode>): (r: Result<Panel>)
    ensures tree == [] ==> r.Ok? && r.value.lastTree.None?
    ensures tree == [] ==> |r.value.doc.top| == 1 && r.value.doc.top[0] < |r.value.doc.store|
                           && r.value.doc.store[r.value.doc.top[0]] == Note(EmptyText)
    ensures tree != [] && r.Ok? ==> r.value.lastTree == Some(tree)
    ensures r.Ok? ==> Extends(p.doc, r.value.doc)
  {
    if tree == [] then Ok(Panel(ShowEmpty(p.doc), None))
    else
      var (d1, list) := GetOrCreateList(p.doc);
      var prev := if p.lastTree.Some? then p.lastTree.value else [];
      match Reconcile(d1, list, prev, tree)
      case Err(e) => Err(e)
      case Ok(d2) =>
        ExtendsTrans(p.doc, d1, d2);
        Ok(Panel(d2, Some(tree)))
  }
}
