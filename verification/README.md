# Vertreecal tab tree: a Dafny model

Vertreecal is a browser side panel. It shows the tabs of a window as a tree: a
tab hangs under the tab that opened it. This project models the two parts of
it that hold the logic, and proves what they do.

- **The tree builder**: `TabTreeBuilder.build` in `src/core/TabTreeBuilder.ts`.
  - It indexes the tabs by id.
  - It links every tab under its opener when the opener is present, and
    makes it a root otherwise.
  - It then sorts every sibling list by `index ?? 0` and stamps each node
    with its depth.
- **The renderer's keyed reconciler**: `TabTreeRenderer` in
  `src/ui/TabTreeRenderer.ts`.
  - `render` shows a placeholder for an empty forest. Otherwise it finds or
    creates the tree list and reconciles it against the forest.
  - `reconcile` reuses the row (`li`) of every tab already anywhere in the
    panel. It updates that row in place and moves it only when it is not
    in its slot yet. It creates rows for new tabs, recurses into child
    lists, and removes the original rows whose tab is gone.

The document is a value (`Dom.Doc`), so every operation is a pure function:
- the `store` holds the elements, addressed by handle;
- `top` holds the children of the panel's container;
- `log` records the mutations made so far: creations, insertions, removals,
  and writes of a label or an icon.

The DOM exceptions `insertBefore` can throw become `Err` results.

What is proved:

- **Build.**
  - The roots are the tabs with no present opener. The children of a node
    are the tabs it opened.
  - Every sibling list is a *stable* sort by `index ?? 0`. Any stable sort
    gives the same list.
  - A node's depth is its number of opener hops to a root. Every node
    carries the input record unchanged.
  - With unique ids, a tab appears exactly once when its opener chain
    reaches a root, and nowhere when the chain is a cycle. Without cycles,
    the forest holds as many nodes as there are tabs.
  - A concrete three-tab example gives the expected tree.
  - Another lemma shows why ids must be unique: two parentless tabs with
    the same id would make the same node a root twice.
- **Reconcile.**
  - `findInTree` and the pruning test hold exactly when the id occurs in
    the forest.
  - `getStoredChildren` returns the children of the node with the id.
  - The row update follows its rules exactly, is idempotent, and is a
    no-op exactly when the row already shows the node.
  - Placing a node reuses the indexed row, creating one only when there is
    none. It leaves the earlier slots alone and puts the row at its slot.
  - Pruning removes exactly the original rows whose tab is gone, in order.
  - The old forest (`lastTree`) never changes the resulting document.
  - `createNode` builds exactly the subtree of its node.
- **Render.**
  - Rendering into a panel with no list yields one list whose rows mirror
    the forest, in depth-first order.
  - Rendering a forest the panel already mirrors changes nothing. So after
    a fresh render, rendering the same forest again changes nothing.
- **Reconcile and render from any panel.**
  - The panel's document is always shaped like a tree, as a browser's DOM
    is (`DocShape.Tree`). Each element has at most one parent, lists hold
    items, an item's child is a list, and no list holds an element twice.
    The blank panel has this shape, and every mutation the renderer makes
    keeps it.
  - On such a document, `reconcile` of a forest without repeated ids never
    throws. Afterwards the list's first children are rows for the forest,
    in order, and so is every child list below them, at every depth. It
    touches only the rows of the forest's tabs and the lists below the
    list.
  - So any run of renders from the blank panel never throws. After each
    non-empty forest, a list in the container lays that forest out.

## Model

| member | source | states |
|---|---|---|
| Entries.FromEntries | src/core/TabTreeBuilder.ts:16-18 | `new Map(entries)`: the keys are exactly the entry keys. A key's value comes from an entry with that key, and the last such entry wins. |
| Builder.TabIndex | src/core/TabTreeBuilder.ts:16-18 | The tab index has exactly the input ids as keys. Each entry is an input tab carrying its key. For a repeated id the last tab wins. |
| Builder.IndexOfUnique | src/core/TabTreeBuilder.ts:16-18 | With unique ids each input tab is the index entry for its own id. |
| Sorting.SortBy | src/core/TabTreeBuilder.ts:36 | The sorted sibling list is non-decreasing in `index ?? 0` and is a permutation of its input. |
| Sorting.SortIsStable | src/core/TabTreeBuilder.ts:36 | Sorting is stable: the tabs with each key keep their input order. |
| Sorting.StableSortIsSortBy | src/core/TabTreeBuilder.ts:36 | Any sorted list with each key's elements in input order equals `SortBy`, so the model agrees with every stable sort (`Array.prototype.sort` is stable). |
| Sorting.InsertWithKey | src/core/TabTreeBuilder.ts:36 | Inserting an element adds it in front of its key's elements and keeps every key's order. |
| Builder.LinkRoots | src/core/TabTreeBuilder.ts:21-32 | The roots array the loop fills is the reference filter: tabs with no opener, or an opener not in the input, in input order. |
| Builder.LinkChildren | src/core/TabTreeBuilder.ts:21-32 | The children array of a present tab is the tabs that name it as opener, in input order. An absent id gets none. |
| Builder.LinkLinked | src/core/TabTreeBuilder.ts:21-32 | With unique ids the arrays hold index nodes under the right parent. Every index node is in exactly one array, once. |
| Builder.AddDepth | src/core/TabTreeBuilder.ts:34-41 | `addDepth` returns its nodes sorted by `index ?? 0`, as a permutation of the input array, all at the given depth. |
| Builder.Stamp | src/core/TabTreeBuilder.ts:37-41 | The `map` over a sorted array: the nodes carry the array's tabs in order, all at the given depth. |
| Builder.Build | src/core/TabTreeBuilder.ts:15-44 | The roots are sorted by `index ?? 0` and all at depth 0. |
| BuildFacts.BuildRoots | src/core/TabTreeBuilder.ts:15-44 | The roots are the tabs with no present opener, stably sorted, at depth 0. |
| BuildFacts.BuildChildren | src/core/TabTreeBuilder.ts:25-41 | Each node's children are the input tabs naming it as opener, stably sorted, one level deeper. |
| BuildFacts.BuildOrder | src/core/TabTreeBuilder.ts:34-41 | Every sibling list is sorted, a permutation of the tabs it is built from, and stable per key. |
| BuildFacts.BuildDepth | src/core/TabTreeBuilder.ts:34-43 | A node's depth is the number of opener hops from its tab to a root. |
| BuildFacts.BuildKeepsTabs | src/core/TabTreeBuilder.ts:15-44 | Every node carries an input record unchanged. No tabs give an empty forest. |
| BuildFacts.BuildNodes | src/core/TabTreeBuilder.ts:34-41 | Every node is the index entry for its id, at its root distance, with its sorted children one level deeper. |
| BuildFacts.BuildExample | src/core/TabTreeBuilder.ts:15-44 | Tabs 1, 2 and 3 (2 and 3 opened by 1, at positions 0 and 1) give the single root 1. Its children are 2 then 3 at depth 1, and they have no children. |
| BuildFacts.LinkDuplicates | src/core/TabTreeBuilder.ts:16-32 | Two parentless tabs sharing an id: the index keeps the second, and the loop pushes that node twice onto the roots. |
| BuildPartition.BuildCount | src/core/TabTreeBuilder.ts:21-43 | A tab id occurs once in the forest when its opener chain reaches a root, and never otherwise. |
| BuildPartition.BuildDistinct | src/core/TabTreeBuilder.ts:21-43 | No tab id occurs twice in the forest. |
| BuildPartition.BuildDropsCycles | src/core/TabTreeBuilder.ts:21-43 | A tab on an opener cycle, a self-opener included, appears nowhere in the forest. |
| BuildPartition.AcyclicCount | src/core/TabTreeBuilder.ts:21-43 | Without opener cycles a tab id occurs in the forest exactly when it is an input id. |
| BuildPartition.BuildAcyclic | src/core/TabTreeBuilder.ts:21-43 | Without opener cycles every input tab appears exactly once, so the forest has as many nodes as there are tabs. |
| Openers.AcyclicRooted | src/core/TabTreeBuilder.ts:25-30 | Without opener cycles every indexed tab's opener chain ends at a root. |
| Openers.RootDepthUnique | src/core/TabTreeBuilder.ts:34-43 | The number of hops from a tab to its root is unique, so a node's depth is well defined. |
| Tabs.LabelText | src/ui/TabTreeRenderer.ts:147 | `title \|\| "New Tab"`: the text is the title when the title is not empty, and "New Tab" when it is. So it is never empty. |
| Tabs.FaviconSrc | src/ui/TabTreeRenderer.ts:154 | `favIconUrl \|\| ""`: the source is the tab's icon URL when it has one, and empty otherwise. It is empty exactly when there is no URL or the URL is empty. |
| Renderer.NewRow | src/ui/TabTreeRenderer.ts:170-185 | A new row shows the active state, a label with the text and the URL as tooltip, and a visible icon with the tab's source. |
| Dom.RowsIn | src/ui/TabTreeRenderer.ts:59-62 | The rows of a list: an element is among them exactly when it is one of the list's children and an item. There are never more rows than children. |
| Dom.RowsInPositions | src/ui/TabTreeRenderer.ts:59-62 | The rows keep document order. Each row sits at a position among the children, the positions increase, and every child that is an item is one of them. |
| Dom.Walk | src/ui/TabTreeRenderer.ts:42-52 | The walk of `collectAllLis` visits only unvisited elements of the document, and every such start element. A visited element's unvisited children are visited too, so every element below the start is reached. |
| Dom.IndexRows | src/ui/TabTreeRenderer.ts:63-64 | `oldByTabId`: the keys are exactly the ids the rows carry. Each key leads to a row with that id, and the last row wins. |
| Renderer.RowIndex | src/ui/TabTreeRenderer.ts:63-64 | `oldByTabId` over all rows in the container: each id leads to an item with that id inside the container. Every item in the container has its id as a key, and the key leads to the last such item in document order. |
| Dom.FirstList | src/ui/TabTreeRenderer.ts:31 | The first list in document order, or none exactly when no element is a list. |
| Dom.InsertBefore | src/ui/TabTreeRenderer.ts:75-82 | `insertBefore` throws HierarchyRequest when the node contains the parent, and NotFound when the reference is not a child. Otherwise the node leaves its old place and lands right before the reference, or last. When the reference is the node itself, the list stays as it was. Every other list keeps its order. |
| Renderer.SlotAt | src/ui/TabTreeRenderer.ts:75 | `listEl.children[i]`: the child at slot `i`, or null past the end. |
| Renderer.GetOrCreateList | src/ui/TabTreeRenderer.ts:30-40 | Returns the first list in the container when there is one. Otherwise it clears the container and mounts a new empty list. |
| Renderer.ShowEmpty | src/ui/TabTreeRenderer.ts:18-22 | The container is cleared and holds only the placeholder with its text. |
| Renderer.Render | src/ui/TabTreeRenderer.ts:17-28 | An empty forest clears `lastTree` and shows the placeholder. A successful render of a non-empty forest stores it as `lastTree`. |
| Renderer.UpdateContent | src/ui/TabTreeRenderer.ts:135-161 | Only the item's own row changes: an item without a row stays as it is, and the container, every other element and the item's id and child list stay. |
| Renderer.Place | src/ui/TabTreeRenderer.ts:66-83 | A placed row is an item carrying the node's id, and the target is still a list. No stored element changes kind, items keep their ids, and the log only grows. |
| Renderer.Reuse | src/ui/TabTreeRenderer.ts:72-78 | A reused row is the indexed item itself, still carrying the node's id. |
| Renderer.Fresh | src/ui/TabTreeRenderer.ts:79-83 | A fresh row is a new element at the end of the store, an item carrying the node's id. |
| Renderer.ChildLists | src/ui/TabTreeRenderer.ts:85-104 | Bringing an item's child lists in line only extends the document: no stored element changes kind, items keep their ids, and the log only grows. |
| Renderer.Prune | src/ui/TabTreeRenderer.ts:107-115 | Pruning adds no element. No element changes kind, items keep their ids, and the log only grows. |
| Renderer.Reconcile | src/ui/TabTreeRenderer.ts:54-116 | A successful `reconcile` only extends the document: no stored element changes kind, items keep their ids, and the log only grows. That it succeeds, and what it lays out, is `RenderOrder.ReconcileOrders`. |
| RenderFacts.FindInTreeIds | src/ui/TabTreeRenderer.ts:130-133 | `findInTree` holds exactly when the id is the node's or a descendant's. |
| RenderFacts.StillInTreeIds | src/ui/TabTreeRenderer.ts:109-111 | The pruning test holds exactly when the id occurs anywhere in the new forest. |
| RenderFacts.StoredChildrenSpec | src/ui/TabTreeRenderer.ts:118-128 | Empty when no node has the id. When not empty, the children of a node with the id. With distinct ids, the children of the node with the id. |
| RenderFacts.UpdateRules | src/ui/TabTreeRenderer.ts:135-161 | The row ends up showing the node. The label and tooltip are written, and logged, exactly when the text was stale. The icon likewise, hidden exactly when the new source is empty. The id and child list stay. |
| RenderFacts.UpdateNoop | src/ui/TabTreeRenderer.ts:135-161 | The update changes nothing exactly when the item has no row or its row already shows the node. |
| RenderFacts.UpdateIdempotent | src/ui/TabTreeRenderer.ts:135-161 | Updating twice equals updating once. |
| Renderer.CreateNode | src/ui/TabTreeRenderer.ts:163-230 | A new item carrying the id, the depth and a new row. It has a child list exactly when the node has children, with one item per child. |
| RenderFresh.CreateBuilt | src/ui/TabTreeRenderer.ts:163-230 | `createNode` builds exactly the node's subtree: each item shows its node, and the child lists mirror the children in order. |
| Renderer.BuildChildList | src/ui/TabTreeRenderer.ts:93-100 | A new child list with as many items as there are children. Earlier elements and the container stay. |
| Renderer.AttachChildList | src/ui/TabTreeRenderer.ts:100 | The list becomes the item's child list, and nothing else changes. |
| Renderer.DropChildList | src/ui/TabTreeRenderer.ts:102-103 | The item loses its child list, and nothing else changes. |
| RenderFacts.PlaceAtSlot | src/ui/TabTreeRenderer.ts:66-83 | Reuses the indexed row, creating one only when there is none. A row already at slot `i` is only updated. When the earlier slots do not hold the row, they stay and the row lands at slot `i`. |
| RenderFacts.ReuseAtSlot | src/ui/TabTreeRenderer.ts:72-78 | A reused row creates nothing. It is updated in place at slot `i`, or moved to slot `i` with the earlier slots kept. |
| RenderFacts.FreshAtSlot | src/ui/TabTreeRenderer.ts:79-83 | A created row is logged and lands at slot `i`, the earlier slots kept. |
| RenderFacts.PruneRemoves | src/ui/TabTreeRenderer.ts:107-115 | Pruning removes exactly the original rows whose id is nowhere in the new forest, in list order. |
| RenderFacts.PruneKeeps | src/ui/TabTreeRenderer.ts:107-115 | When every original row's tab is still in the forest, pruning changes nothing. |
| RenderFacts.RemoveAllStore | src/ui/TabTreeRenderer.ts:113 | Removing rows takes each out of every list, and every other element stays. |
| RenderFacts.RemoveAllLog | src/ui/TabTreeRenderer.ts:113 | Removing rows logs one removal per row, in order. |
| RenderFacts.ReconcileIgnoresPrev | src/ui/TabTreeRenderer.ts:54-116 | The old forest never changes what `reconcile` does to the document. |
| RenderMirror.ReconcileMirror | src/ui/TabTreeRenderer.ts:54-116 | Reconciling a list that already mirrors the forest returns the document unchanged, log included. |
| RenderFresh.RenderFresh | src/ui/TabTreeRenderer.ts:17-28 | With distinct ids, rendering into a container with no list leaves one new list mirroring the forest. Its rows carry the forest's ids in depth-first order. |
| RenderFresh.RenderStable | src/ui/TabTreeRenderer.ts:17-28 | Rendering a forest the panel's list already mirrors changes nothing but `lastTree`. |
| RenderFresh.RenderTwice | src/ui/TabTreeRenderer.ts:17-28 | Rendering the same forest again after a fresh render leaves the panel as it was. |
| DocShape.UpdateTree | src/ui/TabTreeRenderer.ts:135-161 | Writing a row's content keeps the tree and changes no parent. |
| DocShape.InsertTree | src/ui/TabTreeRenderer.ts:75-82 | A successful `insertBefore` keeps the tree. The item loses its old parent and gains the list, and every other parent link stays. |
| DocShape.RemoveTree | src/ui/TabTreeRenderer.ts:113 | `li.remove()` keeps the tree and takes away exactly the item's parent link. |
| DocShape.RemoveAllTree | src/ui/TabTreeRenderer.ts:107-115 | Removing items one after the other keeps the tree. |
| DocShape.CreateTree | src/ui/TabTreeRenderer.ts:163-230 | What `createNode` builds keeps the tree, and it is not yet held by any element. |
| DocShape.MountTree | src/ui/TabTreeRenderer.ts:30-40 | `getOrCreateList` keeps the tree and returns a list the container holds. |
| DocShape.ShowEmptyTree | src/ui/TabTreeRenderer.ts:18-22 | Showing the placeholder keeps the tree. |
| DocShape.InsertOk | src/ui/TabTreeRenderer.ts:75-82 | `insertBefore` cannot throw when the item is not the list or one of its ancestors and the reference is null or one of the list's children. |
| RenderOrder.PlaceOrder | src/ui/TabTreeRenderer.ts:66-83 | Placing a node whose row is not in the earlier slots never throws, keeps the tree, and the row shows the node. Only the node's row and the lists holding it change. |
| RenderOrder.ReuseOrder | src/ui/TabTreeRenderer.ts:72-78 | Reusing the indexed row never throws, keeps the tree, and leaves the row showing the node. |
| RenderOrder.FreshOrder | src/ui/TabTreeRenderer.ts:79-83 | Creating and inserting a row never throws, keeps the tree, and the new row shows the node. |
| RenderOrder.NestOrder | src/ui/TabTreeRenderer.ts:90-92 | When the row already has a child list, the nested `reconcile` never throws and lays that list out for the children, at every depth. |
| RenderOrder.BuildOrder | src/ui/TabTreeRenderer.ts:93-100 | When the row has no child list, the built list, once attached, lays the children out, and nothing else changes. |
| RenderOrder.ChildListsOrder | src/ui/TabTreeRenderer.ts:85-104 | Bringing a row's child lists in line never throws, keeps the tree and lays the row out for its node: a child list exactly when the node has children, laid out for them. |
| RenderOrder.StepOrder | src/ui/TabTreeRenderer.ts:66-105 | One round of the loop never throws, lays slot `i` out for the `i`-th node and keeps the slots before it. |
| RenderOrder.StepsOrder | src/ui/TabTreeRenderer.ts:66-105 | The loop never throws and lays the list's first children out for the nodes, in order. |
| RenderOrder.PruneOrder | src/ui/TabTreeRenderer.ts:107-115 | Pruning keeps the tree, keeps the list's first `|nodes|` children, and touches no other list. |
| RenderOrder.PruneLays | src/ui/TabTreeRenderer.ts:107-115 | After pruning, the list still lays out the forest at its front and the tree is kept. |
| RenderOrder.ReconcileOrders | src/ui/TabTreeRenderer.ts:54-116 | On a tree-shaped document, `reconcile` of a forest without repeated ids never throws and keeps the tree. The list's first children are rows for the forest in order, each showing its node, with child lists laid out the same way at every depth. Only the forest's rows and the lists below the list change. |
| RenderOrder.RenderOrders | src/ui/TabTreeRenderer.ts:17-28 | On a tree-shaped panel, `render` of a forest without repeated ids never throws and keeps the tree. A non-empty forest is laid out, at every depth, by the list the container holds. |
| RenderOrder.RenderAllOrders | src/ui/TabTreeRenderer.ts:17-28 | Any run of renders of forests without repeated ids, from a tree-shaped panel, never throws and keeps the tree. After a non-empty last forest, a list in the container lays it out. |
| RenderOrder.BlankRuns | src/ui/TabTreeRenderer.ts:17-28 | The same for every run of renders from the blank panel, which is tree-shaped. |

## Left out

- The click, middle-click and close handlers, the icon's `onerror`, class names, ARIA attributes and the `--depth` style syntax. Only the depth value is kept. None of these affects the tree's structure.
- The Chrome tab service, the action handler, the panel's `main.ts`, the background script and the build configuration. They are outside the core.
- Concurrency between renders. JavaScript number precision. `String(id)` comparisons are modelled as integer equality, which is the same for integer ids.
- Builder.Build: requires unique tab ids. With a repeated id the source pushes one node more than once, which `BuildFacts.LinkDuplicates` exhibits. A repeated id can also put a node under itself on a path from a root. `addDepth`'s recursion then never ends, so the source overflows the stack and throws a RangeError. Chrome's tab ids are unique within a window.
- `img.src` returns a resolved URL in a browser. The model compares the source string as written.
- Dom.FirstList: `querySelector("ul.tab-tree")` is modelled as "the first list". The root list and every child list carry that class. Foreign content in the container is not modelled.
- Renderer.CreateNode: appending a freshly created element skips the detach step, because such an element has no parent yet.
- RenderMirror.ReconcileMirror, RenderFresh.RenderFresh: these state more for the two panels they cover: the log is kept, or every row appears exactly once. From any tree-shaped panel, `RenderOrder.ReconcileOrders` gives the order at every depth, but not that a tab has only one row. The source can leave two rows for one tab. This happens when the tab's row sits in another list and its new parent's row has no child list yet. `createNode` then builds a second row, and pruning keeps the old one because the tab is still in the forest.
- RenderFresh.RenderTwice: rendering the same forest twice changes nothing only after a fresh render. In a panel that holds two rows for one tab in one child list, each later render of the same forest swaps them. `oldByTabId` keeps the last of the two rows in document order, and the loop moves it to the front slot. The forest is still laid out in order after every such render (`RenderOrder.RenderAllOrders`).
- Renderer.Reconcile: when `insertBefore` throws, the source keeps the mutations made so far and `lastTree` keeps the old forest. The model returns only the exception and drops those mutations. `RenderOrder.ReconcileOrders` proves that this never happens on a tree-shaped document with a forest without repeated ids.
- RenderOrder.RenderOrders, RenderOrder.ReconcileOrders: both require the document to be shaped like a tree. A browser's DOM always is, and `RenderOrder.BlankRuns` shows every run of renders from the blank panel keeps that shape. Content placed in the container by other code is not modelled.
