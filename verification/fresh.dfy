/** `createNode` builds a subtree that mirrors its node exactly, and
    rendering a non-empty forest into a container that holds no list yields
    one row per tab, in depth-first order, mirroring the forest; rendering
    the same forest again changes nothing. */
module RenderFresh {
  import opened Tabs
  import opened Dom
  import opened Renderer
  import opened RenderFacts
  import opened RenderMirror

  /** How many elements `createNode` makes for a node: its item, and its
      child list with everything below when it has children. */
  function Span(n: TabTreeNode): (r: nat)
    ensures r >= 1
    decreases n, 1
  {
    if n.children == [] then 1 else 2 + SpanAll(n.children)
  }

  function SpanAll(kids: seq<TabTreeNode>): nat
    decreases kids, 0
  {
    if kids == [] then 0 else Span(kids[0]) + SpanAll(kids[1..])
  }

  /** The handles of the subtree built for `n` from handle `h` on, in
      document order. */
  function Pre(h: nat, n: TabTreeNode): seq<Handle>
    decreases n, 1
  {
    [h] + (if n.children == [] then [] else [h + 1] + PreKids(h + 2, n.children))
  }

  function PreKids(lo: nat, kids: seq<TabTreeNode>): seq<Handle>
    decreases kids, 0
  {
    if kids == [] then [] else Pre(lo, kids[0]) + PreKids(lo + Span(kids[0]), kids[1..])
  }

  /** The elements from `h` on are what `createNode` builds for `n`: an
      item carrying the tab id, depth and a row showing the tab, and, exactly
      when the node has children, a child list holding one such subtree per
      child, in order. */
  ghost predicate Built(d: Doc, h: Handle, n: TabTreeNode)
    decreases n, 1
  {
    h + Span(n) <= |d.store|
    && d.store[h] == Item(n.tab.id, n.depth, Some(NewRow(n.tab)), if n.children == [] then None else Some(h + 1))
    && (n.children != [] ==> d.store[h + 1].List? && BuiltKids(d, d.store[h + 1].items, n.children, h + 2))
  }

  /** `hs` are the roots of subtrees built for `kids` one after the other
      from handle `lo` on. */
  ghost predicate BuiltKids(d: Doc, hs: seq<Handle>, kids: seq<TabTreeNode>, lo: nat)
    decreases kids, 0
  {
    |hs| == |kids| && lo + SpanAll(kids) <= |d.store|
    && (kids != [] ==> hs[0] == lo && Built(d, lo, kids[0]) && BuiltKids(d, hs[1..], kids[1..], lo + Span(kids[0])))
  }

  /** The two documents have the same elements at `lo .. hi`. */
  ghost predicate Agree(d: Doc, e: Doc, lo: nat, hi: nat) {
    hi <= |d.store| && hi <= |e.store| && forall x :: lo <= x < hi ==> e.store[x] == d.store[x]
  }

  /** Every handle in `A` from `lo` to `hi`. */
  ghost predicate Avail(A: set<Handle>, lo: nat, hi: nat) {
    forall x :: lo <= x < hi ==> x in A
  }

  predicate NoDupInts(xs: seq<int>) {
    forall a, b :: 0 <= a < b < |xs| ==> xs[a] != xs[b]
  }

  lemma {:induction false} SpanAllSnoc(ks: seq<TabTreeNode>, k: TabTreeNode)
    ensures SpanAll(ks + [k]) == SpanAll(ks) + Span(k)
  {
    if ks == [] {
      assert [k][1..] == [];
    } else {
      assert (ks + [k])[1..] == ks[1..] + [k];
      SpanAllSnoc(ks[1..], k);
    }
  }

  lemma {:induction false} PreRange(h: nat, n: TabTreeNode)
    ensures forall x :: x in Pre(h, n) ==> h <= x < h + Span(n)
    decreases n, 1
  {
    if n.children != [] {
      PreKidsRange(h + 2, n.children);
    }
  }

  lemma {:induction false} PreKidsRange(lo: nat, kids: seq<TabTreeNode>)
    ensures forall x :: x in PreKids(lo, kids) ==> lo <= x < lo + SpanAll(kids)
    decreases kids, 0
  {
    if kids != [] {
      PreRange(lo, kids[0]);
      PreKidsRange(lo + Span(kids[0]), kids[1..]);
    }
  }

  /** A built subtree depends only on the elements in its range. */
  lemma {:induction false} BuiltFrame(d: Doc, e: Doc, h: Handle, n: TabTreeNode)
    requires Built(d, h, n) && Agree(d, e, h, h + Span(n))
    ensures Built(e, h, n)
    decreases n, 1
  {
    if n.children != [] {
      BuiltKidsFrame(d, e, d.store[h + 1].items, n.children, h + 2);
    }
  }

  lemma {:induction false} BuiltKidsFrame(d: Doc, e: Doc, hs: seq<Handle>, kids: seq<TabTreeNode>, lo: nat)
    requires BuiltKids(d, hs, kids, lo) && Agree(d, e, lo, lo + SpanAll(kids))
    ensures BuiltKids(e, hs, kids, lo)
    decreases kids, 0
  {
    if kids != [] {
      BuiltFrame(d, e, lo, kids[0]);
      BuiltKidsFrame(d, e, hs[1..], kids[1..], lo + Span(kids[0]));
    }
  }

  lemma {:induction false} BuiltKidsSnoc(d: Doc, hs: seq<Handle>, ks: seq<TabTreeNode>, lo: nat, k: TabTreeNode)
    requires BuiltKids(d, hs, ks, lo) && Built(d, lo + SpanAll(ks), k)
    ensures BuiltKids(d, hs + [lo + SpanAll(ks)], ks + [k], lo)
    decreases ks, 1
  {
    if ks == [] {
      SpanAllSnoc(ks, k);
      assert [k][1..] == [];
      assert BuiltKids(d, [], [], lo + Span(k));
    } else {
      BuiltKidsSnocCons(d, hs, ks, lo, k);
    }
  }

  lemma {:induction false} BuiltKidsSnocCons(d: Doc, hs: seq<Handle>, ks: seq<TabTreeNode>, lo: nat, k: TabTreeNode)
    requires ks != [] && BuiltKids(d, hs, ks, lo) && Built(d, lo + SpanAll(ks), k)
    ensures BuiltKids(d, hs + [lo + SpanAll(ks)], ks + [k], lo)
    decreases ks, 0
  {
    var h := lo + SpanAll(ks);
    var lo1 := lo + Span(ks[0]);
    assert h == lo1 + SpanAll(ks[1..]);
    assert Built(d, lo, ks[0]) && hs[0] == lo;
    BuiltKidsSnoc(d, hs[1..], ks[1..], lo1, k);
    SpanAllSnoc(ks[1..], k);
    BuiltKidsCons(d, lo, ks[0], hs[1..] + [h], ks[1..] + [k]);
    SnocTail(hs, h);
    SnocTail(ks, k);
  }

  lemma SnocTail<T>(xs: seq<T>, x: T)
    requires xs != []
    ensures xs + [x] == [xs[0]] + (xs[1..] + [x])
  {
  }

  /** Folds `BuiltKids` back at its first subtree. */
  lemma BuiltKidsCons(d: Doc, lo: nat, k0: TabTreeNode, hs1: seq<Handle>, kids1: seq<TabTreeNode>)
    requires |hs1| == |kids1| && lo + Span(k0) + SpanAll(kids1) <= |d.store|
    requires Built(d, lo, k0) && BuiltKids(d, hs1, kids1, lo + Span(k0))
    ensures BuiltKids(d, [lo] + hs1, [k0] + kids1, lo)
  {
    assert ([k0] + kids1)[1..] == kids1 && ([lo] + hs1)[1..] == hs1;
  }

  /** The roots of built subtrees lie in their range. */
  lemma {:induction false} BuiltKidsHeads(d: Doc, hs: seq<Handle>, kids: seq<TabTreeNode>, lo: nat)
    requires BuiltKids(d, hs, kids, lo)
    ensures forall y :: y in hs ==> lo <= y < lo + SpanAll(kids)
    decreases kids
  {
    if kids != [] {
      BuiltKidsHeads(d, hs[1..], kids[1..], lo + Span(kids[0]));
      assert hs == [hs[0]] + hs[1..];
    }
  }

  /** The lists of a built subtree only hold elements of the subtree below
      themselves. */
  lemma {:induction false} BuiltInside(d: Doc, h: Handle, n: TabTreeNode, x: nat)
    requires Built(d, h, n) && h <= x < h + Span(n) && d.store[x].List?
    ensures forall y :: y in d.store[x].items ==> h < y < h + Span(n)
    decreases n, 1
  {
    if x == h + 1 {
      BuiltKidsHeads(d, d.store[h + 1].items, n.children, h + 2);
    } else {
      BuiltKidsInside(d, d.store[h + 1].items, n.children, h + 2, x);
    }
  }

  lemma {:induction false} BuiltKidsInside(d: Doc, hs: seq<Handle>, kids: seq<TabTreeNode>, lo: nat, x: nat)
    requires BuiltKids(d, hs, kids, lo) && lo <= x < lo + SpanAll(kids) && d.store[x].List?
    ensures forall y :: y in d.store[x].items ==> lo < y < lo + SpanAll(kids)
    decreases kids, 0
  {
    if x < lo + Span(kids[0]) {
      BuiltInside(d, lo, kids[0], x);
    } else {
      BuiltKidsInside(d, hs[1..], kids[1..], lo + Span(kids[0]), x);
    }
  }

  /** The `k`-th built subtree, and where its handles lie. */
  lemma {:induction false} BuiltKidsAt(d: Doc, hs: seq<Handle>, kids: seq<TabTreeNode>, lo: nat, k: nat)
    requires BuiltKids(d, hs, kids, lo) && k < |kids|
    ensures hs[k] == lo + SpanAll(kids[..k]) && Built(d, hs[k], kids[k])
    ensures forall x :: x in Pre(hs[k], kids[k]) ==> x in PreKids(lo, kids)
    decreases k
  {
    if k > 0 {
      BuiltKidsAt(d, hs[1..], kids[1..], lo + Span(kids[0]), k - 1);
      assert kids[..k] == [kids[0]] + kids[1..][..k - 1];
      assert [kids[0]] + kids[1..][..k - 1] != [] && ([kids[0]] + kids[1..][..k - 1])[1..] == kids[1..][..k - 1];
    } else {
      assert kids[..0] == [];
    }
  }

  /** `createNode` mirrors the node exactly: it builds the subtree `Built`
      describes, in `Span(node)` new elements. */
  lemma {:induction false} CreateBuilt(d: Doc, n: TabTreeNode)
    ensures Built(CreateNode(d, n).0, |d.store|, n)
    ensures |CreateNode(d, n).0.store| == |d.store| + Span(n)
    decreases n, 1
  {
    var (d1, li) := Alloc(d, Item(n.tab.id, n.depth, Some(NewRow(n.tab)), None));
    if n.children != [] {
      ChildListBuilt(d1, n.children);
      var (d2, ul) := BuildChildList(d1, n.children);
      var d3 := AttachChildList(d2, li, ul);
      assert CreateNode(d, n) == (d3, li);
      assert d2.store[li] == d1.store[li] by {
        assert d2.store[..|d1.store|][li] == d1.store[li];
      }
      assert d3.store[ul] == d2.store[ul];
      BuiltKidsFrame(d2, d3, Items(d2, ul), n.children, li + 2);
    }
  }

  lemma {:induction false} ChildListBuilt(d: Doc, kids: seq<TabTreeNode>)
    ensures var r := BuildChildList(d, kids);
      r.1 == |d.store| && IsList(r.0, r.1) && BuiltKids(r.0, Items(r.0, r.1), kids, |d.store| + 1)
      && |r.0.store| == |d.store| + 1 + SpanAll(kids)
    decreases kids, 1
  {
    var (d1, ul) := Alloc(d, List([]));
    assert kids[..0] == [];
    assert BuiltKids(d1, Items(d1, ul), kids[..0], ul + 1);
    AppendBuilt(d1, ul, kids, 0);
  }

  lemma {:induction false} AppendBuilt(d: Doc, ul: Handle, kids: seq<TabTreeNode>, i: nat)
    requires IsList(d, ul) && i <= |kids| && |Items(d, ul)| == i
    requires BuiltKids(d, Items(d, ul), kids[..i], ul + 1) && |d.store| == ul + 1 + SpanAll(kids[..i])
    ensures var r := AppendNodes(d, ul, kids, i);
      IsList(r, ul) && BuiltKids(r, Items(r, ul), kids, ul + 1) && |r.store| == ul + 1 + SpanAll(kids)
    decreases kids, 0, |kids| - i
  {
    if i == |kids| {
      assert kids[..i] == kids;
    } else {
      var d2 := AppendStep(d, ul, kids[..i], kids[i]);
      TakeSnoc(kids, i);
      AppendBuilt(d2, ul, kids, i + 1);
    }
  }

  /** One round of `AppendNodes`: the new subtree is built right after the
      list's earlier subtrees and appended to the list. */
  lemma {:induction false} AppendStep(d: Doc, ul: Handle, ks: seq<TabTreeNode>, k: TabTreeNode) returns (d2: Doc)
    requires IsList(d, ul) && BuiltKids(d, Items(d, ul), ks, ul + 1) && |d.store| == ul + 1 + SpanAll(ks)
    ensures d2 == AppendFresh(CreateNode(d, k).0, ul, |d.store|)
    ensures IsList(d2, ul) && Items(d2, ul) == Items(d, ul) + [|d.store|]
    ensures BuiltKids(d2, Items(d2, ul), ks + [k], ul + 1) && |d2.store| == ul + 1 + SpanAll(ks + [k])
    decreases k, 2
  {
    var r1 := CreateNode(d, k);
    var d1 := r1.0;
    var h := r1.1;
    CreateBuilt(d, k);
    assert d1.store[ul] == d.store[ul] by {
      assert d1.store[..|d.store|][ul] == d.store[ul];
    }
    d2 := AppendFresh(d1, ul, h);
    AppendedKids(d, d1, d2, ul, ks, k);
  }

  /** The list after appending, described by what the append guarantees,
      holds one more built subtree. */
  lemma AppendedKids(d: Doc, d1: Doc, d2: Doc, ul: Handle, ks: seq<TabTreeNode>, k: TabTreeNode)
    requires IsList(d, ul) && BuiltKids(d, Items(d, ul), ks, ul + 1) && |d.store| == ul + 1 + SpanAll(ks)
    requires |d1.store| == |d.store| + Span(k) && d1.store[..|d.store|] == d.store && Built(d1, |d.store|, k)
    requires IsList(d2, ul) && Items(d2, ul) == Items(d, ul) + [|d.store|] && |d2.store| == |d1.store|
    requires forall x :: 0 <= x < |d1.store| && x != ul ==> d2.store[x] == d1.store[x]
    ensures BuiltKids(d2, Items(d2, ul), ks + [k], ul + 1) && |d2.store| == ul + 1 + SpanAll(ks + [k])
  {
    var h := |d.store|;
    assert BuiltKids(d2, Items(d, ul), ks, ul + 1) by {
      forall x | ul + 1 <= x < h ensures d2.store[x] == d.store[x] {
        assert d1.store[..h][x] == d.store[x];
      }
      BuiltKidsFrame(d, d2, Items(d, ul), ks, ul + 1);
    }
    assert Built(d2, h, k) by {
      BuiltFrame(d1, d2, h, k);
    }
    BuiltKidsSnoc(d2, Items(d, ul), ks, ul + 1, k);
    SpanAllSnoc(ks, k);
  }

  lemma WalkCons(s: seq<Element>, hs: seq<Handle>, A: set<Handle>)
    requires hs != []
    ensures Walk(s, hs, A) == Walk(s, [hs[0]], A) + Walk(s, hs[1..], A)
  {
    assert [hs[0]][1..] == [];
  }

  lemma WalkOne(s: seq<Element>, h: Handle, A: set<Handle>)
    requires h < |s| && h in A
    ensures Walk(s, [h], A) == [h] + Walk(s, Kids(s[h]), A - {h})
  {
    assert [h][1..] == [];
  }

  lemma WalkLeaf(s: seq<Element>, h: Handle, A: set<Handle>)
    requires h < |s| && h in A && Kids(s[h]) == []
    ensures Walk(s, [h], A) == [h]
  {
    WalkOne(s, h, A);
  }

  lemma WalkParent(s: seq<Element>, h: Handle, A: set<Handle>)
    requires h + 1 < |s| && h in A && h + 1 in A && Kids(s[h]) == [h + 1]
    ensures Walk(s, [h], A) == [h] + ([h + 1] + Walk(s, Kids(s[h + 1]), A - {h} - {h + 1}))
  {
    var A1 := A - {h};
    var A2 := A1 - {h + 1};
    var w := Walk(s, Kids(s[h + 1]), A2);
    assert Walk(s, [h], A) == [h] + Walk(s, [h + 1], A1) by {
      WalkOne(s, h, A);
    }
    assert Walk(s, [h + 1], A1) == [h + 1] + w by {
      assert h + 1 in A1;
      WalkOne(s, h + 1, A1);
    }
  }

  lemma AvailDrop(A: set<Handle>, h: nat, hi: nat)
    requires Avail(A, h, hi)
    ensures Avail(A - {h} - {h + 1}, h + 2, hi)
  {
  }

  /** Walking a built subtree visits its handles in `Pre` order. */
  lemma {:induction false} WalkBuilt(d: Doc, h: Handle, n: TabTreeNode, A: set<Handle>)
    requires Built(d, h, n) && Avail(A, h, h + Span(n))
    ensures Walk(d.store, [h], A) == Pre(h, n)
    decreases n, 2
  {
    if n.children == [] {
      assert h in A && d.store[h].sub == None;
      WalkLeaf(d.store, h, A);
    } else {
      WalkBuiltParent(d, h, n, A);
    }
  }

  lemma {:induction false} WalkBuiltParent(d: Doc, h: Handle, n: TabTreeNode, A: set<Handle>)
    requires Built(d, h, n) && Avail(A, h, h + Span(n)) && n.children != []
    ensures Walk(d.store, [h], A) == Pre(h, n)
    decreases n, 1
  {
    var s := d.store;
    assert h in A && h + 1 in A;
    assert s[h].sub == Some(h + 1);
    WalkParent(s, h, A);
    AvailDrop(A, h, h + Span(n));
    var items := s[h + 1].items;
    WalkKids(d, items, n.children, h + 2, A - {h} - {h + 1});
  }

  lemma {:induction false} WalkKids(d: Doc, hs: seq<Handle>, kids: seq<TabTreeNode>, lo: nat, A: set<Handle>)
    requires BuiltKids(d, hs, kids, lo) && Avail(A, lo, lo + SpanAll(kids))
    ensures Walk(d.store, hs, A) == PreKids(lo, kids)
    decreases kids, 0
  {
    if kids != [] {
      var lo1 := lo + Span(kids[0]);
      assert hs[0] == lo && Built(d, lo, kids[0]) && BuiltKids(d, hs[1..], kids[1..], lo1);
      assert PreKids(lo, kids) == Pre(lo, kids[0]) + PreKids(lo1, kids[1..]);
      WalkCons(d.store, hs, A);
      assert Avail(A, lo, lo + Span(kids[0]));
      WalkBuilt(d, lo, kids[0], A);
      assert Avail(A, lo1, lo1 + SpanAll(kids[1..]));
      WalkKids(d, hs[1..], kids[1..], lo1, A);
    }
  }

  lemma RowKeysConcat(d: Doc, a: seq<Handle>, b: seq<Handle>)
    requires forall h :: h in a + b ==> IsItem(d, h)
    ensures RowKeys(d, a + b) == RowKeys(d, a) + RowKeys(d, b)
  {
  }

  /** The rows of a built subtree carry the ids of the subtree's nodes, in
      depth-first order. */
  lemma {:induction false} PreKeys(d: Doc, h: Handle, n: TabTreeNode)
    requires Built(d, h, n)
    ensures RowKeys(d, RowsIn(d, Pre(h, n))) == FlatIds([n])
    decreases n, 2
  {
    if n.children == [] {
      assert [n][1..] == [];
      assert FlatIds([n]) == [n.tab.id];
      assert RowsIn(d, Pre(h, n)) == [h];
    } else {
      PreKeysParent(d, h, n);
    }
  }

  lemma {:induction false} PreKeysParent(d: Doc, h: Handle, n: TabTreeNode)
    requires Built(d, h, n) && n.children != []
    ensures RowKeys(d, RowsIn(d, Pre(h, n))) == FlatIds([n])
    decreases n, 1
  {
    var rest := PreKids(h + 2, n.children);
    PreKidsKeys(d, d.store[h + 1].items, n.children, h + 2);
    var rows := RowsIn(d, rest);
    ParentRows(d, h, rest);
    RowKeysConcat(d, [h], rows);
    assert [n][1..] == [];
    assert FlatIds([n]) == [n.tab.id] + FlatIds(n.children);
  }

  /** The rows under an item and its child list. */
  lemma ParentRows(d: Doc, h: Handle, rest: seq<Handle>)
    requires IsItem(d, h) && h + 1 < |d.store| && d.store[h + 1].List?
    ensures RowsIn(d, [h] + ([h + 1] + rest)) == [h] + RowsIn(d, rest)
  {
    RowsInConcat(d, [h], [h + 1] + rest);
    RowsInConcat(d, [h + 1], rest);
    assert RowsIn(d, [h + 1]) == [];
    assert RowsIn(d, [h]) == [h];
  }

  lemma {:induction false} PreKidsKeys(d: Doc, hs: seq<Handle>, kids: seq<TabTreeNode>, lo: nat)
    requires BuiltKids(d, hs, kids, lo)
    ensures RowKeys(d, RowsIn(d, PreKids(lo, kids))) == FlatIds(kids)
    decreases kids, 0
  {
    if kids != [] {
      var a, b := Pre(lo, kids[0]), PreKids(lo + Span(kids[0]), kids[1..]);
      assert PreKids(lo, kids) == a + b;
      PreKeys(d, lo, kids[0]);
      PreKidsKeys(d, hs[1..], kids[1..], lo + Span(kids[0]));
      RowsInConcat(d, a, b);
      var ra, rb := RowsIn(d, a), RowsIn(d, b);
      RowKeysConcat(d, ra, rb);
      assert RowKeys(d, ra) == FlatIds([kids[0]]);
      assert RowKeys(d, rb) == FlatIds(kids[1..]);
      FlatIdsHead(kids);
    }
  }

  lemma FlatIdsHead(f: seq<TabTreeNode>)
    requires f != []
    ensures FlatIds(f) == FlatIds([f[0]]) + FlatIds(f[1..])
  {
    var single := [f[0]];
    assert single[1..] == [];
    assert FlatIds(single[1..]) == [];
    assert FlatIds(single) == [f[0].tab.id] + FlatIds(f[0].children);
  }

  /** Every row among `rows` is the one `idx` has for its tab id. */
  ghost predicate IndexesRows(d: Doc, idx: map<int, Handle>, rows: seq<Handle>) {
    forall r :: r in rows && IsItem(d, r) ==> KeyOf(d, r) in idx && idx[KeyOf(d, r)] == r
  }

  /** A built subtree whose rows the index leads to mirrors its node. */
  lemma {:induction false} BuiltMirror(d: Doc, idx: map<int, Handle>, h: Handle, n: TabTreeNode)
    requires Built(d, h, n) && IndexesRows(d, idx, Pre(h, n))
    ensures MirrorRow(d, idx, h, n)
    decreases n, 1
  {
    assert h in Pre(h, n);
    if n.children != [] {
      assert ChildList(d, h) == Some(h + 1);
      assert forall x :: x in PreKids(h + 2, n.children) ==> x in Pre(h, n);
      BuiltKidsMirror(d, idx, h + 1, n.children, h + 2);
    }
  }

  lemma {:induction false} BuiltKidsMirror(d: Doc, idx: map<int, Handle>, t: Handle, kids: seq<TabTreeNode>, lo: nat)
    requires IsList(d, t) && BuiltKids(d, Items(d, t), kids, lo) && IndexesRows(d, idx, PreKids(lo, kids))
    ensures Mirror(d, idx, t, kids)
    decreases kids, 0
  {
    forall k | 0 <= k < |kids| ensures MirrorRow(d, idx, Items(d, t)[k], kids[k]) {
      BuiltKidsAt(d, Items(d, t), kids, lo, k);
      BuiltMirror(d, idx, Items(d, t)[k], kids[k]);
    }
  }

  /** The container holds just the list `L`, whose items are subtrees built
      for `ks` right after it. */
  ghost predicate Laid(d: Doc, L: Handle, ks: seq<TabTreeNode>) {
    d.top == [L] && IsList(d, L) && BuiltKids(d, Items(d, L), ks, L + 1) && |d.store| == L + 1 + SpanAll(ks)
  }

  lemma LaidContents(d: Doc, L: Handle, ks: seq<TabTreeNode>)
    requires Laid(d, L, ks)
    ensures Contents(d) == [L] + PreKids(L + 1, ks)
  {
    TopList(d, L);
    LaidBelow(d, L, ks);
  }

  /** A container holding just one list walks that list's items next. */
  lemma TopList(d: Doc, L: Handle)
    requires d.top == [L] && IsList(d, L)
    ensures Contents(d) == [L] + Walk(d.store, Items(d, L), Handles(d) - {L})
  {
    assert L in Handles(d) && Kids(d.store[L]) == Items(d, L);
    WalkOne(d.store, L, Handles(d));
  }

  lemma LaidBelow(d: Doc, L: Handle, ks: seq<TabTreeNode>)
    requires Laid(d, L, ks)
    ensures Walk(d.store, Items(d, L), Handles(d) - {L}) == PreKids(L + 1, ks)
  {
    var B := Handles(d) - {L};
    assert Avail(B, L + 1, L + 1 + SpanAll(ks));
    WalkKids(d, Items(d, L), ks, L + 1, B);
  }

  /** With distinct keys, the index leads each id to its one row. */
  lemma IndexDistinct(d: Doc, rows: seq<Handle>)
    requires forall h :: h in rows ==> IsItem(d, h)
    requires NoDupInts(RowKeys(d, rows))
    ensures IndexesRows(d, IndexRows(d, rows), rows)
  {
    forall r | r in rows ensures KeyOf(d, r) in IndexRows(d, rows) && IndexRows(d, rows)[KeyOf(d, r)] == r {
      var i :| 0 <= i < |rows| && rows[i] == r;
      forall j | i < j < |rows| ensures KeyOf(d, rows[j]) != KeyOf(d, rows[i]) {
        assert RowKeys(d, rows)[j] != RowKeys(d, rows)[i];
      }
    }
  }

  /** The rows of a laid-out container are those of its subtrees. */
  lemma LaidRows(d: Doc, L: Handle, ks: seq<TabTreeNode>)
    requires Laid(d, L, ks)
    ensures RowsIn(d, Contents(d)) == RowsIn(d, PreKids(L + 1, ks))
  {
    LaidContents(d, L, ks);
    RowsInConcat(d, [L], PreKids(L + 1, ks));
    assert RowsIn(d, [L]) == [];
  }

  /** A laid-out container: its rows carry the ids of `ks` in depth-first
      order, and its index leads each id to the row built for it. */
  lemma LaidIndex(d: Doc, L: Handle, ks: seq<TabTreeNode>)
    requires Laid(d, L, ks) && NoDupInts(FlatIds(ks))
    ensures RowKeys(d, RowsIn(d, Contents(d))) == FlatIds(ks)
    ensures IndexesRows(d, RowIndex(d), PreKids(L + 1, ks))
  {
    var pre := PreKids(L + 1, ks);
    LaidRows(d, L, ks);
    var rows := RowsIn(d, Contents(d));
    PreKidsKeys(d, Items(d, L), ks, L + 1);
    IndexDistinct(d, rows);
    IndexesRowsSub(d, RowIndex(d), rows, pre);
  }

  lemma IndexesRowsSub(d: Doc, idx: map<int, Handle>, rows: seq<Handle>, hs: seq<Handle>)
    requires IndexesRows(d, idx, rows) && rows == RowsIn(d, hs)
    ensures IndexesRows(d, idx, hs)
  {
  }

  lemma {:induction false} FlatIdsConcat(a: seq<TabTreeNode>, b: seq<TabTreeNode>)
    ensures FlatIds(a + b) == FlatIds(a) + FlatIds(b)
  {
    if a == [] {
      assert a + b == b;
    } else {
      assert (a + b)[1..] == a[1..] + b;
      FlatIdsConcat(a[1..], b);
    }
  }

  lemma {:induction false} MultisetNoDup(xs: seq<int>)
    requires forall x :: multiset(xs)[x] <= 1
    ensures NoDupInts(xs)
  {
    if xs != [] {
      assert xs == [xs[0]] + xs[1..];
      assert forall x :: multiset(xs[1..])[x] <= multiset(xs)[x];
      MultisetNoDup(xs[1..]);
      assert multiset(xs[1..])[xs[0]] == 0;
      forall a, b | 0 <= a < b < |xs| ensures xs[a] != xs[b] {
        if a > 0 {
          assert xs[a] == xs[1..][a - 1] && xs[b] == xs[1..][b - 1];
        } else {
          assert xs[b] in xs[1..];
        }
      }
    }
  }

  /** Distinct ids in a forest are distinct ids in its depth-first order,
      and so in that of each prefix of its roots. */
  lemma DistinctPrefix(tree: seq<TabTreeNode>, k: nat)
    requires DistinctIds(tree) && k <= |tree|
    ensures NoDupInts(FlatIds(tree[..k]))
  {
    forall x ensures multiset(FlatIds(tree))[x] <= 1 {
      FlatIdsCount(tree, x);
    }
    MultisetNoDup(FlatIds(tree));
    assert tree == tree[..k] + tree[k..];
    FlatIdsConcat(tree[..k], tree[k..]);
    var p := FlatIds(tree[..k]);
    assert forall a :: 0 <= a < |p| ==> p[a] == FlatIds(tree)[a];
  }

  /** Inserting the root of a subtree built above `L` into the list `L`
      cannot fail: `L` is not inside that subtree. */
  lemma InsertBuiltOk(d: Doc, L: Handle, h: Handle, n: TabTreeNode, ref: Option<Handle>)
    requires IsList(d, L) && L < h && Built(d, h, n) && (ref.Some? ==> ref.value in Items(d, L))
    ensures InsertBefore(d, L, h, ref).Ok?
  {
    WalkBuilt(d, h, n, Handles(d));
    PreRange(h, n);
  }

  /** The lists of a laid-out container's subtrees and of a subtree built
      after them do not hold the new subtree's root. */
  lemma AppendKeepsLists(d: Doc, d1: Doc, d2: Doc, L: Handle, ks: seq<TabTreeNode>, n: TabTreeNode)
    requires Laid(d, L, ks)
    requires var h := |d.store|; |d1.store| == h + Span(n) && Built(d1, h, n) && d1.store[..h] == d.store
    requires |d2.store| == |d1.store|
    requires forall k :: 0 <= k < |d1.store| && k != L ==>
               d2.store[k] == (if d1.store[k].List? then List(Without(d1.store[k].items, |d.store|)) else d1.store[k])
    ensures Agree(d, d2, L + 1, |d.store|) && Agree(d1, d2, |d.store|, |d1.store|)
  {
    var h := |d.store|;
    forall x | L + 1 <= x < h ensures d2.store[x] == d.store[x] {
      assert d1.store[..h][x] == d.store[x];
      if d.store[x].List? {
        BuiltKidsInside(d, Items(d, L), ks, L + 1, x);
      }
    }
    forall x | h <= x < |d1.store| ensures d2.store[x] == d1.store[x] {
      if d1.store[x].List? {
        BuiltInside(d1, h, n, x);
      }
    }
  }

  /** Appending a subtree just built after a laid-out container's last
      subtree to its list lays the container out for one more root. */
  lemma AppendBuiltRoot(d: Doc, d1: Doc, L: Handle, ks: seq<TabTreeNode>, n: TabTreeNode) returns (d2: Doc)
    requires Laid(d, L, ks)
    requires var h := |d.store|; |d1.store| == h + Span(n) && Built(d1, h, n)
    requires d1.top == [L] && d1.store[..|d.store|] == d.store
    ensures IsList(d1, L) && Items(d1, L) == Items(d, L)
    ensures InsertBefore(d1, L, |d.store|, None) == Ok(d2) && Laid(d2, L, ks + [n])
  {
    var h := |d.store|;
    assert d1.store[L] == d.store[L] by {
      assert d1.store[..h][L] == d.store[L];
    }
    BuiltKidsHeads(d, Items(d, L), ks, L + 1);
    InsertBuiltOk(d1, L, h, n, None);
    d2 := AppendRoot(d1, L, h);
    AppendedLaid(d, d1, d2, L, ks, n);
  }

  /** The document after appending, described by what the insertion
      guarantees, is laid out for one more root. */
  lemma AppendedLaid(d: Doc, d1: Doc, d2: Doc, L: Handle, ks: seq<TabTreeNode>, n: TabTreeNode)
    requires Laid(d, L, ks)
    requires var h := |d.store|; |d1.store| == h + Span(n) && Built(d1, h, n) && d1.store[..h] == d.store
    requires d2.top == [L] && IsList(d2, L) && Items(d2, L) == Items(d, L) + [|d.store|]
    requires |d2.store| == |d1.store|
    requires forall k :: 0 <= k < |d1.store| && k != L ==>
               d2.store[k] == (if d1.store[k].List? then List(Without(d1.store[k].items, |d.store|)) else d1.store[k])
    ensures Laid(d2, L, ks + [n])
  {
    var h := |d.store|;
    AppendKeepsLists(d, d1, d2, L, ks, n);
    BuiltKidsFrame(d, d2, Items(d, L), ks, L + 1);
    BuiltFrame(d1, d2, h, n);
    LaidSnoc(d, d2, L, ks, n);
  }

  /** Appending to the container's one list: the list gains the element
      last, and every other list loses it. */
  lemma AppendRoot(d: Doc, L: Handle, h: Handle) returns (d2: Doc)
    requires IsList(d, L) && d.top == [L] && L < h < |d.store| && h !in Items(d, L)
    requires InsertBefore(d, L, h, None).Ok?
    ensures InsertBefore(d, L, h, None) == Ok(d2)
    ensures d2.top == [L] && IsList(d2, L) && Items(d2, L) == Items(d, L) + [h] && |d2.store| == |d.store|
    ensures forall k :: 0 <= k < |d.store| && k != L ==>
              d2.store[k] == (if d.store[k].List? then List(Without(d.store[k].items, h)) else d.store[k])
  {
    d2 := InsertBefore(d, L, h, None).value;
    AppendItems(d, L, h);
    assert Without([L], h) == [L];
  }

  /** Appending an element that is not yet in a list puts it last. */
  lemma AppendItems(d: Doc, L: Handle, h: Handle)
    requires IsList(d, L) && h < |d.store| && h !in Items(d, L)
    requires InsertBefore(d, L, h, None).Ok?
    ensures Items(InsertBefore(d, L, h, None).value, L) == Items(d, L) + [h]
  {
    var xs := Items(d, L);
    InsertAt(d, L, h, None);
    assert None != Some(h);
    assert Without(xs, h) == xs;
    assert SlotOf(xs, None) == |xs|;
    assert xs[..|xs|] == xs && xs[|xs|..] == [];
  }

  lemma LaidSnoc(d: Doc, d2: Doc, L: Handle, ks: seq<TabTreeNode>, n: TabTreeNode)
    requires Laid(d, L, ks)
    requires d2.top == [L] && IsList(d2, L) && Items(d2, L) == Items(d, L) + [|d.store|]
    requires |d2.store| == |d.store| + Span(n)
    requires BuiltKids(d2, Items(d, L), ks, L + 1) && Built(d2, |d.store|, n)
    ensures Laid(d2, L, ks + [n])
  {
    BuiltKidsSnoc(d2, Items(d, L), ks, L + 1, n);
    SpanAllSnoc(ks, n);
  }

  /** Placing the `i`-th root of the forest in a container laid out for the
      roots before it creates its subtree right after them and appends it. */
  lemma FreshPlace(d: Doc, L: Handle, idx: map<int, Handle>, tree: seq<TabTreeNode>, i: nat) returns (d2: Doc, h: Handle)
    requires i < |tree| && Laid(d, L, tree[..i]) && forall x :: x !in idx
    ensures IndexOK(d, idx) && Place(d, L, idx, tree[i], i) == Ok((d2, h))
    ensures Laid(d2, L, tree[..i + 1]) && h == L + 1 + SpanAll(tree[..i])
  {
    var n := tree[i];
    d2, h := FreshAppends(d, L, tree[..i], n, i);
    assert Place(d, L, idx, n, i) == Fresh(d, L, n, i);
    TakeSnoc(tree, i);
  }

  lemma TakeSnoc(tree: seq<TabTreeNode>, i: nat)
    requires i < |tree|
    ensures tree[..i + 1] == tree[..i] + [tree[i]]
  {
  }

  /** `Fresh` at the end of a laid-out container appends the new subtree. */
  lemma FreshAppends(d: Doc, L: Handle, ks: seq<TabTreeNode>, n: TabTreeNode, i: nat) returns (d2: Doc, h: Handle)
    requires Laid(d, L, ks) && i == |ks|
    ensures Fresh(d, L, n, i) == Ok((d2, h)) && Laid(d2, L, ks + [n]) && h == L + 1 + SpanAll(ks)
  {
    var r1 := CreateNode(d, n);
    var d1 := r1.0;
    h := r1.1;
    CreateBuilt(d, n);
    d2 := AppendBuiltRoot(d, d1, L, ks, n);
    assert SlotAt(d1, L, i) == None;
  }

  /** The child list of a subtree just built for a root needs no work: it
      already mirrors the root's children. */
  lemma FreshChildLists(d: Doc, L: Handle, tree: seq<TabTreeNode>, i: nat, prev: seq<TabTreeNode>)
    requires i < |tree| && Laid(d, L, tree[..i + 1]) && DistinctIds(tree)
    ensures IsItem(d, L + 1 + SpanAll(tree[..i]))
    ensures ChildLists(d, L + 1 + SpanAll(tree[..i]), prev, tree[i]) == Ok(d)
  {
    var h := LaidRootAt(d, L, tree, i);
    BuiltChildLists(d, h, tree[i], prev);
  }

  /** Where the subtree of the `i`-th root lies in a laid-out container, and
      that the container's index leads to each of its rows. */
  lemma LaidRootAt(d: Doc, L: Handle, tree: seq<TabTreeNode>, i: nat) returns (h: Handle)
    requires i < |tree| && Laid(d, L, tree[..i + 1]) && DistinctIds(tree)
    ensures h == L + 1 + SpanAll(tree[..i]) && Built(d, h, tree[i])
    ensures IndexesRows(d, RowIndex(d), Pre(h, tree[i]))
  {
    var ks := tree[..i + 1];
    BuiltKidsAt(d, Items(d, L), ks, L + 1, i);
    TakeTake(tree, i);
    h := Items(d, L)[i];
    LaidIndexWithin(d, L, tree, i + 1, Pre(h, tree[i]));
  }

  lemma TakeTake(tree: seq<TabTreeNode>, i: nat)
    requires i < |tree|
    ensures tree[..i + 1][..i] == tree[..i] && tree[..i + 1][i] == tree[i]
  {
  }

  /** The index of a container laid out for a prefix of a forest with
      distinct ids leads to every row among the prefix's subtrees. */
  lemma LaidIndexWithin(d: Doc, L: Handle, tree: seq<TabTreeNode>, k: nat, hs: seq<Handle>)
    requires k <= |tree| && Laid(d, L, tree[..k]) && DistinctIds(tree)
    requires forall x :: x in hs ==> x in PreKids(L + 1, tree[..k])
    ensures IndexesRows(d, RowIndex(d), hs)
  {
    DistinctPrefix(tree, k);
    LaidIndex(d, L, tree[..k]);
    IndexesRowsWithin(d, RowIndex(d), PreKids(L + 1, tree[..k]), hs);
  }

  lemma IndexesRowsWithin(d: Doc, idx: map<int, Handle>, big: seq<Handle>, small: seq<Handle>)
    requires IndexesRows(d, idx, big) && forall x :: x in small ==> x in big
    ensures IndexesRows(d, idx, small)
  {
  }

  /** A built subtree whose rows the index leads to needs no work on its
      child list. */
  lemma BuiltChildLists(d: Doc, h: Handle, n: TabTreeNode, prev: seq<TabTreeNode>)
    requires Built(d, h, n) && IndexesRows(d, RowIndex(d), Pre(h, n))
    ensures IsItem(d, h) && ChildLists(d, h, prev, n) == Ok(d)
  {
    BuiltMirror(d, RowIndex(d), h, n);
    ChildListsMirror(d, h, prev, n);
  }

  lemma {:induction false} FreshSteps(d: Doc, L: Handle, idx: map<int, Handle>, prev: seq<TabTreeNode>, tree: seq<TabTreeNode>, i: nat)
    requires i <= |tree| && Laid(d, L, tree[..i]) && DistinctIds(tree) && forall x :: x !in idx
    ensures IndexOK(d, idx) && Steps(d, L, idx, prev, tree, i).Ok?
    ensures Laid(Steps(d, L, idx, prev, tree, i).value, L, tree)
    decreases |tree| - i
  {
    if i == |tree| {
      assert tree[..i] == tree;
    } else {
      var d2, h := FreshPlace(d, L, idx, tree, i);
      FreshChildLists(d2, L, tree, i, prev);
      assert Step(d, L, idx, prev, tree[i], i) == Ok(d2);
      FreshSteps(d2, L, idx, prev, tree, i + 1);
    }
  }

  /** Rendering a non-empty forest with distinct ids into a container that
      holds no list: the container ends up holding one new list, whose rows
      mirror the forest, one row per tab and in depth-first order. */
  lemma RenderFresh(p: Panel, tree: seq<TabTreeNode>) returns (L: Handle)
    requires tree != [] && DistinctIds(tree) && FirstList(p.doc, Contents(p.doc)).None?
    ensures Render(p, tree).Ok?
    ensures var q := Render(p, tree).value;
      q.lastTree == Some(tree) && q.doc.top == [L] && Mirror(q.doc, RowIndex(q.doc), L, tree)
      && RowKeys(q.doc, RowsIn(q.doc, Contents(q.doc))) == FlatIds(tree)
  {
    var g := GetOrCreateList(p.doc);
    var d1 := g.0;
    L := g.1;
    var prev := if p.lastTree.Some? then p.lastTree.value else [];
    assert tree[..0] == [];
    assert Laid(d1, L, []);
    LaidContents(d1, L, []);
    assert Contents(d1) == [L];
    var idx := RowIndex(d1);
    assert RowsIn(d1, Contents(d1)) == [];
    assert forall x :: x !in idx;
    FreshSteps(d1, L, idx, prev, tree, 0);
    var d2 := Steps(d1, L, idx, prev, tree, 0).value;
    assert RowsIn(d1, Items(d1, L)) == [];
    assert Reconcile(d1, L, prev, tree) == Ok(d2);
    DistinctPrefix(tree, |tree|);
    assert tree[..|tree|] == tree;
    LaidIndex(d2, L, tree);
    BuiltKidsMirror(d2, RowIndex(d2), L, tree, L + 1);
  }

  /** Rendering a forest the panel already mirrors changes nothing. */
  lemma RenderStable(p: Panel, tree: seq<TabTreeNode>, L: Handle)
    requires tree != [] && FirstList(p.doc, Contents(p.doc)) == Some(L) && Mirror(p.doc, RowIndex(p.doc), L, tree)
    ensures Render(p, tree) == Ok(Panel(p.doc, Some(tree)))
  {
    var prev := if p.lastTree.Some? then p.lastTree.value else [];
    ReconcileMirror(p.doc, L, prev, tree);
  }

  /** Rendering the same forest twice leaves the panel as the first render
      left it: same elements, same log. */
  lemma RenderTwice(p: Panel, tree: seq<TabTreeNode>)
    requires tree != [] && DistinctIds(tree) && FirstList(p.doc, Contents(p.doc)).None?
    ensures Render(p, tree).Ok? && Render(Render(p, tree).value, tree) == Render(p, tree)
  {
    var L := RenderFresh(p, tree);
    var q := Render(p, tree).value;
    assert Contents(q.doc)[0] == L;
    assert FirstList(q.doc, Contents(q.doc)) == Some(L);
    RenderStable(q, tree, L);
  }
}
