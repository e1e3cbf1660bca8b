/** The shape of every document the panel holds: a tree, as a browser's
    DOM always is. Each element has at most one parent, lists hold items, an
    item's child is a list, the container holds lists and the placeholder,
    and no list holds an element twice. Every mutation the renderer makes
    keeps this shape, and `insertBefore` cannot throw on a list whose
    ancestors the inserted item is not among. */
module DocShape {
  import opened Tabs
  import opened Dom
  import opened Renderer
  import opened RenderFacts

  /** `p` is the parent of `x`: `x` is a child of the list `p`, or the child
      list of the item `p`. */
  predicate Holds(d: Doc, p: Handle, x: Handle) {
    p < |d.store| && x in Kids(d.store[p])
  }

  /** No element is the parent of `x`. */
  ghost predicate Unheld(d: Doc, x: Handle) {
    forall p: Handle :: !Holds(d, p, x)
  }

  ghost predicate Tree(d: Doc) {
    (forall x :: x in d.top ==> x < |d.store| && !d.store[x].Item?)
    && (forall p: Handle, x: Handle :: Holds(d, p, x) ==> x < |d.store| && x !in d.top)
    && (forall p: Handle, q: Handle, x: Handle :: Holds(d, p, x) && Holds(d, q, x) ==> p == q)
    && (forall p: Handle, x: Handle :: Holds(d, p, x) && d.store[p].List? ==> IsItem(d, x))
    && (forall p: Handle, x: Handle :: Holds(d, p, x) && d.store[p].Item? ==> IsList(d, x))
    && (forall p: Handle :: IsList(d, p) ==> Distinct(Items(d, p)))
  }

  /** `r` is `d` with elements appended that hold only appended elements. */
  ghost predicate Grown(d: Doc, r: Doc) {
    |d.store| <= |r.store| && r.store[..|d.store|] == d.store && r.top == d.top
    && forall p: Handle, x: Handle :: |d.store| <= p && Holds(r, p, x) ==> |d.store| <= x
  }

  lemma PrefixHolds(d: Doc, r: Doc)
    requires |d.store| <= |r.store| && r.store[..|d.store|] == d.store
    ensures forall p: Handle :: 0 <= p < |d.store| ==> r.store[p] == d.store[p]
    ensures forall p: Handle, x: Handle :: p < |d.store| ==> (Holds(r, p, x) <==> Holds(d, p, x))
  {
    forall p: Handle | 0 <= p < |d.store| ensures r.store[p] == d.store[p] {
      assert r.store[..|d.store|][p] == d.store[p];
    }
  }

  lemma {:induction false} DistinctWithout(xs: seq<Handle>, h: Handle)
    requires Distinct(xs)
    ensures Distinct(Without(xs, h))
  {
    if xs != [] {
      DistinctWithout(xs[1..], h);
      assert xs[0] !in xs[1..] by {
        forall j | 0 <= j < |xs[1..]| ensures xs[1..][j] != xs[0] { assert xs[1..][j] == xs[j + 1]; }
      }
      var w := Without(xs[1..], h);
      assert Without(xs, h) == (if xs[0] == h then [] else [xs[0]]) + w;
    }
  }

  lemma DistinctCons(ys: seq<Handle>)
    requires ys != [] && ys[0] !in ys[1..] && Distinct(ys[1..])
    ensures Distinct(ys)
  {
    forall a, b | 0 <= a < b < |ys| ensures ys[a] != ys[b] {
      assert ys[b] == ys[1..][b - 1];
      if a > 0 {
        assert ys[a] == ys[1..][a - 1];
      }
    }
  }


  lemma CountHead(ys: seq<Handle>, h: Handle)
    requires ys != []
    ensures Count(ys, h) == (if ys[0] == h then 1 else 0) + Count(ys[1..], h)
    ensures h in ys[1..] ==> Count(ys[1..], h) > 0
  {
    assert ys == [ys[0]] + ys[1..];
    assert multiset(ys) == multiset{ys[0]} + multiset(ys[1..]);
  }

  lemma WithoutHead(ys: seq<Handle>, h: Handle)
    requires ys != []
    ensures Without(ys, h) == (if ys[0] == h then [] else [ys[0]]) + Without(ys[1..], h)
  {
  }

  lemma DistinctTail(x: Handle, xs: seq<Handle>)
    requires Distinct([x] + xs)
    ensures Distinct(xs) && x !in xs
  {
    var ys := [x] + xs;
    forall a, b | 0 <= a < b < |xs| ensures xs[a] != xs[b] {
      assert xs[a] == ys[a + 1] && xs[b] == ys[b + 1];
    }
    forall j | 0 <= j < |xs| ensures xs[j] != x {
      assert xs[j] == ys[j + 1] && x == ys[0];
    }
  }

  /** A list without repeats once `h` is taken out, and holding `h` once,
      has no repeats. */
  lemma {:induction false} DistinctBack(ys: seq<Handle>, h: Handle)
    requires Distinct(Without(ys, h)) && Count(ys, h) <= 1
    ensures Distinct(ys)
    decreases ys, 1
  {
    if ys != [] {
      if ys[0] == h {
        DistinctBackAt(ys, h);
      } else {
        DistinctBackPast(ys, h);
      }
    }
  }

  /** `DistinctBack` when the list starts with `h`. */
  lemma DistinctBackAt(ys: seq<Handle>, h: Handle)
    requires ys != [] && ys[0] == h && Distinct(Without(ys, h)) && Count(ys, h) <= 1
    ensures Distinct(ys)
  {
    CountHead(ys, h);
    WithoutHead(ys, h);
    assert h !in ys[1..];
    assert Without(ys, h) == Without(ys[1..], h) == ys[1..];
    DistinctCons(ys);
  }

  /** `DistinctBack` when the list starts with something else. */
  lemma {:induction false} DistinctBackPast(ys: seq<Handle>, h: Handle)
    requires ys != [] && ys[0] != h && Distinct(Without(ys, h)) && Count(ys, h) <= 1
    ensures Distinct(ys)
    decreases ys, 0
  {
    var x, w := ys[0], Without(ys[1..], h);
    CountHead(ys, h);
    WithoutHead(ys, h);
    assert Without(ys, h) == [x] + w;
    DistinctTail(x, w);
    DistinctBack(ys[1..], h);
    DistinctCons(ys);
  }

  /** Writing a row's content changes no parent. */
  lemma UpdateTree(d: Doc, li: Handle, n: TabTreeNode)
    requires Tree(d) && IsItem(d, li)
    ensures var r := UpdateContent(d, li, n);
      Tree(r) && forall p: Handle, x: Handle :: Holds(r, p, x) <==> Holds(d, p, x)
  {
    var r := UpdateContent(d, li, n);
    forall p: Handle, x: Handle ensures Holds(r, p, x) <==> Holds(d, p, x) {
      if p < |d.store| {
        assert Kids(r.store[p]) == Kids(d.store[p]);
      }
    }
    assert forall k: Handle :: 0 <= k < |d.store| ==> SameKind(r.store[k], d.store[k]);
    assert forall p: Handle :: IsList(r, p) ==> IsList(d, p) && Items(r, p) == Items(d, p);
  }

  /** A successful `insertBefore` of an item moves that one item: it loses
      its old parent and gains `t`. */
  lemma InsertTree(d: Doc, t: Handle, li: Handle, ref: Option<Handle>)
    requires Tree(d) && IsList(d, t) && IsItem(d, li) && InsertBefore(d, t, li, ref).Ok?
    ensures var r := InsertBefore(d, t, li, ref).value;
      && Tree(r) && r.top == d.top && |r.store| == |d.store|
      && (forall k :: 0 <= k < |d.store| && !d.store[k].List? ==> r.store[k] == d.store[k])
      && Moved(d, r, t, li)
  {
    var r := InsertBefore(d, t, li, ref).value;
    assert li !in d.top;
    InsertedShape(d, r, t, li);
  }


  /** The links of `r` are those of `d` with the item `li` moved under the
      list `t`. */
  ghost predicate Moved(d: Doc, r: Doc, t: Handle, li: Handle) {
    forall p: Handle, x: Handle :: Holds(r, p, x) <==> (Holds(d, p, x) && x != li) || (p == t && x == li)
  }

  /** What `insertBefore` promises about the document it returns, when it
      moves the item `li` into the list `t`, makes the new document a tree
      whose links are the old ones with `li` hanging from `t`. */
  lemma InsertedShape(d: Doc, r: Doc, t: Handle, li: Handle)
    requires Tree(d) && IsList(d, t) && IsItem(d, li) && |r.store| == |d.store| && r.top == d.top
    requires IsList(r, t) && Without(Items(r, t), li) == Without(Items(d, t), li) && Count(Items(r, t), li) == 1
    requires forall k :: 0 <= k < |d.store| && k != t ==>
               r.store[k] == (if d.store[k].List? then List(Without(d.store[k].items, li)) else d.store[k])
    ensures Tree(r) && Moved(d, r, t, li)
  {
    var xs, ys := Items(d, t), Items(r, t);
    assert forall x :: x in ys <==> (x in xs && x != li) || x == li by {
      forall x ensures x in ys <==> (x in xs && x != li) || x == li {
        assert x in Without(ys, li) <==> x in Without(xs, li);
      }
    }
    forall p: Handle | IsList(r, p) ensures Distinct(Items(r, p)) {
      DistinctWithout(Items(d, p), li);
      if p == t {
        DistinctBack(ys, li);
      }
    }
    HoldsAfterInsert(d, r, t, li);
  }


  lemma HoldsAfterInsert(d: Doc, r: Doc, t: Handle, li: Handle)
    requires Tree(d) && IsList(d, t) && IsItem(d, li) && r.top == d.top && |r.store| == |d.store|
    requires IsList(r, t) && forall x :: x in Items(r, t) <==> (x in Items(d, t) && x != li) || x == li
    requires forall k :: 0 <= k < |d.store| && k != t ==>
               r.store[k] == (if d.store[k].List? then List(Without(d.store[k].items, li)) else d.store[k])
    ensures forall p: Handle, x: Handle :: Holds(r, p, x) <==> (Holds(d, p, x) && x != li) || (p == t && x == li)
    ensures Tree(r) <== forall p: Handle :: IsList(r, p) ==> Distinct(Items(r, p))
  {
    forall p: Handle, x: Handle ensures Holds(r, p, x) <==> (Holds(d, p, x) && x != li) || (p == t && x == li) {
      if p < |d.store| && p != t && d.store[p].Item? {
        assert Holds(d, p, li) ==> false;
      }
    }
    if forall p: Handle :: IsList(r, p) ==> Distinct(Items(r, p)) {
      assert forall k :: 0 <= k < |d.store| ==> SameKind(d.store[k], r.store[k]);
      TreeRelinked(d, r, t, li);
    }
  }

  /** A step that keeps every element's kind and the container, and at most
      adds the one link from the list `t` to the item `li`, which then has no
      other parent, keeps the tree when no list repeats an element. */
  lemma TreeRelinked(d: Doc, r: Doc, t: Handle, li: Handle)
    requires Tree(d) && |r.store| == |d.store| && r.top == d.top
    requires forall k :: 0 <= k < |d.store| ==> SameKind(d.store[k], r.store[k])
    requires forall p: Handle, x: Handle :: Holds(r, p, x) ==> Holds(d, p, x) || (p == t && x == li)
    requires forall p: Handle :: Holds(r, p, li) ==> p == t
    requires Holds(r, t, li) ==> IsList(d, t) && IsItem(d, li)
    requires forall p: Handle :: IsList(r, p) ==> Distinct(Items(r, p))
    ensures Tree(r)
  {
    forall p: Handle, x: Handle | Holds(r, p, x) ensures x < |r.store| && x !in r.top {
      if !Holds(d, p, x) {
        assert !d.store[li].List? && !d.store[li].Note?;
      }
    }
    forall p: Handle, x: Handle | Holds(r, p, x) && r.store[p].List? ensures IsItem(r, x) {
      assert SameKind(d.store[p], r.store[p]);
      if Holds(d, p, x) {
        assert SameKind(d.store[x], r.store[x]);
      }
    }
    forall p: Handle, x: Handle | Holds(r, p, x) && r.store[p].Item? ensures IsList(r, x) {
      assert SameKind(d.store[p], r.store[p]);
      assert SameKind(d.store[x], r.store[x]);
    }
  }

  /** Removing an item takes away its one parent link. */
  lemma RemoveTree(d: Doc, h: Handle)
    requires Tree(d) && IsItem(d, h)
    ensures var r := Remove(d, h);
      Tree(r) && r.top == d.top && forall p: Handle, x: Handle :: Holds(r, p, x) <==> Holds(d, p, x) && x != h
  {
    var r := Remove(d, h);
    assert h !in d.top;
    forall p: Handle, x: Handle ensures Holds(r, p, x) <==> Holds(d, p, x) && x != h {
      if p < |d.store| && d.store[p].Item? {
        assert Holds(d, p, h) ==> false;
      }
    }
    forall p: Handle | IsList(r, p) ensures Distinct(Items(r, p)) {
      DistinctWithout(Items(d, p), h);
    }
    assert forall k :: 0 <= k < |d.store| ==> SameKind(d.store[k], r.store[k]);
    TreeRelinked(d, r, h, h);
  }

  /** Removing items one after the other keeps the tree. */
  lemma {:induction false} RemoveAllTree(d: Doc, hs: seq<Handle>)
    requires Tree(d) && forall h :: h in hs ==> IsItem(d, h)
    ensures Tree(RemoveAll(d, hs)) && RemoveAll(d, hs).top == d.top
    decreases hs
  {
    if hs != [] {
      RemoveTree(d, hs[0]);
      var d1 := Remove(d, hs[0]);
      assert forall h :: h in hs[1..] ==> IsItem(d1, h) by {
        forall h | h in hs[1..] ensures IsItem(d1, h) {
          assert h in hs && SameKind(d.store[h], d1.store[h]);
        }
      }
      RemoveAllTree(d1, hs[1..]);
    }
  }

  /** A new element with no children has no parent and holds nothing. */
  lemma AllocTree(d: Doc, e: Element)
    requires Tree(d) && Kids(e) == []
    ensures var r := Alloc(d, e).0;
      Tree(r) && Unheld(r, |d.store|) && Grown(d, r)
      && forall p: Handle, x: Handle :: Holds(r, p, x) <==> Holds(d, p, x)
  {
    var r := Alloc(d, e).0;
    PrefixHolds(d, r);
    assert forall x: Handle :: !Holds(r, |d.store|, x);
    forall p: Handle | IsList(r, p) ensures Distinct(Items(r, p)) {
      if p == |d.store| {
        assert Items(r, p) == Kids(e) == [];
      } else {
        assert r.store[p] == d.store[p] && IsList(d, p);
        assert Distinct(Items(d, p));
      }
    }
  }

  /** Appending an item with no parent to a list gives it that parent. */
  lemma AppendFreshTree(d: Doc, ul: Handle, h: Handle)
    requires Tree(d) && IsList(d, ul) && IsItem(d, h) && Unheld(d, h)
    ensures var r := AppendFresh(d, ul, h);
      Tree(r) && forall p: Handle, x: Handle :: Holds(r, p, x) <==> Holds(d, p, x) || (p == ul && x == h)
  {
    var r := AppendFresh(d, ul, h);
    assert h !in Items(d, ul) by {
      assert !Holds(d, ul, h);
    }
    assert h !in d.top;
    assert Distinct(Items(r, ul)) by {
      var xs := Items(d, ul);
      forall a, b | 0 <= a < b < |xs| + 1 ensures Items(r, ul)[a] != Items(r, ul)[b] {
        if b == |xs| {
          assert Items(r, ul)[a] == xs[a];
        } else {
          assert Items(r, ul)[a] == xs[a] && Items(r, ul)[b] == xs[b];
        }
      }
    }
    forall p: Handle, x: Handle ensures Holds(r, p, x) <==> Holds(d, p, x) || (p == ul && x == h) {
      if p == ul {
        assert Kids(r.store[ul]) == Items(d, ul) + [h];
      }
    }
    forall p: Handle | IsList(r, p) && p != ul ensures Distinct(Items(r, p)) {
      assert r.store[p] == d.store[p] && IsList(d, p);
      assert Distinct(Items(d, p));
    }
  }

  /** Attaching a list with no parent to an item with no child list. */
  lemma AttachTree(d: Doc, li: Handle, ul: Handle)
    requires Tree(d) && IsItem(d, li) && d.store[li].sub.None? && IsList(d, ul) && Unheld(d, ul) && ul !in d.top
    ensures var r := AttachChildList(d, li, ul);
      Tree(r) && forall p: Handle, x: Handle :: Holds(r, p, x) <==> Holds(d, p, x) || (p == li && x == ul)
  {
    var r := AttachChildList(d, li, ul);
    forall p: Handle, x: Handle ensures Holds(r, p, x) <==> Holds(d, p, x) || (p == li && x == ul) {
      if p == li {
        assert Kids(r.store[li]) == [ul] && Kids(d.store[li]) == [];
      }
    }
    assert forall p: Handle :: IsList(r, p) ==> Items(r, p) == Items(d, p);
  }

  /** Detaching an item's child list takes away that one link. */
  lemma DropTree(d: Doc, li: Handle, ul: Handle)
    requires Tree(d) && IsItem(d, li)
    ensures var r := DropChildList(d, li, ul);
      Tree(r) && forall p: Handle, x: Handle :: Holds(r, p, x) <==> Holds(d, p, x) && p != li
  {
    var r := DropChildList(d, li, ul);
    forall p: Handle, x: Handle ensures Holds(r, p, x) <==> Holds(d, p, x) && p != li {
      if p == li {
        assert Kids(r.store[li]) == [];
      }
    }
    assert forall p: Handle :: IsList(r, p) ==> Items(r, p) == Items(d, p);
  }

  /** `createNode` keeps the tree and returns an item with no parent; the
      new elements hold only new elements. */
  lemma {:induction false} CreateTree(d: Doc, n: TabTreeNode)
    requires Tree(d)
    ensures var (r, h) := CreateNode(d, n); Tree(r) && Unheld(r, h) && Grown(d, r)
    decreases n, 1
  {
    var (d1, li) := Alloc(d, Item(n.tab.id, n.depth, Some(NewRow(n.tab)), None));
    AllocTree(d, Item(n.tab.id, n.depth, Some(NewRow(n.tab)), None));
    if n.children != [] {
      ChildListTree(d1, n.children);
      var (d2, ul) := BuildChildList(d1, n.children);
      PrefixHolds(d1, d2);
      assert Unheld(d2, li) by {
        forall p: Handle ensures !Holds(d2, p, li) {
          if p < |d1.store| {
            assert !Holds(d1, p, li);
          }
        }
      }
      AttachTree(d2, li, ul);
      var r := AttachChildList(d2, li, ul);
      assert CreateNode(d, n) == (r, li);
      assert r.store[..|d.store|] == d.store by {
        assert r.store[..|d.store|] == d2.store[..|d1.store|][..|d.store|];
      }
      assert Grown(d, r) by {
        forall p: Handle, x: Handle | |d.store| <= p && Holds(r, p, x) ensures |d.store| <= x {
          if p != li {
            assert Holds(d2, p, x);
          }
        }
      }
    }
  }

  lemma {:induction false} ChildListTree(d: Doc, kids: seq<TabTreeNode>)
    requires Tree(d)
    ensures var (r, ul) := BuildChildList(d, kids); Tree(r) && Unheld(r, ul) && ul !in r.top && Grown(d, r)
    decreases kids, 1
  {
    var (d1, ul) := Alloc(d, List([]));
    AllocTree(d, List([]));
    assert forall p: Handle, x: Handle :: ul <= p && Holds(d1, p, x) ==> ul <= x;
    AppendTree(d1, ul, kids, 0, ul);
  }

  lemma {:induction false} AppendTree(d: Doc, ul: Handle, kids: seq<TabTreeNode>, i: nat, lo: nat)
    requires IsList(d, ul) && i <= |kids| && |Items(d, ul)| == i
    requires Tree(d) && Unheld(d, ul) && ul !in d.top && lo <= ul
    requires forall p: Handle, x: Handle :: lo <= p && Holds(d, p, x) ==> lo <= x
    ensures var r := AppendNodes(d, ul, kids, i);
      Tree(r) && Unheld(r, ul) && ul !in r.top && forall p: Handle, x: Handle :: lo <= p && Holds(r, p, x) ==> lo <= x
    decreases kids, 0, |kids| - i
  {
    if i < |kids| {
      var (d1, h) := CreateNode(d, kids[i]);
      CreateTree(d, kids[i]);
      PrefixHolds(d, d1);
      assert Unheld(d1, ul) by {
        forall p: Handle ensures !Holds(d1, p, ul) {
          if p < |d.store| {
            assert !Holds(d, p, ul);
          }
        }
      }
      assert forall p: Handle, x: Handle :: lo <= p && Holds(d1, p, x) ==> lo <= x by {
        forall p: Handle, x: Handle | lo <= p && Holds(d1, p, x) ensures lo <= x {
          if p < |d.store| {
            assert Holds(d, p, x);
          }
        }
      }
      assert IsList(d1, ul) && Items(d1, ul) == Items(d, ul);
      AppendFreshTree(d1, ul, h);
      var d2 := AppendFresh(d1, ul, h);
      AppendTree(d2, ul, kids, i + 1, lo);
    }
  }

  /** `sp` climbs from `sp[0]` to the container: each element is a child of
      the next one, the last is a child of the container, none repeats, and
      every item on the way carries an id from `A`. */
  ghost predicate Spine(d: Doc, sp: seq<Handle>, A: set<int>) {
    sp != [] && sp[|sp| - 1] in d.top && Distinct(sp)
    && (forall j :: 0 <= j < |sp| - 1 ==> Holds(d, sp[j + 1], sp[j]))
    && (forall j :: 0 <= j < |sp| ==> sp[j] < |d.store| && (d.store[sp[j]].Item? ==> d.store[sp[j]].tabId in A))
  }

  /** A walk that starts off the spine stays off it: the spine's elements
      are not inside anything off the spine. */
  lemma {:induction false} WalkAvoids(d: Doc, sp: seq<Handle>, A: set<int>, hs: seq<Handle>, avail: set<Handle>)
    requires Tree(d) && Spine(d, sp, A) && forall h :: h in hs ==> h !in sp
    ensures forall h :: h in Walk(d.store, hs, avail) ==> h !in sp
    decreases |avail|, |hs|
  {
    if hs != [] {
      var h := hs[0];
      if h < |d.store| && h in avail {
        assert h in hs;
        forall c | c in Kids(d.store[h]) ensures c !in sp {
          assert Holds(d, h, c);
          forall j | 0 <= j < |sp| ensures sp[j] != c {
            if j < |sp| - 1 {
              assert Holds(d, sp[j + 1], sp[j]) && sp[j + 1] in sp;
            }
          }
        }
        WalkAvoids(d, sp, A, Kids(d.store[h]), avail - {h});
      }
      WalkAvoids(d, sp, A, hs[1..], avail);
    }
  }

  /** `insertBefore` into a list cannot throw when the node is not on the
      list's spine and the reference is null or one of the list's children. */
  lemma InsertOk(d: Doc, sp: seq<Handle>, A: set<int>, li: Handle, ref: Option<Handle>)
    requires Tree(d) && Spine(d, sp, A) && IsList(d, sp[0]) && li < |d.store| && li !in sp
    requires ref.None? || ref.value in Items(d, sp[0])
    ensures InsertBefore(d, sp[0], li, ref).Ok?
  {
    WalkAvoids(d, sp, A, [li], Handles(d));
  }

  lemma FirstListCons(d: Doc, x: Handle, ys: seq<Handle>)
    ensures FirstList(d, [x] + ys) == if IsList(d, x) then Some(x) else FirstList(d, ys)
  {
    assert ([x] + ys)[0] == x && ([x] + ys)[1..] == ys;
  }

  /** A walk starting at a list finds that list first. */
  lemma WalkListFirst(d: Doc, hs: seq<Handle>)
    requires hs != [] && IsList(d, hs[0])
    ensures FirstList(d, Walk(d.store, hs, Handles(d))) == Some(hs[0])
  {
    var h := hs[0];
    var inner, rest := Walk(d.store, Kids(d.store[h]), Handles(d) - {h}), Walk(d.store, hs[1..], Handles(d));
    assert Walk(d.store, hs, Handles(d)) == ([h] + inner) + rest;
    FirstListCons(d, h, inner + rest);
  }

  /** A walk starting at the placeholder finds what the rest of it finds. */
  lemma WalkNoteFirst(d: Doc, hs: seq<Handle>)
    requires hs != [] && hs[0] < |d.store| && d.store[hs[0]].Note?
    ensures FirstList(d, Walk(d.store, hs, Handles(d))) == FirstList(d, Walk(d.store, hs[1..], Handles(d)))
  {
    var h := hs[0];
    var rest := Walk(d.store, hs[1..], Handles(d));
    assert Kids(d.store[h]) == [];
    assert Walk(d.store, hs, Handles(d)) == [h] + rest;
    FirstListCons(d, h, rest);
  }

  /** The first list in the walk over the container's children is one of
      them, when none of them is an item. */
  lemma {:induction false} FirstListTop(d: Doc, hs: seq<Handle>)
    requires forall h :: h in hs ==> h < |d.store| && !d.store[h].Item?
    ensures var f := FirstList(d, Walk(d.store, hs, Handles(d))); f.Some? ==> f.value in hs
  {
    if hs != [] {
      assert hs[0] in hs && forall x :: x in hs[1..] ==> x in hs;
      FirstListTop(d, hs[1..]);
      if d.store[hs[0]].List? {
        WalkListFirst(d, hs);
      } else {
        WalkNoteFirst(d, hs);
      }
    }
  }

  /** `getOrCreateList` keeps the tree and returns a child of the container. */
  lemma MountTree(d: Doc)
    requires Tree(d)
    ensures var (r, L) := GetOrCreateList(d); Tree(r) && L in r.top
  {
    var f := FirstList(d, Contents(d));
    if f.Some? {
      FirstListTop(d, d.top);
    } else {
      var c := ClearContainer(d);
      ClearedTree(d, c.log);
      AllocTree(c, List([]));
      var (d1, ul) := Alloc(c, List([]));
      MountedTree(d1, ul, d1.log + [Mounted(ul)]);
    }
  }

  /** Emptying the container keeps the tree. */
  lemma ClearedTree(d: Doc, log: seq<Event>)
    requires Tree(d)
    ensures Tree(Doc(d.store, [], log))
  {
    var r := Doc(d.store, [], log);
    assert forall p: Handle, x: Handle :: Holds(r, p, x) <==> Holds(d, p, x);
    assert forall p: Handle :: IsList(r, p) ==> IsList(d, p) && Items(r, p) == Items(d, p);
  }

  /** Putting one unheld list into an empty container keeps the tree. */
  lemma MountedTree(d: Doc, L: Handle, log: seq<Event>)
    requires Tree(d) && d.top == [] && IsList(d, L) && Unheld(d, L)
    ensures Tree(Doc(d.store, [L], log))
  {
    var r := Doc(d.store, [L], log);
    assert forall p: Handle, x: Handle :: Holds(r, p, x) <==> Holds(d, p, x);
    assert forall p: Handle :: IsList(r, p) ==> IsList(d, p) && Items(r, p) == Items(d, p);
    forall p: Handle, x: Handle | Holds(r, p, x) ensures x < |r.store| && x !in r.top {
      assert !Holds(d, p, L);
    }
  }

  /** Showing the placeholder keeps the tree. */
  lemma ShowEmptyTree(d: Doc)
    requires Tree(d)
    ensures Tree(ShowEmpty(d))
  {
    var r := ShowEmpty(d);
    PrefixHolds(d, r);
    assert r.top == [|d.store|] && |r.store| == |d.store| + 1;
    forall p: Handle, x: Handle | Holds(r, p, x) ensures Holds(d, p, x) {
      assert p != |d.store|;
    }
    forall p: Handle | IsList(r, p) ensures Distinct(Items(r, p)) {
      assert r.store[p] == d.store[p] && IsList(d, p);
      assert Distinct(Items(d, p));
    }
  }
}
