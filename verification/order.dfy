/** Reconciling a list in a document shaped like a tree never throws, keeps
    the shape, and leaves the list's first children carrying the new nodes'
    ids in order, each row showing its node and holding a child list laid
    out the same way exactly when its node has children. Everything the
    reconciliation does not own is left alone. */
module RenderOrder {
  import opened Tabs
  import opened Dom
  import opened Renderer
  import opened RenderFacts
  import opened RenderFresh
  import opened DocShape

  // ---- ids of a forest's nodes ----

  lemma {:induction false} CountIdSplit(a: seq<TabTreeNode>, b: seq<TabTreeNode>, x: int)
    ensures CountId(a + b, x) == CountId(a, x) + CountId(b, x)
  {
    if a != [] {
      CountIdSplit(a[1..], b, x);
      assert (a + b)[0] == a[0] && (a + b)[1..] == a[1..] + b;
    } else {
      assert a + b == b;
    }
  }

  lemma CountIdAt(f: seq<TabTreeNode>, i: nat, x: int)
    requires i < |f|
    ensures CountId(f, x) == CountId(f[..i], x) + CountId([f[i]], x) + CountId(f[i + 1..], x)
  {
    assert f == f[..i] + ([f[i]] + f[i + 1..]);
    CountIdSplit(f[..i], [f[i]] + f[i + 1..], x);
    CountIdSplit([f[i]], f[i + 1..], x);
  }

  lemma IdsOne(n: TabTreeNode)
    ensures Ids([n]) == {n.tab.id} + Ids(n.children)
  {
    assert [n][1..] == [];
  }

  lemma IdsSuffix(f: seq<TabTreeNode>, i: nat)
    requires i < |f|
    ensures Ids(f[i..]) == Ids([f[i]]) + Ids(f[i + 1..])
  {
    assert f[i..][0] == f[i] && f[i..][1..] == f[i + 1..];
    IdsOne(f[i]);
  }

  /** A node's ids are ids of its forest. */
  lemma IdsOf(f: seq<TabTreeNode>, i: nat)
    requires i < |f|
    ensures Ids([f[i]]) <= Ids(f)
  {
    forall x | x in Ids([f[i]]) ensures x in Ids(f) {
      IdsCount([f[i]], x);
      CountIdAt(f, i, x);
      IdsCount(f, x);
    }
  }

  /** In a forest without repeated ids, each node's subtree has none, and
      two nodes' subtrees share none. */
  lemma NodeIds(f: seq<TabTreeNode>, i: nat)
    requires i < |f| && DistinctIds(f)
    ensures DistinctIds([f[i]]) && Ids([f[i]]) <= Ids(f)
  {
    IdsOf(f, i);
    forall x ensures CountId([f[i]], x) <= 1 {
      CountIdAt(f, i, x);
      assert CountId(f, x) <= 1;
    }
  }

  lemma NodesApart(f: seq<TabTreeNode>, k: nat, i: nat)
    requires k < i < |f| && DistinctIds(f)
    ensures Ids([f[k]]) !! Ids([f[i]])
  {
    forall x | x in Ids([f[k]]) ensures x !in Ids([f[i]]) {
      IdsCount([f[k]], x);
      IdsCount([f[i]], x);
      CountIdAt(f, i, x);
      CountIdAt(f[..i], k, x);
      assert f[..i][k] == f[k];
      assert CountId(f, x) <= 1;
    }
  }

  // ---- lists that lose some elements ----

  function Gone(xs: seq<Handle>, ys: seq<Handle>): (g: set<Handle>)
    ensures forall x :: x in g <==> x in xs && x !in ys
  {
    set x | x in xs && x !in ys
  }

  /** `x` is an item whose tab id is in `S`. */
  ghost predicate InS(d: Doc, x: Handle, S: set<int>) {
    IsItem(d, x) && KeyOf(d, x) in S
  }

  /** `ys` is `xs` with some `S`-items of `d` taken out, the rest in order. */
  ghost predicate Shrunk(d: Doc, xs: seq<Handle>, ys: seq<Handle>, S: set<int>) {
    ys == Drop(xs, Gone(xs, ys)) && forall g: Handle :: g in xs && g !in ys ==> InS(d, g, S)
  }

  lemma {:induction false} DropSame(xs: seq<Handle>, a: set<Handle>, b: set<Handle>)
    requires forall x :: x in xs ==> (x in a <==> x in b)
    ensures Drop(xs, a) == Drop(xs, b)
  {
    if xs != [] {
      assert xs[0] in xs && forall x :: x in xs[1..] ==> x in xs;
      DropSame(xs[1..], a, b);
    }
  }

  lemma DropCons(x: Handle, ys: seq<Handle>, g: set<Handle>)
    ensures Drop([x] + ys, g) == (if x in g then [] else [x]) + Drop(ys, g)
  {
    assert ([x] + ys)[0] == x && ([x] + ys)[1..] == ys;
  }

  lemma {:induction false} DropDrop(xs: seq<Handle>, a: set<Handle>, b: set<Handle>)
    ensures Drop(Drop(xs, a), b) == Drop(xs, a + b)
  {
    if xs != [] {
      var x, rest := xs[0], xs[1..];
      DropDrop(rest, a, b);
      assert xs == [x] + rest;
      DropCons(x, rest, a);
      DropCons(x, rest, a + b);
      if x !in a {
        DropCons(x, Drop(rest, a), b);
      } else {
        assert Drop(xs, a) == Drop(rest, a);
        assert Drop(xs, a + b) == Drop(rest, a + b);
      }
    }
  }

  lemma {:induction false} DropAppend(a: seq<Handle>, b: seq<Handle>, g: set<Handle>)
    ensures Drop(a + b, g) == Drop(a, g) + Drop(b, g)
  {
    if a != [] {
      var x, rest := a[0], a[1..];
      assert a == [x] + rest && a + b == [x] + (rest + b);
      DropAppend(rest, b, g);
      DropCons(x, rest + b, g);
      DropCons(x, rest, g);
      var c := if x in g then [] else [x];
      assert c + (Drop(rest, g) + Drop(b, g)) == (c + Drop(rest, g)) + Drop(b, g);
    } else {
      assert a + b == b;
    }
  }

  lemma DropDisjoint(xs: seq<Handle>, g: set<Handle>)
    requires forall x :: x in xs ==> x !in g
    ensures Drop(xs, g) == xs
  {
    DropSame(xs, g, {});
    DropNone(xs);
  }

  lemma ShrunkSame(d: Doc, xs: seq<Handle>, S: set<int>)
    ensures Shrunk(d, xs, xs, S)
  {
    DropDisjoint(xs, Gone(xs, xs));
  }

  lemma ShrunkWithout(d: Doc, xs: seq<Handle>, h: Handle, S: set<int>)
    requires InS(d, h, S)
    ensures Shrunk(d, xs, Without(xs, h), S)
  {
    var w := Without(xs, h);
    DropWithout(xs, h, {});
    DropNone(w);
    assert {} + {h} == {h};
    DropSame(xs, {h}, Gone(xs, w));
  }

  lemma ShrunkWeaken(d: Doc, xs: seq<Handle>, ys: seq<Handle>, S1: set<int>, S: set<int>)
    requires Shrunk(d, xs, ys, S1) && S1 <= S
    ensures Shrunk(d, xs, ys, S)
  {
  }

  /** Taking out some `S`-items, then some more, takes out some `S`-items. */
  lemma ShrunkTrans(d: Doc, d1: Doc, xs: seq<Handle>, ys: seq<Handle>, zs: seq<Handle>, S: set<int>)
    requires Shrunk(d, xs, ys, S) && Shrunk(d1, ys, zs, S) && Extends(d, d1)
    requires forall x :: x in xs ==> x < |d.store|
    ensures Shrunk(d, xs, zs, S)
  {
    var a, b := Gone(xs, ys), Gone(ys, zs);
    DropDrop(xs, a, b);
    assert forall x :: x in zs ==> x in ys;
    DropSame(xs, a + b, Gone(xs, zs));
    forall g: Handle | g in xs && g !in zs ensures InS(d, g, S) {
      if g in ys {
        assert InS(d1, g, S);
        assert SameKind(d.store[g], d1.store[g]);
      }
    }
  }

  /** A front part of `xs` holding no `S`-item survives. */
  lemma ShrunkPrefix(d: Doc, xs: seq<Handle>, ys: seq<Handle>, S: set<int>, m: nat)
    requires Shrunk(d, xs, ys, S) && m <= |xs|
    requires forall k :: 0 <= k < m ==> !InS(d, xs[k], S)
    ensures m <= |ys| && ys[..m] == xs[..m]
  {
    var g := Gone(xs, ys);
    assert xs == xs[..m] + xs[m..];
    DropAppend(xs[..m], xs[m..], g);
    forall x | x in xs[..m] ensures x !in g {
      var k :| 0 <= k < m && xs[k] == x;
    }
    DropDisjoint(xs[..m], g);
    assert ys == xs[..m] + Drop(xs[m..], g);
  }

  // ---- what a reconciliation leaves alone ----

  /** `L` is a list other than `t` whose parent is an item `g` with a tab
      id outside `S`. */
  ghost predicate OwnedOut(d: Doc, g: Handle, L: Handle, S: set<int>, t: Handle) {
    IsItem(d, g) && KeyOf(d, g) !in S && Holds(d, g, L) && IsList(d, L) && L != t
  }

  /** Going from `d` to `r` only touched the `S`-items and the list `t`:
      the container is the same, every other item and placeholder is the
      same, every other list held by one of those items or by the container
      lost at most some `S`-items, and no list gained an element of `d` that
      is not an `S`-item. */
  ghost predicate Frame(d: Doc, r: Doc, S: set<int>, t: Handle) {
    Extends(d, r) && r.top == d.top
    && (forall g: Handle :: g < |d.store| && !d.store[g].List? && !InS(d, g, S) ==> r.store[g] == d.store[g])
    && (forall g: Handle, L: Handle :: OwnedOut(d, g, L, S, t) ==> IsList(r, L) && Shrunk(d, Items(d, L), Items(r, L), S))
    && (forall L: Handle :: L in d.top && IsList(d, L) && L != t ==> IsList(r, L) && Shrunk(d, Items(d, L), Items(r, L), S))
    && (forall L: Handle, x: Handle :: IsList(r, L) && x in Items(r, L) && x < |d.store| && !InS(d, x, S) ==>
          IsList(d, L) && x in Items(d, L))
  }

  lemma KeepsInS(d: Doc, r: Doc, x: Handle, S: set<int>)
    requires Extends(d, r) && x < |d.store|
    ensures InS(r, x, S) <==> InS(d, x, S)
  {
    assert SameKind(d.store[x], r.store[x]);
  }

  lemma FrameRefl(d: Doc, S: set<int>, t: Handle)
    ensures Frame(d, d, S, t)
  {
    forall L: Handle | IsList(d, L) ensures Shrunk(d, Items(d, L), Items(d, L), S) {
      ShrunkSame(d, Items(d, L), S);
    }
  }

  lemma FrameWeaken(d: Doc, r: Doc, S1: set<int>, S: set<int>, t: Handle)
    requires Frame(d, r, S1, t) && S1 <= S
    ensures Frame(d, r, S, t)
  {
    forall g: Handle, L: Handle | OwnedOut(d, g, L, S, t) ensures IsList(r, L) && Shrunk(d, Items(d, L), Items(r, L), S) {
      assert OwnedOut(d, g, L, S1, t);
    }
    forall L: Handle, x: Handle | IsList(r, L) && x in Items(r, L) && x < |d.store| && !InS(d, x, S)
      ensures IsList(d, L) && x in Items(d, L)
    {
      assert !InS(d, x, S1);
    }
  }

  /** Two steps that each touch only the `S`-items and `t` touch only those. */
  lemma FrameTrans(d: Doc, d1: Doc, d2: Doc, S: set<int>, t: Handle)
    requires Tree(d) && Frame(d, d1, S, t) && Frame(d1, d2, S, t)
    ensures Frame(d, d2, S, t)
  {
    forall x: Handle | x < |d.store| ensures InS(d1, x, S) <==> InS(d, x, S) {
      KeepsInS(d, d1, x, S);
    }
    forall g: Handle, L: Handle | OwnedOut(d, g, L, S, t) ensures IsList(d2, L) && Shrunk(d, Items(d, L), Items(d2, L), S) {
      assert d1.store[g] == d.store[g];
      assert OwnedOut(d1, g, L, S, t);
      assert forall x :: x in Items(d, L) ==> Holds(d, L, x);
      ShrunkTrans(d, d1, Items(d, L), Items(d1, L), Items(d2, L), S);
    }
    forall L: Handle | L in d.top && IsList(d, L) && L != t ensures IsList(d2, L) && Shrunk(d, Items(d, L), Items(d2, L), S) {
      assert forall x :: x in Items(d, L) ==> Holds(d, L, x);
      ShrunkTrans(d, d1, Items(d, L), Items(d1, L), Items(d2, L), S);
    }
    forall L: Handle, x: Handle | IsList(d2, L) && x in Items(d2, L) && x < |d.store| && !InS(d, x, S)
      ensures IsList(d, L) && x in Items(d, L)
    {
      assert !InS(d1, x, S);
      assert IsList(d1, L) && x in Items(d1, L);
    }
  }

  /** A step that touches only the list `t'` held by the `S`-item `o`, and
      the items of `S' <= S`, touches only the `S`-items and any list `t`. */
  lemma FrameWiden(d: Doc, r: Doc, S': set<int>, t': Handle, S: set<int>, t: Handle, o: Handle)
    requires Tree(d) && Frame(d, r, S', t') && S' <= S && Holds(d, o, t') && InS(d, o, S)
    ensures Frame(d, r, S, t)
  {
    forall g: Handle, L: Handle | OwnedOut(d, g, L, S, t) ensures IsList(r, L) && Shrunk(d, Items(d, L), Items(r, L), S) {
      assert g != o;
      assert OwnedOut(d, g, L, S', t');
      ShrunkWeaken(d, Items(d, L), Items(r, L), S', S);
    }
    forall L: Handle | L in d.top && IsList(d, L) && L != t ensures IsList(r, L) && Shrunk(d, Items(d, L), Items(r, L), S) {
      assert L != t';
      ShrunkWeaken(d, Items(d, L), Items(r, L), S', S);
    }
    forall L: Handle, x: Handle | IsList(r, L) && x in Items(r, L) && x < |d.store| && !InS(d, x, S)
      ensures IsList(d, L) && x in Items(d, L)
    {
      assert !InS(d, x, S');
    }
  }

  /** Changing one `S`-item and nothing else touches only the `S`-items. */
  lemma ItemFrame(d: Doc, r: Doc, li: Handle, S: set<int>, t: Handle)
    requires InS(d, li, S) && Extends(d, r) && r.top == d.top && |r.store| == |d.store|
    requires forall k :: 0 <= k < |d.store| && k != li ==> r.store[k] == d.store[k]
    ensures Frame(d, r, S, t)
  {
    forall L: Handle | IsList(d, L) ensures IsList(r, L) && Shrunk(d, Items(d, L), Items(r, L), S) {
      ShrunkSame(d, Items(d, L), S);
    }
  }

  /** Appending elements that hold only appended elements touches nothing. */
  lemma GrownFrame(d: Doc, r: Doc, S: set<int>, t: Handle)
    requires Grown(d, r) && Extends(d, r)
    ensures Frame(d, r, S, t)
  {
    PrefixHolds(d, r);
    forall L: Handle | IsList(d, L) ensures IsList(r, L) && Shrunk(d, Items(d, L), Items(r, L), S) {
      ShrunkSame(d, Items(d, L), S);
    }
    forall L: Handle, x: Handle | IsList(r, L) && x in Items(r, L) && x < |d.store| ensures IsList(d, L) && x in Items(d, L) {
      assert Holds(r, L, x);
    }
  }

  /** Moving an `S`-item into `t` touches only the `S`-items and `t`. */
  lemma InsertFrame(d: Doc, t: Handle, li: Handle, ref: Option<Handle>, S: set<int>)
    requires Tree(d) && IsList(d, t) && InS(d, li, S) && InsertBefore(d, t, li, ref).Ok?
    ensures Frame(d, InsertBefore(d, t, li, ref).value, S, t)
  {
    assert li !in d.top;
    MoveFrame(d, InsertBefore(d, t, li, ref).value, t, li, S);
  }

  lemma MoveFrame(d: Doc, r: Doc, t: Handle, li: Handle, S: set<int>)
    requires IsList(d, t) && InS(d, li, S) && Extends(d, r) && r.top == d.top && |r.store| == |d.store| && IsList(r, t)
    requires forall k :: 0 <= k < |d.store| && k != t ==>
               r.store[k] == (if d.store[k].List? then List(Without(d.store[k].items, li)) else d.store[k])
    requires Without(Items(r, t), li) == Without(Items(d, t), li)
    ensures Frame(d, r, S, t)
  {
    forall L: Handle | IsList(d, L) && L != t ensures IsList(r, L) && Shrunk(d, Items(d, L), Items(r, L), S) {
      ShrunkWithout(d, Items(d, L), li, S);
    }
    forall L: Handle, x: Handle | IsList(r, L) && x in Items(r, L) && x < |d.store| && !InS(d, x, S)
      ensures IsList(d, L) && x in Items(d, L)
    {
      assert x != li;
      if L == t {
        assert x in Without(Items(r, t), li);
      }
    }
  }

  // ---- the spine above the list being reconciled ----

  /** An item whose id is not on the spine is not on the spine. */
  lemma OffSpine(d: Doc, sp: seq<Handle>, A: set<int>, li: Handle)
    requires Spine(d, sp, A) && IsItem(d, li) && KeyOf(d, li) !in A
    ensures li !in sp
  {
  }

  /** No item with an id in `X` holds `t`. */
  ghost predicate NotHolding(d: Doc, X: set<int>, t: Handle) {
    forall g: Handle :: IsItem(d, g) && KeyOf(d, g) in X ==> !Holds(d, g, t)
  }

  lemma SpineNotHolding(d: Doc, sp: seq<Handle>, A: set<int>, X: set<int>)
    requires Tree(d) && Spine(d, sp, A) && X !! A
    ensures NotHolding(d, X, sp[0])
  {
    forall g: Handle | IsItem(d, g) && KeyOf(d, g) in X ensures !Holds(d, g, sp[0]) {
      if |sp| > 1 {
        assert Holds(d, sp[1], sp[0]);
      }
    }
  }

  /** The parent of a list on the spine, below the container, is an item. */
  lemma SpineParent(d: Doc, sp: seq<Handle>, A: set<int>, j: nat)
    requires Tree(d) && Spine(d, sp, A) && j + 1 < |sp| && IsList(d, sp[j])
    ensures IsItem(d, sp[j + 1]) && KeyOf(d, sp[j + 1]) in A
  {
    assert Holds(d, sp[j + 1], sp[j]);
    assert !d.store[sp[j + 1]].Note?;
  }

  /** A list on the spine other than `t` only loses `S`-items. */
  lemma SpineListShrunk(d: Doc, r: Doc, sp: seq<Handle>, A: set<int>, S: set<int>, t: Handle, j: nat)
    requires Tree(d) && Spine(d, sp, A) && A !! S && Frame(d, r, S, t) && j < |sp| && IsList(d, sp[j]) && sp[j] != t
    ensures IsList(r, sp[j]) && Shrunk(d, Items(d, sp[j]), Items(r, sp[j]), S)
  {
    if j + 1 < |sp| {
      SpineParent(d, sp, A, j);
      assert OwnedOut(d, sp[j + 1], sp[j], S, t);
    }
  }

  /** The spine outlives a step that touches only ids off it and `sp[0]`. */
  lemma SpineKept(d: Doc, r: Doc, sp: seq<Handle>, A: set<int>, S: set<int>)
    requires Tree(d) && Spine(d, sp, A) && A !! S && Frame(d, r, S, sp[0])
    ensures Spine(r, sp, A)
  {
    forall j | 0 <= j < |sp| - 1 ensures Holds(r, sp[j + 1], sp[j]) {
      var p, c := sp[j + 1], sp[j];
      assert Holds(d, p, c);
      assert !InS(d, c, S);
      if d.store[p].Item? {
        assert r.store[p] == d.store[p];
      } else {
        assert p != sp[0];
        SpineListShrunk(d, r, sp, A, S, sp[0], j + 1);
      }
    }
    forall j | 0 <= j < |sp| ensures sp[j] < |r.store| && (r.store[sp[j]].Item? ==> r.store[sp[j]].tabId in A) {
      assert SameKind(d.store[sp[j]], r.store[sp[j]]);
    }
  }

  /** An item of `sp[0]` whose id is off the spine, and its child list,
      extend the spine. */
  lemma SpineGrow(d: Doc, sp: seq<Handle>, A: set<int>, li: Handle, t': Handle)
    requires Tree(d) && Spine(d, sp, A) && IsList(d, sp[0]) && li in Items(d, sp[0])
    requires IsItem(d, li) && KeyOf(d, li) !in A && Holds(d, li, t')
    ensures t' !in sp && Spine(d, [t', li] + sp, A + {KeyOf(d, li)})
  {
    var sp' := [t', li] + sp;
    OffSpine(d, sp, A, li);
    assert Holds(d, sp[0], li);
    forall j | 0 <= j < |sp| ensures sp[j] != t' {
      if j + 1 < |sp| {
        assert Holds(d, sp[j + 1], sp[j]) && sp[j + 1] in sp;
      }
    }
    assert IsList(d, t');
    forall j | 0 <= j < |sp'| - 1 ensures Holds(d, sp'[j + 1], sp'[j]) {
      if j >= 2 {
        assert sp'[j + 1] == sp[j - 1] && sp'[j] == sp[j - 2];
      }
    }
    forall a, b | 0 <= a < b < |sp'| ensures sp'[a] != sp'[b] {
      if a >= 2 {
        assert sp'[a] == sp[a - 2] && sp'[b] == sp[b - 2];
      } else {
        assert sp'[b] in sp || b == 1;
      }
    }
    assert sp'[|sp'| - 1] == sp[|sp| - 1];
    forall j | 0 <= j < |sp'| ensures sp'[j] < |d.store| && (d.store[sp'[j]].Item? ==> d.store[sp'[j]].tabId in A + {KeyOf(d, li)}) {
      if j >= 2 {
        assert sp'[j] == sp[j - 2];
      }
    }
  }

  // ---- rows laid out for nodes ----

  /** The item `h` is laid out for node `n`: it carries the node's tab id,
      its row (when it has one) shows the node, and it has a child list
      exactly when the node has children, laid out for them. */
  ghost predicate LaysRow(d: Doc, h: Handle, n: TabTreeNode)
    decreases n, 0
  {
    IsItem(d, h) && KeyOf(d, h) == n.tab.id
    && (d.store[h].row.Some? ==> Shows(d.store[h], n))
    && (ChildList(d, h).Some? <==> n.children != [])
    && (ChildList(d, h).Some? ==> Lays(d, ChildList(d, h).value, n.children))
  }

  /** The first `|nodes|` children of the list `t` are laid out for
      `nodes`, in order. */
  ghost predicate Lays(d: Doc, t: Handle, nodes: seq<TabTreeNode>)
    decreases nodes, 1
  {
    IsList(d, t) && |nodes| <= |Items(d, t)|
    && forall k :: 0 <= k < |nodes| ==> LaysRow(d, Items(d, t)[k], nodes[k])
  }

  /** What `createNode` builds is laid out for its node. */
  lemma {:induction false} BuiltLays(d: Doc, h: Handle, n: TabTreeNode)
    requires Built(d, h, n)
    ensures LaysRow(d, h, n)
    decreases n
  {
    if n.children != [] {
      var hs := d.store[h + 1].items;
      forall k | 0 <= k < |n.children| ensures LaysRow(d, hs[k], n.children[k]) {
        BuiltKidsAt(d, hs, n.children, h + 2, k);
        BuiltLays(d, hs[k], n.children[k]);
      }
    }
  }

  /** A row laid out for `n` stays laid out through a step that touches
      none of `n`'s ids and not the list `t`, when no item of `n`'s holds `t`. */
  lemma {:induction false} LaysRowKept(d: Doc, r: Doc, h: Handle, n: TabTreeNode, S: set<int>, t: Handle)
    requires Tree(d) && Frame(d, r, S, t) && LaysRow(d, h, n) && Ids([n]) !! S && NotHolding(d, Ids([n]), t)
    ensures LaysRow(r, h, n)
    decreases n, 0
  {
    IdsOne(n);
    assert r.store[h] == d.store[h];
    if ChildList(d, h).Some? {
      var L := ChildList(d, h).value;
      assert Holds(d, h, L);
      assert OwnedOut(d, h, L, S, t);
      assert ChildList(r, h) == Some(L);
      LaysKept(d, r, L, n.children, S, t);
    }
  }

  lemma {:induction false} LaysKept(d: Doc, r: Doc, L: Handle, nodes: seq<TabTreeNode>, S: set<int>, t: Handle)
    requires Tree(d) && Frame(d, r, S, t) && Lays(d, L, nodes) && Ids(nodes) !! S && NotHolding(d, Ids(nodes), t)
    requires IsList(r, L) && Shrunk(d, Items(d, L), Items(r, L), S)
    ensures Lays(r, L, nodes)
    decreases nodes, 1
  {
    forall k | 0 <= k < |nodes| ensures !InS(d, Items(d, L)[k], S) {
      IdsOf(nodes, k);
      IdsOne(nodes[k]);
    }
    ShrunkPrefix(d, Items(d, L), Items(r, L), S, |nodes|);
    var xs, ys := Items(d, L), Items(r, L);
    forall k | 0 <= k < |nodes| ensures LaysRow(r, ys[k], nodes[k]) {
      IdsOf(nodes, k);
      assert ys[k] == ys[..|nodes|][k] == xs[..|nodes|][k] == xs[k];
      assert NotHolding(d, Ids([nodes[k]]), t);
      LaysRowKept(d, r, xs[k], nodes[k], S, t);
    }
  }

  // ---- one round of the loop ----

  /** Reusing the item for `node`: it is updated, then moved to slot `i`
      when not there, which cannot throw since the item is off the spine. */
  lemma ReuseOrder(d: Doc, sp: seq<Handle>, A: set<int>, S: set<int>, li: Handle, node: TabTreeNode, i: nat)
    requires Tree(d) && Spine(d, sp, A) && IsList(d, sp[0]) && i <= |Items(d, sp[0])|
    requires IsItem(d, li) && KeyOf(d, li) == node.tab.id && node.tab.id in S && S !! A
    ensures Reuse(d, sp[0], li, node, i).Ok?
    ensures var r := Reuse(d, sp[0], li, node, i).value.0;
      Tree(r) && Frame(d, r, S, sp[0]) && (r.store[li].row.Some? ==> Shows(r.store[li], node))
  {
    var t := sp[0];
    var d1 := UpdateContent(d, li, node);
    UpdateTree(d, li, node);
    ItemFrame(d, d1, li, S, t);
    if d.store[li].row.Some? {
      var _ := UpdateRules(d, li, node);
    }
    var target := SlotAt(d1, t, i);
    if target != Some(li) {
      SpineKept(d, d1, sp, A, S);
      OffSpine(d1, sp, A, li);
      InsertOk(d1, sp, A, li, target);
      var r := InsertBefore(d1, t, li, target).value;
      InsertTree(d1, t, li, target);
      InsertFrame(d1, t, li, target, S);
      FrameTrans(d, d1, r, S, t);
    }
  }

  /** Creating the item for `node` and inserting it at slot `i`. */
  lemma FreshOrder(d: Doc, sp: seq<Handle>, A: set<int>, S: set<int>, node: TabTreeNode, i: nat)
    requires Tree(d) && Spine(d, sp, A) && IsList(d, sp[0]) && i <= |Items(d, sp[0])|
    requires node.tab.id in S && S !! A
    ensures Fresh(d, sp[0], node, i).Ok?
    ensures var r := Fresh(d, sp[0], node, i).value;
      Tree(r.0) && Frame(d, r.0, S, sp[0]) && (r.0.store[r.1].row.Some? ==> Shows(r.0.store[r.1], node))
  {
    var t := sp[0];
    var (d1, li) := CreateNode(d, node);
    CreateTree(d, node);
    GrownFrame(d, d1, S, t);
    SpineKept(d, d1, sp, A, S);
    PrefixHolds(d, d1);
    var target := SlotAt(d1, t, i);
    InsertOk(d1, sp, A, li, target);
    var r := InsertBefore(d1, t, li, target).value;
    InsertTree(d1, t, li, target);
    InsertFrame(d1, t, li, target, S);
    FrameTrans(d, d1, r, S, t);
    assert Fresh(d, t, node, i) == Ok((r, li));
  }

  /** Placing the item for `node` at slot `i`, when the first `i` slots do
      not hold it. */
  lemma PlaceOrder(d: Doc, sp: seq<Handle>, A: set<int>, S: set<int>, idx: map<int, Handle>, node: TabTreeNode, i: nat)
    requires Tree(d) && Spine(d, sp, A) && IsList(d, sp[0]) && IndexOK(d, idx) && i <= |Items(d, sp[0])|
    requires node.tab.id in S && S !! A
    requires node.tab.id in idx ==> idx[node.tab.id] !in Items(d, sp[0])[..i]
    ensures Place(d, sp[0], idx, node, i).Ok?
    ensures var (r, li) := Place(d, sp[0], idx, node, i).value;
      Tree(r) && Frame(d, r, S, sp[0]) && (r.store[li].row.Some? ==> Shows(r.store[li], node))
      && i < |Items(r, sp[0])| && Items(r, sp[0])[..i] == Items(d, sp[0])[..i] && Items(r, sp[0])[i] == li
  {
    assert forall h :: h in Items(d, sp[0]) ==> Holds(d, sp[0], h);
    if node.tab.id in idx {
      ReuseOrder(d, sp, A, S, idx[node.tab.id], node, i);
    } else {
      FreshOrder(d, sp, A, S, node, i);
    }
    PlaceAtSlot(d, sp[0], idx, node, i);
  }

  /** Bringing the child list of the item `li` in line with `node`: it
      never throws, touches only `node`'s ids and the lists below `li`,
      leaves `sp[0]` losing at most items of `node`'s children, and lays
      `li` out for `node`. */
  lemma {:induction false} ChildListsOrder(d: Doc, sp: seq<Handle>, A: set<int>, li: Handle, prev: seq<TabTreeNode>, node: TabTreeNode)
    requires Tree(d) && Spine(d, sp, A) && IsList(d, sp[0]) && li in Items(d, sp[0])
    requires IsItem(d, li) && KeyOf(d, li) == node.tab.id && DistinctIds([node]) && Ids([node]) !! A
    requires d.store[li].row.Some? ==> Shows(d.store[li], node)
    ensures ChildLists(d, li, prev, node).Ok?
    ensures var r := ChildLists(d, li, prev, node).value;
      Tree(r) && Frame(d, r, Ids([node]), sp[0]) && LaysRow(r, li, node)
      && IsList(r, sp[0]) && Shrunk(d, Items(d, sp[0]), Items(r, sp[0]), Ids(node.children))
    decreases node, 3
  {
    var cl := ChildList(d, li);
    if node.children != [] && cl.Some? {
      NestOrder(d, sp, A, li, prev, node);
    } else if node.children != [] {
      IdsOne(node);
      BuildOrder(d, sp[0], li, node, Ids([node]));
      ShrunkSame(d, Items(d, sp[0]), Ids(node.children));
    } else {
      IdsOne(node);
      var r := ChildLists(d, li, prev, node).value;
      if cl.Some? {
        DropTree(d, li, cl.value);
        ItemFrame(d, r, li, Ids([node]), sp[0]);
      } else {
        FrameRefl(d, Ids([node]), sp[0]);
      }
      ShrunkSame(d, Items(d, sp[0]), Ids(node.children));
    }
  }

  /** The item already has a child list: the nested `reconcile` lays it
      out for the children and touches only their ids and the lists below
      it, so `sp[0]` at most loses some of the children's items. */
  lemma {:induction false} NestOrder(d: Doc, sp: seq<Handle>, A: set<int>, li: Handle, prev: seq<TabTreeNode>, node: TabTreeNode)
    requires Tree(d) && Spine(d, sp, A) && IsList(d, sp[0]) && li in Items(d, sp[0])
    requires IsItem(d, li) && KeyOf(d, li) == node.tab.id && DistinctIds([node]) && Ids([node]) !! A
    requires d.store[li].row.Some? ==> Shows(d.store[li], node)
    requires node.children != [] && ChildList(d, li).Some?
    ensures ChildLists(d, li, prev, node).Ok?
    ensures var r := ChildLists(d, li, prev, node).value;
      Tree(r) && Frame(d, r, Ids([node]), sp[0]) && LaysRow(r, li, node)
      && IsList(r, sp[0]) && Shrunk(d, Items(d, sp[0]), Items(r, sp[0]), Ids(node.children))
    decreases node, 2
  {
    var t, S := sp[0], Ids([node]);
    IdsOne(node);
    DistinctParts([node]);
    assert [node][0] == node && [node][1..] == [];
    var t' := ChildList(d, li).value;
    assert Holds(d, li, t');
    SpineGrow(d, sp, A, li, t');
    ReconcileOrders(d, [t', li] + sp, A + {node.tab.id}, StoredChildren(prev, node.tab.id), node.children);
    var r := Reconcile(d, t', StoredChildren(prev, node.tab.id), node.children).value;
    FrameWiden(d, r, Ids(node.children), t', S, t, li);
    assert t != t';
    SpineListShrunk(d, r, sp, A, Ids(node.children), t', 0);
    assert r.store[li] == d.store[li];
  }

  /** The item has no child list yet: the freshly built one is attached
      below it and lays it out for the children; nothing else changes. */
  lemma BuildOrder(d: Doc, t: Handle, li: Handle, node: TabTreeNode, S: set<int>)
    requires Tree(d) && IsList(d, t) && IsItem(d, li) && KeyOf(d, li) == node.tab.id && node.tab.id in S
    requires d.store[li].row.Some? ==> Shows(d.store[li], node)
    requires node.children != [] && ChildList(d, li).None?
    ensures var (d1, ul) := BuildChildList(d, node.children);
      var r := AttachChildList(d1, li, ul);
      Tree(r) && Frame(d, r, S, t) && LaysRow(r, li, node)
      && IsList(r, t) && Items(r, t) == Items(d, t)
  {
    assert d.store[li].sub.None? by {
      if d.store[li].sub.Some? {
        assert Holds(d, li, d.store[li].sub.value);
      }
    }
    var (d1, ul) := BuildChildList(d, node.children);
    ChildListTree(d, node.children);
    ChildListBuilt(d, node.children);
    GrownFrame(d, d1, S, t);
    PrefixHolds(d, d1);
    assert d1.store[li] == d.store[li] by {
      assert d1.store[..|d.store|][li] == d.store[li];
    }
    AttachTree(d1, li, ul);
    var r := AttachChildList(d1, li, ul);
    AttachFrame(d, d1, r, li, S, t);
    AttachedLays(d, li, node.children);
    assert d1.store[t] == d.store[t] by {
      assert d1.store[..|d.store|][t] == d.store[t];
    }
  }

  /** The freshly built child list, once attached below `li`, lays out
      `kids`. */
  lemma AttachedLays(d: Doc, li: Handle, kids: seq<TabTreeNode>)
    requires IsItem(d, li)
    ensures var (d1, ul) := BuildChildList(d, kids);
      IsItem(d1, li) && IsList(d1, ul) && var r := AttachChildList(d1, li, ul);
      IsList(r, ul) && Lays(r, ul, kids)
  {
    var (d1, ul) := BuildChildList(d, kids);
    ChildListBuilt(d, kids);
    assert d1.store[li] == d.store[li] by {
      assert d1.store[..|d.store|][li] == d.store[li];
    }
    var r := AttachChildList(d1, li, ul);
    AgreeAbove(d1, r, li, ul + 1, ul + 1 + SpanAll(kids));
    BuiltKidsFrame(d1, r, Items(d1, ul), kids, ul + 1);
    forall k | 0 <= k < |kids| ensures LaysRow(r, Items(r, ul)[k], kids[k]) {
      BuiltKidsAt(r, Items(r, ul), kids, ul + 1, k);
      BuiltLays(r, Items(r, ul)[k], kids[k]);
    }
  }

  /** Changing only the element `li` leaves every element above it alone. */
  lemma AgreeAbove(d: Doc, r: Doc, li: Handle, lo: nat, hi: nat)
    requires li < lo && hi <= |d.store| && |r.store| == |d.store|
    requires forall k :: 0 <= k < |d.store| && k != li ==> r.store[k] == d.store[k]
    ensures Agree(d, r, lo, hi)
  {
  }

  /** Growing the store and then changing the `S`-item `li` touches only
      the `S`-items. */
  lemma AttachFrame(d: Doc, d1: Doc, r: Doc, li: Handle, S: set<int>, t: Handle)
    requires Tree(d) && Grown(d, d1) && Extends(d, d1) && InS(d, li, S)
    requires Extends(d1, r) && r.top == d1.top && |r.store| == |d1.store|
    requires forall k :: 0 <= k < |d1.store| && k != li ==> r.store[k] == d1.store[k]
    ensures Frame(d, r, S, t)
  {
    GrownFrame(d, d1, S, t);
    KeepsInS(d, d1, li, S);
    ItemFrame(d1, r, li, S, t);
    FrameTrans(d, d1, r, S, t);
  }

  /** The nodes before slot `i` share no id with the node at `i`. */
  lemma PrefixApart(nodes: seq<TabTreeNode>, i: nat)
    requires i < |nodes| && DistinctIds(nodes)
    ensures forall k :: 0 <= k < i ==> Ids([nodes[..i][k]]) !! Ids([nodes[i]]) && nodes[..i][k].tab.id !in Ids([nodes[i]])
  {
    forall k | 0 <= k < i ensures Ids([nodes[..i][k]]) !! Ids([nodes[i]]) && nodes[..i][k].tab.id !in Ids([nodes[i]]) {
      NodesApart(nodes, k, i);
      IdsOne(nodes[k]);
      assert nodes[..i][k] == nodes[k];
    }
  }

  /** No item of any node of the forest holds `t`. */
  lemma EachNotHolding(d: Doc, nodes: seq<TabTreeNode>, t: Handle)
    requires NotHolding(d, Ids(nodes), t)
    ensures forall k :: 0 <= k < |nodes| ==> NotHolding(d, Ids([nodes[k]]), t)
  {
    forall k | 0 <= k < |nodes| ensures NotHolding(d, Ids([nodes[k]]), t) {
      IdsOf(nodes, k);
    }
  }

  /** No item of a node before slot `i` holds `t`. */
  lemma PrefixNotHolding(d: Doc, nodes: seq<TabTreeNode>, i: nat, t: Handle)
    requires i <= |nodes| && NotHolding(d, Ids(nodes), t)
    ensures forall k :: 0 <= k < i ==> NotHolding(d, Ids([nodes[..i][k]]), t)
  {
    forall k | 0 <= k < i ensures NotHolding(d, Ids([nodes[..i][k]]), t) {
      IdsOf(nodes, k);
      assert nodes[..i][k] == nodes[k];
    }
  }

  /** The row index does not point into the front of `t` for an id none of
      the rows laid out there has. */
  lemma PrefixNotIndexed(d: Doc, t: Handle, ps: seq<TabTreeNode>, idx: map<int, Handle>, id: int, S: set<int>)
    requires Lays(d, t, ps) && IndexOK(d, idx) && id in S && forall k :: 0 <= k < |ps| ==> ps[k].tab.id !in S
    ensures id in idx ==> idx[id] !in Items(d, t)[..|ps|]
  {
    forall k | 0 <= k < |ps| ensures id in idx ==> Items(d, t)[k] != idx[id] {
      assert LaysRow(d, Items(d, t)[k], ps[k]);
    }
  }

  /** Rows laid out in front of `t` stay laid out through a step that keeps
      that front part of `t` and touches none of their ids. */
  lemma PrefixLaysKept(d: Doc, r: Doc, t: Handle, ps: seq<TabTreeNode>, S: set<int>, m: nat)
    requires Tree(d) && Frame(d, r, S, t) && Lays(d, t, ps)
    requires forall k :: 0 <= k < |ps| ==> Ids([ps[k]]) !! S && NotHolding(d, Ids([ps[k]]), t)
    requires IsList(r, t) && |ps| <= m <= |Items(r, t)| && m <= |Items(d, t)| && Items(r, t)[..m] == Items(d, t)[..m]
    ensures Lays(r, t, ps)
  {
    forall k | 0 <= k < |ps| ensures LaysRow(r, Items(r, t)[k], ps[k]) {
      assert Items(r, t)[k] == Items(r, t)[..m][k] == Items(d, t)[k];
      LaysRowKept(d, r, Items(d, t)[k], ps[k], S, t);
    }
  }

  /** Shrinking `t` by `C`-items keeps its front part when neither the rows
      laid out there nor the item `li` after them is a `C`-item. */
  lemma StepShrunk(d: Doc, r: Doc, t: Handle, ps: seq<TabTreeNode>, li: Handle, C: set<int>, S: set<int>)
    requires IsList(d, t) && Lays(d, t, ps) && (forall k :: 0 <= k < |ps| ==> ps[k].tab.id !in S) && C <= S
    requires IsList(r, t) && |ps| < |Items(d, t)| && Items(d, t)[|ps|] == li && IsItem(d, li) && KeyOf(d, li) !in C
    requires Shrunk(d, Items(d, t), Items(r, t), C)
    ensures |ps| + 1 <= |Items(r, t)| && Items(r, t)[..|ps| + 1] == Items(d, t)[..|ps| + 1]
  {
    forall k | 0 <= k < |ps| + 1 ensures !InS(d, Items(d, t)[k], C) {
      if k < |ps| {
        assert LaysRow(d, Items(d, t)[k], ps[k]);
      }
    }
    ShrunkPrefix(d, Items(d, t), Items(r, t), C, |ps| + 1);
  }

  lemma LaysSnoc(d: Doc, t: Handle, nodes: seq<TabTreeNode>, i: nat)
    requires i < |nodes| && Lays(d, t, nodes[..i]) && i < |Items(d, t)| && LaysRow(d, Items(d, t)[i], nodes[i])
    ensures Lays(d, t, nodes[..i + 1])
  {
    forall k | 0 <= k < i + 1 ensures LaysRow(d, Items(d, t)[k], nodes[..i + 1][k]) {
      if k < i {
        assert nodes[..i + 1][k] == nodes[..i][k];
      }
    }
  }

  /** One round of the loop lays slot `i` out for `nodes[i]` and keeps the
      slots before it. */
  lemma {:induction false} StepOrder(d: Doc, sp: seq<Handle>, A: set<int>, idx: map<int, Handle>, prev: seq<TabTreeNode>, nodes: seq<TabTreeNode>, i: nat)
    requires Tree(d) && Spine(d, sp, A) && IsList(d, sp[0]) && IndexOK(d, idx) && i < |nodes|
    requires DistinctIds(nodes) && Ids(nodes) !! A && Lays(d, sp[0], nodes[..i])
    ensures Step(d, sp[0], idx, prev, nodes[i], i).Ok?
    ensures var r := Step(d, sp[0], idx, prev, nodes[i], i).value;
      Tree(r) && Lays(r, sp[0], nodes[..i + 1]) && Frame(d, r, Ids([nodes[i]]), sp[0])
    decreases nodes[i], 5
  {
    var t, node, ps := sp[0], nodes[i], nodes[..i];
    var S := Ids([node]);
    NodeIds(nodes, i);
    IdsOne(node);
    PrefixApart(nodes, i);
    SpineNotHolding(d, sp, A, Ids(nodes));
    PrefixNotHolding(d, nodes, i, t);
    PrefixNotIndexed(d, t, ps, idx, node.tab.id, S);
    PlaceOrder(d, sp, A, S, idx, node, i);
    var (d1, li) := Place(d, t, idx, node, i).value;
    SpineKept(d, d1, sp, A, S);
    IndexOKExtends(d, d1, idx);
    PrefixLaysKept(d, d1, t, ps, S, i);
    GrowOrder(d, d1, sp, A, li, prev, nodes, i, S);
    assert Step(d, t, idx, prev, node, i) == ChildLists(d1, li, prev, node);
  }

  /** The second half of a round: the child lists of the placed item `li`
      are brought in line with `nodes[i]`, which keeps slots `0..i`. */
  lemma {:induction false} GrowOrder(d: Doc, d1: Doc, sp: seq<Handle>, A: set<int>, li: Handle, prev: seq<TabTreeNode>, nodes: seq<TabTreeNode>, i: nat, S: set<int>)
    requires Tree(d) && Tree(d1) && Spine(d, sp, A) && Spine(d1, sp, A) && IsList(d1, sp[0]) && i < |nodes|
    requires DistinctIds(nodes) && Ids(nodes) !! A && S == Ids([nodes[i]]) && S !! A && Frame(d, d1, S, sp[0])
    requires forall k :: 0 <= k < i ==> Ids([nodes[..i][k]]) !! S && nodes[..i][k].tab.id !in S
    requires Lays(d1, sp[0], nodes[..i]) && i < |Items(d1, sp[0])| && Items(d1, sp[0])[i] == li
    requires IsItem(d1, li) && KeyOf(d1, li) == nodes[i].tab.id && (d1.store[li].row.Some? ==> Shows(d1.store[li], nodes[i]))
    ensures ChildLists(d1, li, prev, nodes[i]).Ok?
    ensures var r := ChildLists(d1, li, prev, nodes[i]).value;
      Tree(r) && Lays(r, sp[0], nodes[..i + 1]) && Frame(d, r, S, sp[0])
    decreases nodes[i], 4
  {
    var t, node, ps := sp[0], nodes[i], nodes[..i];
    NodeIds(nodes, i);
    ChildListsOrder(d1, sp, A, li, prev, node);
    var r := ChildLists(d1, li, prev, node).value;
    FrameTrans(d, d1, r, S, t);
    IdsOne(node);
    DistinctParts([node]);
    assert [node][0] == node;
    SpineNotHolding(d1, sp, A, Ids(nodes));
    PrefixNotHolding(d1, nodes, i, t);
    GrowKeeps(d1, r, t, nodes, i, li, Ids(node.children), S);
  }

  /** After the child lists of `li`, at slot `i`, are brought in line with
      `nodes[i]`, slots `0..i` of `t` are laid out for `nodes[..i + 1]`. */
  lemma GrowKeeps(d: Doc, r: Doc, t: Handle, nodes: seq<TabTreeNode>, i: nat, li: Handle, C: set<int>, S: set<int>)
    requires Tree(d) && IsList(d, t) && IsList(r, t) && i < |nodes| && C <= S && Frame(d, r, S, t)
    requires forall k :: 0 <= k < i ==> Ids([nodes[..i][k]]) !! S && nodes[..i][k].tab.id !in S && NotHolding(d, Ids([nodes[..i][k]]), t)
    requires Lays(d, t, nodes[..i]) && i < |Items(d, t)| && Items(d, t)[i] == li && IsItem(d, li) && KeyOf(d, li) !in C
    requires Shrunk(d, Items(d, t), Items(r, t), C) && LaysRow(r, li, nodes[i])
    ensures Lays(r, t, nodes[..i + 1])
  {
    var ps := nodes[..i];
    StepShrunk(d, r, t, ps, li, C, S);
    PrefixLaysKept(d, r, t, ps, S, i + 1);
    assert Items(r, t)[i] == Items(r, t)[..i + 1][i] == Items(d, t)[..i + 1][i] == li;
    LaysSnoc(r, t, nodes, i);
  }

  /** The loop from slot `i` on lays out every node, keeping the slots
      before `i`. */
  lemma {:induction false} StepsOrder(d: Doc, sp: seq<Handle>, A: set<int>, idx: map<int, Handle>, prev: seq<TabTreeNode>, nodes: seq<TabTreeNode>, i: nat)
    requires Tree(d) && Spine(d, sp, A) && IsList(d, sp[0]) && IndexOK(d, idx) && i <= |nodes|
    requires DistinctIds(nodes) && Ids(nodes) !! A && Lays(d, sp[0], nodes[..i])
    ensures Steps(d, sp[0], idx, prev, nodes, i).Ok?
    ensures var r := Steps(d, sp[0], idx, prev, nodes, i).value;
      Tree(r) && Lays(r, sp[0], nodes) && Frame(d, r, Ids(nodes[i..]), sp[0])
    decreases nodes, 0, |nodes| - i
  {
    if i == |nodes| {
      assert nodes[..i] == nodes;
      FrameRefl(d, Ids(nodes[i..]), sp[0]);
    } else {
      StepOrder(d, sp, A, idx, prev, nodes, i);
      var d1 := Step(d, sp[0], idx, prev, nodes[i], i).value;
      NodeIds(nodes, i);
      SpineKept(d, d1, sp, A, Ids([nodes[i]]));
      StepsOrder(d1, sp, A, idx, prev, nodes, i + 1);
      var r := Steps(d1, sp[0], idx, prev, nodes, i + 1).value;
      IdsSuffix(nodes, i);
      FrameWeaken(d, d1, Ids([nodes[i]]), Ids(nodes[i..]), sp[0]);
      FrameWeaken(d1, r, Ids(nodes[i + 1..]), Ids(nodes[i..]), sp[0]);
      FrameTrans(d, d1, r, Ids(nodes[i..]), sp[0]);
    }
  }

  /** Dropping elements none of which is among the first `m` keeps those
      `m` at the front. */
  lemma {:induction false} DropKeepsPrefix(xs: seq<Handle>, m: nat, g: set<Handle>)
    requires m <= |xs| && forall k :: 0 <= k < m ==> xs[k] !in g
    ensures m <= |Drop(xs, g)| && Drop(xs, g)[..m] == xs[..m]
  {
    if m > 0 {
      DropCons(xs[0], xs[1..], g);
      assert xs == [xs[0]] + xs[1..];
      DropKeepsPrefix(xs[1..], m - 1, g);
      assert xs[..m] == [xs[0]] + xs[1..][..m - 1];
    }
  }

  /** Removing items none of which is among the first `m` items of `t`
      keeps those `m` items in place. */
  lemma PrunePrefix(d1: Doc, t: Handle, m: nat, gone: seq<Handle>)
    requires IsList(d1, t) && m <= |Items(d1, t)|
    requires forall k :: 0 <= k < m ==> Items(d1, t)[k] !in gone
    ensures var r := RemoveAll(d1, gone);
      IsList(r, t) && m <= |Items(r, t)| && Items(r, t)[..m] == Items(d1, t)[..m]
  {
    RemoveAllStore(d1, gone, t);
    DropKeepsPrefix(Items(d1, t), m, AsSet(gone));
  }

  /** Removing items of `t` that sat in no other list of `d` keeps the
      shape and touches only `t`. */
  lemma PruneFrame(d: Doc, d1: Doc, t: Handle, S: set<int>, gone: seq<Handle>)
    requires Tree(d) && Tree(d1) && IsList(d, t) && Frame(d, d1, S, t)
    requires forall h :: h in gone ==> h in Items(d, t) && IsItem(d1, h) && KeyOf(d1, h) !in S
    ensures Tree(RemoveAll(d1, gone)) && Frame(d1, RemoveAll(d1, gone), {}, t)
  {
    var r := RemoveAll(d1, gone);
    var G := AsSet(gone);
    RemoveAllTree(d1, gone);
    RemoveAllTop(d1, gone);
    RemoveAllLog(d1, gone);
    forall k: Handle | k < |d1.store| ensures r.store[k] == (if d1.store[k].List? then List(Drop(d1.store[k].items, G)) else d1.store[k]) {
      RemoveAllStore(d1, gone, k);
    }
    forall L: Handle | IsList(d1, L) && L != t ensures Items(r, L) == Items(d1, L) {
      forall x | x in Items(d1, L) ensures x !in G {
        if x in gone {
          GoneParent(d, d1, t, S, x, L);
        }
      }
      DropDisjoint(Items(d1, L), G);
    }
    forall L: Handle | IsList(d1, L) && L != t ensures IsList(r, L) && Shrunk(d1, Items(d1, L), Items(r, L), {}) {
      ShrunkSame(d1, Items(d1, L), {});
    }
    assert Extends(d1, r) by {
      forall h | 0 <= h < |d1.store| ensures SameKind(d1.store[h], r.store[h]) {
      }
    }
    forall L: Handle, x: Handle | IsList(r, L) && x in Items(r, L) ensures IsList(d1, L) && x in Items(d1, L) {
      assert r.store[L] == List(Drop(d1.store[L].items, G));
    }
  }

  /** An item of `t` in `d` whose id is outside `S` sits, after a step that
      kept `S`-free items in place, in no list but `t`. */
  lemma GoneParent(d: Doc, d1: Doc, t: Handle, S: set<int>, x: Handle, L: Handle)
    requires Tree(d) && IsList(d, t) && Frame(d, d1, S, t)
    requires x in Items(d, t) && IsItem(d1, x) && KeyOf(d1, x) !in S
    requires IsList(d1, L) && x in Items(d1, L)
    ensures L == t
  {
    assert Holds(d, t, x);
    KeepsInS(d, d1, x, S);
    assert IsList(d, L) && x in Items(d, L);
    assert Holds(d, L, x);
  }

  /** Pruning the original items of `t` whose ids left the forest touches
      only `t`, after its first `|nodes|` children. */
  lemma PruneOrder(d: Doc, d1: Doc, t: Handle, nodes: seq<TabTreeNode>, gone: seq<Handle>)
    requires Tree(d) && Tree(d1) && IsList(d, t) && Frame(d, d1, Ids(nodes), t) && Lays(d1, t, nodes)
    requires forall h :: h in gone ==> h in Items(d, t) && IsItem(d1, h) && KeyOf(d1, h) !in Ids(nodes)
    ensures var r := RemoveAll(d1, gone);
      Tree(r) && Frame(d1, r, {}, t) && IsList(r, t) && |nodes| <= |Items(r, t)|
      && Items(r, t)[..|nodes|] == Items(d1, t)[..|nodes|]
  {
    PruneFrame(d, d1, t, Ids(nodes), gone);
    var m := |nodes|;
    forall k | 0 <= k < m ensures Items(d1, t)[k] !in gone {
      assert LaysRow(d1, Items(d1, t)[k], nodes[k]);
      IdsOf(nodes, k);
      IdsOne(nodes[k]);
    }
    PrunePrefix(d1, t, m, gone);
  }

  /** `reconcile` on a list of a tree-shaped document, for a forest without
      repeated ids none of which is on the list's spine, never throws, keeps
      the shape, lays the list's first children out for the forest, and
      touches only the forest's ids and the lists below the list. */
  lemma {:induction false} ReconcileOrders(d: Doc, sp: seq<Handle>, A: set<int>, prev: seq<TabTreeNode>, nodes: seq<TabTreeNode>)
    requires Tree(d) && Spine(d, sp, A) && IsList(d, sp[0]) && DistinctIds(nodes) && Ids(nodes) !! A
    ensures Reconcile(d, sp[0], prev, nodes).Ok?
    ensures var r := Reconcile(d, sp[0], prev, nodes).value;
      Tree(r) && Lays(r, sp[0], nodes) && Frame(d, r, Ids(nodes), sp[0])
    decreases nodes, 1
  {
    var t := sp[0];
    var idx := RowIndex(d);
    assert nodes[..0] == [] && nodes[0..] == nodes;
    StepsOrder(d, sp, A, idx, prev, nodes, 0);
    var d1 := Steps(d, t, idx, prev, nodes, 0).value;
    var oldLis := RowsIn(d, Items(d, t));
    assert forall h :: h in oldLis ==> IsItem(d1, h) && KeyOf(d1, h) == KeyOf(d, h) by {
      forall h | h in oldLis ensures IsItem(d1, h) && KeyOf(d1, h) == KeyOf(d, h) {
        assert SameKind(d.store[h], d1.store[h]);
      }
    }
    PruneLays(d, d1, sp, A, nodes, oldLis);
  }

  /** The pruning at the end of `reconcile` takes out only items of `t` whose
      ids left the forest, so it keeps the shape, the layout of the forest
      at the front of `t`, and everything else. */
  lemma PruneLays(d: Doc, d1: Doc, sp: seq<Handle>, A: set<int>, nodes: seq<TabTreeNode>, oldLis: seq<Handle>)
    requires Tree(d) && Tree(d1) && Spine(d, sp, A) && IsList(d, sp[0]) && Ids(nodes) !! A
    requires Frame(d, d1, Ids(nodes), sp[0]) && Lays(d1, sp[0], nodes)
    requires oldLis == RowsIn(d, Items(d, sp[0])) && forall h :: h in oldLis ==> IsItem(d1, h) && KeyOf(d1, h) == KeyOf(d, h)
    ensures var r := Prune(d1, oldLis, nodes);
      Tree(r) && Lays(r, sp[0], nodes) && Frame(d, r, Ids(nodes), sp[0])
  {
    var t := sp[0];
    PruneRemoves(d1, oldLis, nodes);
    var gone := Pruned(d1, oldLis, nodes);
    PruneOrder(d, d1, t, nodes, gone);
    var r := RemoveAll(d1, gone);
    SpineKept(d, d1, sp, A, Ids(nodes));
    SpineNotHolding(d1, sp, A, Ids(nodes));
    EachNotHolding(d1, nodes, t);
    PrefixLaysKept(d1, r, t, nodes, {}, |nodes|);
    FrameWeaken(d1, r, {}, Ids(nodes), t);
    FrameTrans(d, d1, r, Ids(nodes), t);
  }


  /** `render` of a forest without repeated ids into a tree-shaped document
      never throws and keeps the shape; a non-empty forest is laid out, in
      order and at every depth, at the front of the list it renders into,
      which the container holds. */
  lemma RenderOrders(p: Panel, tree: seq<TabTreeNode>)
    requires Tree(p.doc) && DistinctIds(tree)
    ensures Render(p, tree).Ok? && Tree(Render(p, tree).value.doc)
    ensures tree != [] ==>
      var L := GetOrCreateList(p.doc).1;
      L in Render(p, tree).value.doc.top && Lays(Render(p, tree).value.doc, L, tree)
  {
    if tree == [] {
      ShowEmptyTree(p.doc);
    } else {
      MountTree(p.doc);
      var (d1, L) := GetOrCreateList(p.doc);
      var prev := if p.lastTree.Some? then p.lastTree.value else [];
      assert Spine(d1, [L], {});
      ReconcileOrders(d1, [L], {}, prev, tree);
    }
  }

  /** The panel before its first render: an empty container, nothing stored
      or logged, no previous forest. */
  function Blank(): Panel {
    Panel(Doc([], [], []), None)
  }

  /** The panel after rendering `trees` one after another, or the first
      exception one of them throws. */
  function RenderAll(p: Panel, trees: seq<seq<TabTreeNode>>): (r: Result<Panel>)
    ensures r.Ok? ==> Extends(p.doc, r.value.doc)
    decreases |trees|
  {
    if trees == [] then Ok(p)
    else
      match Render(p, trees[0])
      case Err(e) => Err(e)
      case Ok(q) =>
        var r := RenderAll(q, trees[1..]);
        if r.Ok? then ExtendsTrans(p.doc, q.doc, r.value.doc); r else r
  }

  /** Any run of renders of forests without repeated ids, from a tree-shaped
      panel, never throws and keeps the shape; when the last forest is not
      empty, a list the container holds lays it out. */
  lemma {:induction false} RenderAllOrders(p: Panel, trees: seq<seq<TabTreeNode>>)
    requires Tree(p.doc) && forall k :: 0 <= k < |trees| ==> DistinctIds(trees[k])
    ensures RenderAll(p, trees).Ok? && Tree(RenderAll(p, trees).value.doc)
    ensures trees != [] && trees[|trees| - 1] != [] ==>
      exists L: Handle :: L in RenderAll(p, trees).value.doc.top && Lays(RenderAll(p, trees).value.doc, L, trees[|trees| - 1])
    decreases |trees|
  {
    if trees != [] {
      RenderOrders(p, trees[0]);
      var q := Render(p, trees[0]).value;
      var rest := trees[1..];
      assert forall k :: 0 <= k < |rest| ==> DistinctIds(rest[k]) by {
        forall k | 0 <= k < |rest| ensures DistinctIds(rest[k]) {
          assert rest[k] == trees[k + 1];
        }
      }
      RenderAllOrders(q, rest);
      if rest == [] && trees[0] != [] {
        var L := GetOrCreateList(p.doc).1;
        assert L in RenderAll(p, trees).value.doc.top;
      } else if rest != [] {
        assert rest[|rest| - 1] == trees[|trees| - 1];
      }
    }
  }

  /** The blank panel is shaped like a tree, so every run of renders from it
      keeps rendering without an exception. */
  lemma BlankRuns(trees: seq<seq<TabTreeNode>>)
    requires forall k :: 0 <= k < |trees| ==> DistinctIds(trees[k])
    ensures RenderAll(Blank(), trees).Ok? && Tree(RenderAll(Blank(), trees).value.doc)
    ensures trees != [] && trees[|trees| - 1] != [] ==>
      exists L: Handle :: L in RenderAll(Blank(), trees).value.doc.top && Lays(RenderAll(Blank(), trees).value.doc, L, trees[|trees| - 1])
  {
    assert Tree(Blank().doc);
    RenderAllOrders(Blank(), trees);
  }
}
