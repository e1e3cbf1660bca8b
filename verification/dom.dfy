/** The part of the browser document the side panel's renderer works on,
    as a value: a store of elements addressed by handle, the children of
    the panel's container, and a log of the mutations made so far. Only the
    structure the renderer reads or writes is kept (class names, ARIA
    attributes and event handlers are not). */
module Dom {
  import opened Tabs
  import opened Entries

  /** An element's identity: its position in the store. */
  type Handle = nat

  /** `span.tab-label`: its text and its `title` attribute (the tooltip). */
  datatype Label = Label(text: string, tooltip: string)

  /** `img.tab-favicon`: its source and whether `display: none` hides it. */
  datatype Favicon = Favicon(src: string, hidden: bool)

  /** `div.tab-tree-row`: the active class, and the label and icon inside it
      (`None` when the row holds no such element). */
  datatype RowPart = RowPart(active: bool, caption: Option<Label>, icon: Option<Favicon>)

  /** The elements the renderer deals with:
      - `List`: a `ul.tab-tree` (the root list or a child list), its items in order;
      - `Item`: an `li` carrying `data-tab-id`, the `--depth` it shows, its row
        (`None` when it has none) and its direct child list, if any;
      - `Note`: the `p.tab-tree-empty` placeholder with its text. */
  datatype Element =
    | List(items: seq<Handle>)
    | Item(tabId: int, depth: int, row: Option<RowPart>, sub: Option<Handle>)
    | Note(text: string)

  /** A mutation of the document. `Mounted` is an append to the container;
      `Cleared` is `container.innerHTML = ""`. Style and class writes are
      not logged: they are visible in the elements themselves. */
  datatype Event =
    | Created(h: Handle)
    | Inserted(h: Handle, parent: Handle)
    | Mounted(h: Handle)
    | Removed(h: Handle)
    | LabelWritten(h: Handle)
    | FaviconWritten(h: Handle)
    | Cleared

  datatype Doc = Doc(store: seq<Element>, top: seq<Handle>, log: seq<Event>)

  /** The two exceptions `insertBefore` can throw. */
  datatype DomError = HierarchyRequest | NotFound

  datatype Result<T> = Ok(value: T) | Err(error: DomError)

  predicate IsList(d: Doc, h: Handle) {
    h < |d.store| && d.store[h].List?
  }

  predicate IsItem(d: Doc, h: Handle) {
    h < |d.store| && d.store[h].Item?
  }

  function Items(d: Doc, h: Handle): seq<Handle>
    requires IsList(d, h)
  {
    d.store[h].items
  }

  /** `li.dataset.tabId`. */
  function KeyOf(d: Doc, h: Handle): int
    requires IsItem(d, h)
  {
    d.store[h].tabId
  }

  /** Every handle of the store. */
  function Handles(d: Doc): (r: set<Handle>)
    ensures forall h: Handle :: h in r <==> h < |d.store|
  {
    Below(|d.store|)
  }

  function Below(n: nat): (r: set<Handle>)
    ensures forall h: Handle :: h in r <==> h < n
  {
    if n == 0 then {} else Below(n - 1) + {n - 1}
  }

  /** The element children of an element that can hold lists or items. */
  function Kids(e: Element): seq<Handle> {
    match e
    case List(items) => items
    case Item(_, _, _, sub) => if sub.Some? then [sub.value] else []
    case Note(_) => []
  }

  /** The elements at and below `hs`, in document order. `avail` holds the
      handles not yet on the path down from the container, which bounds the
      walk even in a store that is not a tree. */
  function Walk(s: seq<Element>, hs: seq<Handle>, avail: set<Handle>): (r: seq<Handle>)
    ensures forall h :: h in r ==> h < |s| && h in avail
    ensures forall h :: h in hs && h < |s| && h in avail ==> h in r
    ensures forall h, c :: h in r && h < |s| && c in Kids(s[h]) && c < |s| && c in avail && c != h ==> c in r
    decreases |avail|, |hs|
  {
    if hs == [] then []
    else
      var h := hs[0];
      (if h < |s| && h in avail then [h] + Walk(s, Kids(s[h]), avail - {h}) else [])
      + Walk(s, hs[1..], avail)
  }

  /** Everything inside the container, in document order. */
  function Contents(d: Doc): seq<Handle> {
    Walk(d.store, d.top, Handles(d))
  }

  /** The items among `hs`, in order. */
  function RowsIn(d: Doc, hs: seq<Handle>): (r: seq<Handle>)
    ensures forall h :: h in r <==> h in hs && IsItem(d, h)
    ensures |r| <= |hs|
  {
    if hs == [] then []
    else (if IsItem(d, hs[0]) then [hs[0]] else []) + RowsIn(d, hs[1..])
  }

  /** The rows are a subsequence of `hs` in document order: `pos` gives
      each row's position in `hs`, the positions increase, and every
      position holding an item is one of them. */
  lemma {:induction false} RowsInPositions(d: Doc, hs: seq<Handle>) returns (pos: seq<nat>)
    ensures |pos| == |RowsIn(d, hs)|
    ensures forall k :: 0 <= k < |pos| ==> pos[k] < |hs| && hs[pos[k]] == RowsIn(d, hs)[k]
    ensures forall k, l :: 0 <= k < l < |pos| ==> pos[k] < pos[l]
    ensures forall i :: 0 <= i < |hs| && IsItem(d, hs[i]) ==> i in pos
  {
    if hs == [] {
      pos := [];
    } else {
      var tail := RowsInPositions(d, hs[1..]);
      assert RowsIn(d, hs) == (if IsItem(d, hs[0]) then [hs[0]] else []) + RowsIn(d, hs[1..]);
      pos := ConsPositions(d, hs, RowsIn(d, hs), RowsIn(d, hs[1..]), tail);
    }
  }

  lemma ConsPositions(d: Doc, hs: seq<Handle>, rows: seq<Handle>, tailRows: seq<Handle>, tail: seq<nat>) returns (pos: seq<nat>)
    requires hs != [] && rows == (if IsItem(d, hs[0]) then [hs[0]] else []) + tailRows
    requires |tail| == |tailRows|
    requires forall k :: 0 <= k < |tail| ==> tail[k] < |hs[1..]| && hs[1..][tail[k]] == tailRows[k]
    requires forall k, l :: 0 <= k < l < |tail| ==> tail[k] < tail[l]
    requires forall i :: 0 <= i < |hs[1..]| && IsItem(d, hs[1..][i]) ==> i in tail
    ensures |pos| == |rows|
    ensures forall k :: 0 <= k < |pos| ==> pos[k] < |hs| && hs[pos[k]] == rows[k]
    ensures forall k, l :: 0 <= k < l < |pos| ==> pos[k] < pos[l]
    ensures forall i :: 0 <= i < |hs| && IsItem(d, hs[i]) ==> i in pos
  {
    var shifted := Shift(hs, tail, tailRows);
    forall i | 0 < i < |hs| && IsItem(d, hs[i]) ensures i in shifted {
      assert hs[1..][i - 1] == hs[i];
    }
    if IsItem(d, hs[0]) {
      pos := [0] + shifted;
      forall k | 0 < k < |pos| ensures pos[k] == shifted[k - 1] && rows[k] == tailRows[k - 1] {
      }
      forall i | 0 <= i < |hs| && IsItem(d, hs[i]) ensures i in pos {
        if i > 0 { assert i in shifted; }
      }
    } else {
      pos := shifted;
    }
  }

  /** Positions in `hs[1..]` moved to positions in `hs`. */
  lemma Shift(hs: seq<Handle>, tail: seq<nat>, rows: seq<Handle>) returns (shifted: seq<nat>)
    requires hs != [] && |tail| == |rows|
    requires forall k :: 0 <= k < |tail| ==> tail[k] < |hs[1..]| && hs[1..][tail[k]] == rows[k]
    requires forall k, l :: 0 <= k < l < |tail| ==> tail[k] < tail[l]
    ensures |shifted| == |rows|
    ensures forall k :: 0 <= k < |shifted| ==> 0 < shifted[k] < |hs| && hs[shifted[k]] == rows[k]
    ensures forall k, l :: 0 <= k < l < |shifted| ==> shifted[k] < shifted[l]
    ensures forall i :: 0 < i < |hs| && i - 1 in tail ==> i in shifted
  {
    shifted := seq(|tail|, k requires 0 <= k < |tail| => tail[k] + 1);
    forall i | 0 < i < |hs| && i - 1 in tail ensures i in shifted {
      var k :| 0 <= k < |tail| && tail[k] == i - 1;
      assert shifted[k] == i;
    }
  }

  lemma {:induction false} RowsInConcat(d: Doc, a: seq<Handle>, b: seq<Handle>)
    ensures RowsIn(d, a + b) == RowsIn(d, a) + RowsIn(d, b)
  {
    if a != [] {
      var x := if IsItem(d, a[0]) then [a[0]] else [];
      RowsInHead(d, a, b);
      RowsInConcat(d, a[1..], b);
      Assoc(x, RowsIn(d, a[1..]), RowsIn(d, b));
    } else {
      assert a + b == b;
    }
  }

  lemma RowsInHead(d: Doc, a: seq<Handle>, b: seq<Handle>)
    requires a != []
    ensures RowsIn(d, a + b) == (if IsItem(d, a[0]) then [a[0]] else []) + RowsIn(d, a[1..] + b)
  {
    assert (a + b)[0] == a[0] && (a + b)[1..] == a[1..] + b;
  }

  lemma Assoc<T>(x: seq<T>, y: seq<T>, z: seq<T>)
    ensures x + (y + z) == (x + y) + z
  {
  }

  /** The tab ids the rows of `rows` carry, in order. */
  function RowKeys(d: Doc, rows: seq<Handle>): (r: seq<int>)
    requires forall h :: h in rows ==> IsItem(d, h)
    ensures |r| == |rows|
    ensures forall k :: 0 <= k < |rows| ==> r[k] == KeyOf(d, rows[k])
  {
    if rows == [] then [] else [KeyOf(d, rows[0])] + RowKeys(d, rows[1..])
  }

  /** `new Map(rows.map(li => [li.dataset.tabId, li]))`: every id a row of
      `rows` carries is a key, it leads to a row with that id, and for an id
      carried by several rows the last one wins. */
  function IndexRows(d: Doc, rows: seq<Handle>): (m: map<int, Handle>)
    requires forall h :: h in rows ==> IsItem(d, h)
    ensures forall x :: x in m <==> exists h :: h in rows && KeyOf(d, h) == x
    ensures forall x :: x in m ==> m[x] in rows && KeyOf(d, m[x]) == x
    ensures forall i :: 0 <= i < |rows| && (forall j :: i < j < |rows| ==> KeyOf(d, rows[j]) != KeyOf(d, rows[i]))
              ==> m[KeyOf(d, rows[i])] == rows[i]
  {
    var es := seq(|rows|, i requires 0 <= i < |rows| => (KeyOf(d, rows[i]), rows[i]));
    RowEntries(d, rows, es);
    FromEntries(es)
  }

  lemma RowEntries(d: Doc, rows: seq<Handle>, es: seq<(int, Handle)>)
    requires forall h :: h in rows ==> IsItem(d, h)
    requires |es| == |rows| && forall i :: 0 <= i < |rows| ==> es[i] == (KeyOf(d, rows[i]), rows[i])
    ensures forall x :: x in FromEntries(es) <==> exists h :: h in rows && KeyOf(d, h) == x
    ensures forall x :: x in FromEntries(es) ==> FromEntries(es)[x] in rows && KeyOf(d, FromEntries(es)[x]) == x
    ensures forall i :: 0 <= i < |rows| && (forall j :: i < j < |rows| ==> KeyOf(d, rows[j]) != KeyOf(d, rows[i]))
              ==> FromEntries(es)[KeyOf(d, rows[i])] == rows[i]
  {
    var m := FromEntries(es);
    forall x | x in m ensures m[x] in rows && KeyOf(d, m[x]) == x {
      RowEntryValue(d, rows, es, m, x);
    }
    forall x ensures x in m <==> exists h :: h in rows && KeyOf(d, h) == x {
      if h :| h in rows && KeyOf(d, h) == x {
        RowEntryKey(d, rows, es, m, h);
      }
    }
    forall i | 0 <= i < |rows| && (forall j :: i < j < |rows| ==> KeyOf(d, rows[j]) != KeyOf(d, rows[i]))
      ensures m[KeyOf(d, rows[i])] == rows[i]
    {
      assert LastWithKey(es, i);
    }
  }

  lemma RowEntryValue(d: Doc, rows: seq<Handle>, es: seq<(int, Handle)>, m: map<int, Handle>, x: int)
    requires forall h :: h in rows ==> IsItem(d, h)
    requires |es| == |rows| && forall i :: 0 <= i < |rows| ==> es[i] == (KeyOf(d, rows[i]), rows[i])
    requires x in m && exists i :: 0 <= i < |es| && es[i].0 == x && m[x] == es[i].1
    ensures m[x] in rows && KeyOf(d, m[x]) == x
  {
    var i :| 0 <= i < |es| && es[i].0 == x && m[x] == es[i].1;
  }

  lemma RowEntryKey(d: Doc, rows: seq<Handle>, es: seq<(int, Handle)>, m: map<int, Handle>, h: Handle)
    requires forall h :: h in rows ==> IsItem(d, h)
    requires |es| == |rows| && forall i :: 0 <= i < |rows| ==> es[i] == (KeyOf(d, rows[i]), rows[i])
    requires m.Keys == set i | 0 <= i < |es| :: es[i].0
    requires h in rows
    ensures KeyOf(d, h) in m
  {
    var i :| 0 <= i < |rows| && rows[i] == h;
    assert es[i].0 == KeyOf(d, h);
  }

  /** The first list among `hs`: `querySelector("ul.tab-tree")` over them. */
  function FirstList(d: Doc, hs: seq<Handle>): (r: Option<Handle>)
    ensures r.None? <==> forall h :: h in hs ==> !IsList(d, h)
    ensures r.Some? ==> IsList(d, r.value)
    ensures r.Some? ==> exists k :: 0 <= k < |hs| && hs[k] == r.value && forall j :: 0 <= j < k ==> !IsList(d, hs[j])
  {
    if hs == [] then None
    else if IsList(d, hs[0]) then Some(hs[0])
    else
      var r := FirstList(d, hs[1..]);
      if r.Some? then
        var k :| 0 <= k < |hs[1..]| && hs[1..][k] == r.value && forall j :: 0 <= j < k ==> !IsList(d, hs[1..][j]);
        assert hs[k + 1] == r.value;
        r
      else r
  }

  /** `xs` with every occurrence of `h` taken out. */
  function Without(xs: seq<Handle>, h: Handle): (r: seq<Handle>)
    ensures forall x :: x in r <==> x in xs && x != h
    ensures |r| <= |xs|
    ensures h !in xs ==> r == xs
  {
    if xs == [] then []
    else
      assert xs == [xs[0]] + xs[1..];
      (if xs[0] == h then [] else [xs[0]]) + Without(xs[1..], h)
  }

  /** `h` taken out of whatever list (or the container) holds it. */
  function Detach(d: Doc, h: Handle): (r: Doc)
    ensures |r.store| == |d.store| && r.log == d.log && r.top == Without(d.top, h)
    ensures forall k :: 0 <= k < |d.store| && !d.store[k].List? ==> r.store[k] == d.store[k]
    ensures forall k :: 0 <= k < |d.store| && d.store[k].List? ==> r.store[k] == List(Without(d.store[k].items, h))
  {
    var s := seq(|d.store|, k requires 0 <= k < |d.store| =>
      if d.store[k].List? then List(Without(d.store[k].items, h)) else d.store[k]);
    Doc(s, Without(d.top, h), d.log)
  }

  /** The position of `ref` in `xs`, or `|xs|` when `ref` is null or absent. */
  function SlotOf(xs: seq<Handle>, ref: Option<Handle>): (p: nat)
    ensures p <= |xs|
    ensures p < |xs| <==> ref.Some? && ref.value in xs
    ensures p < |xs| ==> xs[p] == ref.value && ref.value !in xs[..p]
  {
    if xs == [] || ref.None? then |xs|
    else if xs[0] == ref.value then 0
    else
      assert xs == [xs[0]] + xs[1..];
      assert xs[..1 + SlotOf(xs[1..], ref)] == [xs[0]] + xs[1..][..SlotOf(xs[1..], ref)];
      1 + SlotOf(xs[1..], ref)
  }

  /** How often `h` occurs in `xs`. */
  function Count(xs: seq<Handle>, h: Handle): nat {
    multiset(xs)[h]
  }

  /** `parent.insertBefore(node, ref)` (`ref` null appends). It throws when
      `parent` is `node` or lies inside it, and when `ref` is not a child of
      `parent`; otherwise `node` leaves its old place and lands right before
      `ref`, every other child of every list keeping its order. When `ref` is
      `node` itself, the DOM inserts before `node`'s next sibling instead, so
      in a list without repeats `node` stays where it is. */
  function InsertBefore(d: Doc, parent: Handle, node: Handle, ref: Option<Handle>): (r: Result<Doc>)
    requires IsList(d, parent) && node < |d.store|
    ensures r == Err(HierarchyRequest) <==> parent in Walk(d.store, [node], Handles(d))
    ensures r == Err(NotFound) <==> parent !in Walk(d.store, [node], Handles(d)) && ref.Some? && ref.value !in Items(d, parent)
    ensures r.Ok? ==> |r.value.store| == |d.store| && r.value.top == Without(d.top, node)
    ensures r.Ok? ==> r.value.log == d.log + [Inserted(node, parent)]
    ensures r.Ok? ==> IsList(r.value, parent) && Extends(d, r.value)
    ensures r.Ok? ==> Without(Items(r.value, parent), node) == Without(Items(d, parent), node)
    ensures r.Ok? ==> Count(Items(r.value, parent), node) == 1
    ensures r.Ok? ==> ref.None? ==> Items(r.value, parent)[|Items(r.value, parent)| - 1] == node
    ensures r.Ok? ==> ref.Some? && ref.value != node ==>
              exists k :: 0 <= k < |Items(r.value, parent)| - 1 && Items(r.value, parent)[k] == node
                          && Items(r.value, parent)[k + 1] == ref.value
    ensures r.Ok? ==> ref == Some(node) && Distinct(Items(d, parent)) ==> Items(r.value, parent) == Items(d, parent)
    ensures r.Ok? ==> forall k :: 0 <= k < |d.store| && k != parent ==>
              r.value.store[k] == (if d.store[k].List? then List(Without(d.store[k].items, node)) else d.store[k])
  {
    if parent in Walk(d.store, [node], Handles(d)) then Err(HierarchyRequest)
    else if ref.Some? && ref.value !in Items(d, parent) then Err(NotFound)
    else
      var ref' := if ref == Some(node) then NextSibling(Items(d, parent), node) else ref;
      PlacedFrame(d, parent, node, ref');
      PlacedItems(d, parent, node, ref');
      assert ref == Some(node) && Distinct(Items(d, parent)) ==>
               Splice(Without(Items(d, parent), node), node, ref') == Items(d, parent) by {
        if ref == Some(node) && Distinct(Items(d, parent)) {
          StaysPut(Items(d, parent), node);
        }
      }
      Ok(Placed(d, parent, node, ref'))
  }

  /** No handle occurs twice. */
  predicate Distinct(hs: seq<Handle>) {
    forall a, b :: 0 <= a < b < |hs| ==> hs[a] != hs[b]
  }

  /** `node.nextSibling` for the first occurrence of `node` in `xs`. */
  function NextSibling(xs: seq<Handle>, node: Handle): Option<Handle> {
    var p := SlotOf(xs, Some(node));
    if p + 1 < |xs| then Some(xs[p + 1]) else None
  }

  /** Inserting a child of a list without repeats before its own next sibling
      gives the list back. */
  lemma StaysPut(xs: seq<Handle>, node: Handle)
    requires node in xs && Distinct(xs)
    ensures node !in Without(xs, node)
    ensures Splice(Without(xs, node), node, NextSibling(xs, node)) == xs
  {
    var p := SlotOf(xs, Some(node));
    var a, b := xs[..p], xs[p + 1..];
    SplitAt(xs, p);
    if b != [] {
      SlotAfter(a, b);
      assert NextSibling(xs, node) == Some(b[0]);
    }
    CutOut(a, node, b);
  }

  /** Around the position of a handle in a list without repeats. */
  lemma SplitAt(xs: seq<Handle>, p: nat)
    requires Distinct(xs) && p < |xs|
    ensures xs == xs[..p] + [xs[p]] + xs[p + 1..]
    ensures xs[p] !in xs[..p] && xs[p] !in xs[p + 1..]
    ensures p + 1 < |xs| ==> xs[p + 1] !in xs[..p]
  {
    assert xs == xs[..p] + [xs[p]] + xs[p + 1..];
    forall j | 0 <= j < p ensures xs[..p][j] != xs[p] && (p + 1 < |xs| ==> xs[..p][j] != xs[p + 1]) {
      assert xs[..p][j] == xs[j];
    }
    var b := xs[p + 1..];
    forall j | 0 <= j < |b| ensures b[j] != xs[p] {
      assert b[j] == xs[p + 1 + j];
    }
  }

  /** Taking out `node` from `a + [node] + b` and splicing it back before the
      first element of `b` (or at the end) restores the sequence. */
  lemma CutOut(a: seq<Handle>, node: Handle, b: seq<Handle>)
    requires node !in a && node !in b
    requires b != [] ==> SlotOf(a + b, Some(b[0])) == |a|
    ensures Without(a + [node] + b, node) == a + b
    ensures Splice(a + b, node, if b == [] then None else Some(b[0])) == a + [node] + b
  {
    WithoutConcat(a + [node], b, node);
    WithoutConcat(a, [node], node);
    assert Without([node], node) == [];
    var ys := a + b;
    var ref := if b == [] then None else Some(b[0]);
    assert SlotOf(ys, ref) == |a|;
    SpliceIs(ys, node, ref);
    assert ys[..|a|] == a && ys[|a|..] == b;
  }

  lemma SpliceIs(xs: seq<Handle>, node: Handle, ref: Option<Handle>)
    requires node !in xs
    ensures Splice(xs, node, ref) == xs[..SlotOf(xs, ref)] + [node] + xs[SlotOf(xs, ref)..]
  {
  }

  /** The position of the first element of `b` in `a + b`, when `a` lacks it. */
  lemma {:induction false} SlotAfter(a: seq<Handle>, b: seq<Handle>)
    requires b != [] && b[0] !in a
    ensures SlotOf(a + b, Some(b[0])) == |a|
  {
    if a != [] {
      assert (a + b)[1..] == a[1..] + b;
      SlotAfter(a[1..], b);
    }
  }

  /** The document after a successful `insertBefore`. */
  function Placed(d: Doc, parent: Handle, node: Handle, ref: Option<Handle>): Doc
    requires IsList(d, parent) && node < |d.store|
  {
    var d1 := Detach(d, node);
    Doc(d1.store[parent := List(Splice(d1.store[parent].items, node, ref))], d1.top, d1.log + [Inserted(node, parent)])
  }

  /** Everything outside `parent` is as `Detach` left it. */
  lemma PlacedFrame(d: Doc, parent: Handle, node: Handle, ref: Option<Handle>)
    requires IsList(d, parent) && node < |d.store|
    ensures var r := Placed(d, parent, node, ref);
      && |r.store| == |d.store| && r.top == Without(d.top, node)
      && r.log == d.log + [Inserted(node, parent)]
      && IsList(r, parent) && Extends(d, r)
      && (forall k :: 0 <= k < |d.store| && k != parent ==>
            r.store[k] == (if d.store[k].List? then List(Without(d.store[k].items, node)) else d.store[k]))
  {
  }

  /** The parent's children are its other children with `node` spliced in. */
  lemma PlacedItems(d: Doc, parent: Handle, node: Handle, ref: Option<Handle>)
    requires IsList(d, parent) && node < |d.store|
    ensures Without(Items(d, parent), node) == Detach(d, node).store[parent].items
    ensures Items(Placed(d, parent, node, ref), parent) == Splice(Without(Items(d, parent), node), node, ref)
  {
  }

  /** `node` put right before `ref` in `xs`, or at the end. */
  function Splice(xs: seq<Handle>, node: Handle, ref: Option<Handle>): (ys: seq<Handle>)
    requires node !in xs
    ensures Without(ys, node) == xs
    ensures Count(ys, node) == 1
    ensures ref.None? ==> ys[|ys| - 1] == node
    ensures ref.Some? && ref.value in xs ==> exists k :: 0 <= k < |ys| - 1 && ys[k] == node && ys[k + 1] == ref.value
  {
    var p := SlotOf(xs, ref);
    var ys := xs[..p] + [node] + xs[p..];
    SpliceAt(xs, node, p);
    assert |ys| == |xs| + 1 && ys[p] == node;
    assert p < |xs| ==> ys[p + 1] == xs[p];
    ys
  }

  /** Where `insertBefore` puts `node`: at the position of `ref` among the
      parent's other children, or at the end. */
  lemma InsertAt(d: Doc, parent: Handle, node: Handle, ref: Option<Handle>)
    requires IsList(d, parent) && node < |d.store|
    ensures var r, xs := InsertBefore(d, parent, node, ref), Without(Items(d, parent), node);
      r.Ok? && ref != Some(node) ==> Items(r.value, parent) == xs[..SlotOf(xs, ref)] + [node] + xs[SlotOf(xs, ref)..]
  {
  }

  lemma SpliceAt(xs: seq<Handle>, node: Handle, p: nat)
    requires node !in xs && p <= |xs|
    ensures Without(xs[..p] + [node] + xs[p..], node) == xs
    ensures Count(xs[..p] + [node] + xs[p..], node) == 1
  {
    var a, b := xs[..p], xs[p..];
    assert xs == a + b;
    assert node !in a && node !in b;
    WithoutConcat(a + [node], b, node);
    WithoutConcat(a, [node], node);
    assert Without([node], node) == [];
    assert multiset(a + [node] + b) == multiset(a) + multiset{node} + multiset(b);
    assert multiset(xs) == multiset(a) + multiset(b);
  }

  lemma {:induction false} WithoutConcat(a: seq<Handle>, b: seq<Handle>, h: Handle)
    ensures Without(a + b, h) == Without(a, h) + Without(b, h)
  {
    if a != [] {
      assert (a + b)[1..] == a[1..] + b;
      WithoutConcat(a[1..], b, h);
    } else {
      assert a + b == b;
    }
  }

  /** `el.remove()`: the element leaves its parent; nothing else changes. */
  function Remove(d: Doc, h: Handle): (r: Doc)
    ensures |r.store| == |d.store| && r.top == Without(d.top, h) && r.log == d.log + [Removed(h)]
    ensures Extends(d, r)
    ensures forall k :: 0 <= k < |d.store| ==>
              r.store[k] == (if d.store[k].List? then List(Without(d.store[k].items, h)) else d.store[k])
  {
    var d1 := Detach(d, h);
    d1.(log := d1.log + [Removed(h)])
  }

  /** `document.createElement`: a new element under a handle no one has yet. */
  function Alloc(d: Doc, e: Element): (r: (Doc, Handle))
    ensures r.1 == |d.store| && r.0.store == d.store + [e]
    ensures r.0.top == d.top && r.0.log == d.log + [Created(r.1)]
  {
    (Doc(d.store + [e], d.top, d.log + [Created(|d.store|)]), |d.store|)
  }

  /** `list.appendChild(h)` for an element that has no parent yet. */
  function AppendFresh(d: Doc, list: Handle, h: Handle): (r: Doc)
    requires IsList(d, list)
    ensures IsList(r, list) && Items(r, list) == Items(d, list) + [h]
    ensures |r.store| == |d.store| && r.top == d.top && r.log == d.log + [Inserted(h, list)]
    ensures forall k :: 0 <= k < |d.store| && k != list ==> r.store[k] == d.store[k]
  {
    Doc(d.store[list := List(Items(d, list) + [h])], d.top, d.log + [Inserted(h, list)])
  }

  /** The elements of `d` are still in `r`, each of the same kind, every
      item with its tab id; and the log has only grown. */
  ghost predicate Extends(d: Doc, r: Doc) {
    |d.store| <= |r.store|
    && (forall h :: 0 <= h < |d.store| ==> SameKind(d.store[h], r.store[h]))
    && d.log <= r.log
  }

  predicate SameKind(a: Element, b: Element) {
    (a.List? && b.List?) || (a.Note? && b.Note?) || (a.Item? && b.Item? && a.tabId == b.tabId)
  }

  lemma ExtendsTrans(a: Doc, b: Doc, c: Doc)
    requires Extends(a, b) && Extends(b, c)
    ensures Extends(a, c)
  {
  }
}
