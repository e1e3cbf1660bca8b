/** The opener relation of a window's tabs: which present tab opened which,
    how many opener hops lead from a tab to a root, and opener cycles. */
module Openers {
  import opened Tabs

  /** The builder's index from tab id to tab record (src/core/TabTreeBuilder.ts:16-18). */
  type TabMap = map<int, TabInfo>

  /** The tab `x` hangs under: its opener, provided the opener is itself in
      the index. A tab with no opener, or whose opener is absent, has none. */
  function Parent(m: TabMap, x: int): (r: Option<int>)
    ensures r.Some? <==> x in m && m[x].openerTabId.Some? && m[x].openerTabId.value in m
    ensures r.Some? ==> m[x].openerTabId == Some(r.value)
  {
    if x in m && m[x].openerTabId.Some? && m[x].openerTabId.value in m
    then Some(m[x].openerTabId.value)
    else None
  }

  /** The tab reached from `x` after `k` opener hops, if there is one. */
  function Anc(m: TabMap, x: int, k: nat): (r: Option<int>)
    ensures r.Some? ==> r.value in m
    decreases k
  {
    if k == 0 then (if x in m then Some(x) else None)
    else match Parent(m, x)
      case None => None
      case Some(p) => Anc(m, p, k - 1)
  }

  /** `k` opener hops lead from `x` to a tab with no parent: a root. */
  ghost predicate IsRootAt(m: TabMap, x: int, k: nat) {
    Anc(m, x, k).Some? && Parent(m, Anc(m, x, k).value).None?
  }

  /** Following openers from `x` ends at a root. */
  ghost predicate Rooted(m: TabMap, x: int) {
    exists k: nat :: IsRootAt(m, x, k)
  }

  /** Following openers from `x` comes back to `x`. */
  ghost predicate InCycle(m: TabMap, x: int) {
    exists k: nat :: k > 0 && Anc(m, x, k) == Some(x)
  }

  /** No tab of the index lies on an opener cycle (self-openers included). */
  ghost predicate Acyclic(m: TabMap) {
    forall x, k: nat :: k > 0 ==> Anc(m, x, k) != Some(x)
  }

  /** `y` is `x` or one of its openers' chain. */
  ghost predicate AncOrSelf(m: TabMap, y: int, x: int) {
    exists k: nat :: Anc(m, x, k) == Some(y)
  }

  /** A chain of distinct tabs from a root downwards, each the parent of the next. */
  ghost predicate ValidPath(m: TabMap, path: seq<int>) {
    (forall j :: 0 <= j < |path| ==> path[j] in m)
    && (path != [] ==> Parent(m, path[0]).None?)
    && (forall j :: 0 < j < |path| ==> Parent(m, path[j]) == Some(path[j - 1]))
    && (forall i, j :: 0 <= i < j < |path| ==> path[i] != path[j])
  }

  /** The parent a tab needs to extend `path`: its last tab, or none for an empty path. */
  function Last(path: seq<int>): (r: Option<int>)
    ensures r.None? <==> path == []
    ensures r.Some? ==> r.value in path
  {
    if path == [] then None else Some(path[|path| - 1])
  }

  /** The ids on a path. */
  function PathSet(path: seq<int>): (r: set<int>)
    ensures forall x :: x in r <==> x in path
  {
    set x | x in path
  }

  /** A tab whose parent ends a valid path is not on it, and extends it. */
  lemma ChildNotOnPath(m: TabMap, path: seq<int>, x: int)
    requires ValidPath(m, path) && x in m && Parent(m, x) == Last(path)
    ensures x !in path
    ensures ValidPath(m, path + [x])
    ensures |m.Keys - PathSet(path + [x])| < |m.Keys - PathSet(path)|
  {
    NotOnPath(m, path, x);
    PathGrows(m, path, x);
    PathShrinks(m, path, x);
  }

  lemma NotOnPath(m: TabMap, path: seq<int>, x: int)
    requires ValidPath(m, path) && x in m && Parent(m, x) == Last(path)
    ensures x !in path
  {
    forall j | 0 <= j < |path| ensures path[j] != x {
      if 0 < j {
        assert path[j - 1] != path[|path| - 1];
      }
    }
  }

  lemma PathGrows(m: TabMap, path: seq<int>, x: int)
    requires ValidPath(m, path) && x in m && x !in path && Parent(m, x) == Last(path)
    ensures ValidPath(m, path + [x])
  {
    var p := path + [x];
    forall j | 0 < j < |p| ensures Parent(m, p[j]) == Some(p[j - 1]) {
      if j < |path| {
        assert p[j] == path[j];
      }
    }
    forall i, j | 0 <= i < j < |p| ensures p[i] != p[j] {
      assert p[i] == path[i];
      if j < |path| {
        assert p[j] == path[j];
      }
    }
  }

  /** Extending a path by a tab not on it leaves fewer tabs off the path. */
  lemma PathShrinks(m: TabMap, path: seq<int>, x: int)
    requires x in m && x !in path
    ensures m.Keys - PathSet(path) == (m.Keys - PathSet(path + [x])) + {x}
    ensures |m.Keys - PathSet(path + [x])| < |m.Keys - PathSet(path)|
  {
    assert m.Keys - PathSet(path) == (m.Keys - PathSet(path + [x])) + {x};
  }

  /** The `j`-th tab of a valid path is a root reached in `j` hops. */
  lemma {:induction false} PathRooted(m: TabMap, path: seq<int>, j: nat)
    requires ValidPath(m, path) && j < |path|
    ensures Anc(m, path[j], j) == Some(path[0])
    ensures IsRootAt(m, path[j], j)
  {
    if j > 0 {
      PathRooted(m, path, j - 1);
    }
  }

  /** Hops compose: `a + b` hops are `a` hops, then `b` more. */
  lemma {:induction false} AncAdd(m: TabMap, x: int, a: nat, b: nat)
    ensures Anc(m, x, a + b) == (if Anc(m, x, a).Some? then Anc(m, Anc(m, x, a).value, b) else None)
    decreases a
  {
    if a == 0 {
      if x !in m && b > 0 {
        assert Parent(m, x).None?;
      }
    } else {
      match Parent(m, x)
      case None =>
      case Some(p) =>
        AncAdd(m, p, a - 1, b);
    }
  }

  /** One more hop is a step to the parent. */
  lemma AncStep(m: TabMap, x: int, k: nat)
    ensures Anc(m, x, k + 1) == (if Anc(m, x, k).Some? then Parent(m, Anc(m, x, k).value) else None)
  {
    AncAdd(m, x, k, 1);
    if Anc(m, x, k).Some? {
      var y := Anc(m, x, k).value;
      match Parent(m, y)
      case None =>
      case Some(p) => assert Anc(m, p, 0) == Some(p);
    }
  }

  /** A cycle through `x` returns to `x` arbitrarily far out. */
  lemma {:induction false} CycleBeyond(m: TabMap, x: int, j: nat, t: nat) returns (i: nat)
    requires j > 0 && Anc(m, x, j) == Some(x)
    ensures i >= t && Anc(m, x, i) == Some(x)
    decreases t
  {
    if t <= j {
      i := j;
    } else {
      var i0 := CycleBeyond(m, x, j, t - j);
      AncAdd(m, x, i0, j);
      i := i0 + j;
    }
  }

  /** Past its root, the opener chain of a tab has ended. */
  lemma RootedChainEnds(m: TabMap, x: int, k: nat, i: nat)
    requires IsRootAt(m, x, k) && i > k
    ensures Anc(m, x, i) == None
  {
    AncAdd(m, x, k, i - k);
  }

  /** A tab that reaches a root is not on a cycle. */
  lemma RootedNotInCycle(m: TabMap, x: int)
    ensures Rooted(m, x) ==> !InCycle(m, x)
  {
    if Rooted(m, x) && InCycle(m, x) {
      var k: nat :| IsRootAt(m, x, k);
      var j: nat :| j > 0 && Anc(m, x, j) == Some(x);
      var i := CycleBeyond(m, x, j, k + 1);
      RootedChainEnds(m, x, k, i);
      assert false;
    }
  }

  /** The number of hops from a tab to its root is determined by the tab. */
  lemma RootDepthUnique(m: TabMap, x: int, k: nat, k': nat)
    requires IsRootAt(m, x, k) && IsRootAt(m, x, k')
    ensures k == k'
  {
    if k < k' {
      RootedChainEnds(m, x, k, k');
      assert false;
    } else if k' < k {
      RootedChainEnds(m, x, k', k);
      assert false;
    }
  }

  /** Only a tab of the index has an opener chain. */
  lemma AncFromIndex(m: TabMap, x: int, k: nat)
    ensures Anc(m, x, k).Some? ==> x in m
  {
  }

  /** Of two tabs with the same parent on one opener chain, the lower one's
      parent lies on a cycle. */
  lemma SiblingAboveMakesCycle(m: TabMap, s: int, t: int, x: int, ks: nat, kt: nat)
    requires s in m && t in m && Parent(m, s) == Parent(m, t)
    requires Anc(m, x, ks) == Some(s) && Anc(m, x, kt) == Some(t) && ks < kt
    ensures Parent(m, s).Some? && InCycle(m, Parent(m, s).value)
  {
    var d := kt - ks;
    AncAdd(m, x, ks, d);
    match Parent(m, s)
    case None =>
      assert false;
    case Some(p) =>
      assert Anc(m, p, d - 1) == Some(t);
      AncAdd(m, p, d - 1, 1);
      assert Anc(m, p, d) == Some(p);
  }

  /** Two tabs with the same parent, that parent (if any) reaching a root,
      are never both on the opener chain of one tab unless they are equal. */
  lemma AtMostOneSiblingAncestor(m: TabMap, s: int, t: int, x: int)
    requires s in m && t in m && Parent(m, s) == Parent(m, t)
    requires Parent(m, s).Some? ==> Rooted(m, Parent(m, s).value)
    ensures AncOrSelf(m, s, x) && AncOrSelf(m, t, x) ==> s == t
  {
    if AncOrSelf(m, s, x) && AncOrSelf(m, t, x) {
      var ks: nat :| Anc(m, x, ks) == Some(s);
      var kt: nat :| Anc(m, x, kt) == Some(t);
      if ks < kt {
        SiblingAboveMakesCycle(m, s, t, x, ks, kt);
        RootedNotInCycle(m, Parent(m, s).value);
        assert false;
      } else if kt < ks {
        SiblingAboveMakesCycle(m, t, s, x, kt, ks);
        RootedNotInCycle(m, Parent(m, s).value);
        assert false;
      }
    }
  }

  /** The opener chain of `x` passes through `p` after at least one hop
      exactly when it passes through a tab whose parent is `p`. */
  lemma BelowVia(m: TabMap, p: int, x: int)
    ensures (exists k: nat :: k > 0 && Anc(m, x, k) == Some(p))
        <==> (exists c :: Parent(m, c) == Some(p) && AncOrSelf(m, c, x))
  {
    if k: nat :| k > 0 && Anc(m, x, k) == Some(p) {
      AncStep(m, x, k - 1);
      var c := Anc(m, x, k - 1).value;
      assert Parent(m, c) == Some(p);
      assert AncOrSelf(m, c, x);
    }
    if c :| Parent(m, c) == Some(p) && AncOrSelf(m, c, x) {
      var k: nat :| Anc(m, x, k) == Some(c);
      AncStep(m, x, k);
      assert Anc(m, x, k + 1) == Some(p);
    }
  }

  /** `z` is met within the first `k` hops from `x`. */
  ghost predicate MetWithin(m: TabMap, x: int, k: nat, z: int) {
    exists i: nat :: i <= k && Anc(m, x, i) == Some(z)
  }

  /** Climbing the opener chain from `x` without meeting a cycle: `seen`
      holds the tabs met in the first `k` hops. */
  lemma {:induction false} ClimbToRoot(m: TabMap, x: int, k: nat, seen: set<int>)
    requires Acyclic(m) && Anc(m, x, k).Some? && Anc(m, x, k).value in seen
    requires seen <= m.Keys
    requires forall z :: z in seen ==> MetWithin(m, x, k, z)
    ensures Rooted(m, x)
    decreases |m.Keys - seen|
  {
    var y := Anc(m, x, k).value;
    if Parent(m, y).None? {
      assert IsRootAt(m, x, k);
    } else {
      var p := Parent(m, y).value;
      ClimbStep(m, x, k, seen, p);
      assert m.Keys - seen == (m.Keys - (seen + {p})) + {p};
      ClimbToRoot(m, x, k + 1, seen + {p});
    }
  }

  /** One more hop meets a tab not met before, and every tab met so far is
      met within the longer climb. */
  lemma ClimbStep(m: TabMap, x: int, k: nat, seen: set<int>, p: int)
    requires Acyclic(m) && Anc(m, x, k).Some? && Anc(m, x, k).value in seen
    requires Parent(m, Anc(m, x, k).value) == Some(p)
    requires forall z :: z in seen ==> MetWithin(m, x, k, z)
    ensures p !in seen && Anc(m, x, k + 1) == Some(p)
    ensures forall z :: z in seen + {p} ==> MetWithin(m, x, k + 1, z)
  {
    AncStep(m, x, k);
    forall z | z in seen ensures z != p {
      assert MetWithin(m, x, k, z);
      var i: nat :| i <= k && Anc(m, x, i) == Some(z);
      AncAdd(m, x, i, k + 1 - i);
    }
    forall z | z in seen + {p} ensures MetWithin(m, x, k + 1, z) {
      if z == p {
        assert Anc(m, x, k + 1) == Some(z);
      } else {
        assert MetWithin(m, x, k, z);
        var i: nat :| i <= k && Anc(m, x, i) == Some(z);
        assert i <= k + 1;
      }
    }
  }

  /** Without opener cycles every tab of the index reaches a root. */
  lemma AcyclicRooted(m: TabMap, x: int)
    requires Acyclic(m) && x in m
    ensures Rooted(m, x)
  {
    assert Anc(m, x, 0) == Some(x);
    assert MetWithin(m, x, 0, x);
    ClimbToRoot(m, x, 0, {x});
  }
}
