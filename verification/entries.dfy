/** `new Map(entries)`: both the tab index of the builder and the row index of
    the renderer are built this way, so a later entry overwrites an earlier
    one with the same key. */
module Entries {

  /** Key `es[i].0` is not repeated after position `i`. */
  ghost predicate LastWithKey<K, V>(es: seq<(K, V)>, i: int)
    requires 0 <= i < |es|
  {
    forall j :: i < j < |es| ==> es[j].0 != es[i].0
  }

  function FromEntries<K, V>(es: seq<(K, V)>): (m: map<K, V>)
    ensures m.Keys == set i | 0 <= i < |es| :: es[i].0
    ensures forall i :: 0 <= i < |es| && LastWithKey(es, i) ==> m[es[i].0] == es[i].1
    ensures forall k :: k in m ==> exists i :: 0 <= i < |es| && es[i].0 == k && m[k] == es[i].1
  {
    if es == [] then map[]
    else
      var m0 := FromEntries(es[..|es| - 1]);
      SnocEntries(es, es[..|es| - 1], m0);
      m0[es[|es| - 1].0 := es[|es| - 1].1]
  }

  /** Adding the last entry to the map of all the others gives the map of
      the whole sequence. */
  lemma SnocEntries<K, V>(es: seq<(K, V)>, init: seq<(K, V)>, m0: map<K, V>)
    requires es != [] && init == es[..|es| - 1]
    requires m0.Keys == set i | 0 <= i < |init| :: init[i].0
    requires forall i :: 0 <= i < |init| && LastWithKey(init, i) ==> m0[init[i].0] == init[i].1
    requires forall k :: k in m0 ==> exists i :: 0 <= i < |init| && init[i].0 == k && m0[k] == init[i].1
    ensures var m := m0[es[|es| - 1].0 := es[|es| - 1].1];
      && m.Keys == (set i | 0 <= i < |es| :: es[i].0)
      && (forall i :: 0 <= i < |es| && LastWithKey(es, i) ==> m[es[i].0] == es[i].1)
      && (forall k :: k in m ==> exists i :: 0 <= i < |es| && es[i].0 == k && m[k] == es[i].1)
  {
    var last := es[|es| - 1];
    var m := m0[last.0 := last.1];
    assert forall i :: 0 <= i < |init| ==> init[i] == es[i];
    assert m.Keys == set i | 0 <= i < |es| :: es[i].0 by {
      forall k | k in m.Keys ensures k in set i | 0 <= i < |es| :: es[i].0 {
        if k != last.0 {
          var i :| 0 <= i < |init| && init[i].0 == k;
          assert es[i].0 == k;
        }
      }
    }
    forall i | 0 <= i < |es| && LastWithKey(es, i) ensures m[es[i].0] == es[i].1 {
      if i < |es| - 1 {
        assert LastWithKey(init, i);
      }
    }
    forall k | k in m ensures exists i :: 0 <= i < |es| && es[i].0 == k && m[k] == es[i].1 {
      if k == last.0 {
        assert es[|es| - 1].0 == k;
      } else {
        var i :| 0 <= i < |init| && init[i].0 == k && m0[k] == init[i].1;
        assert es[i].0 == k;
      }
    }
  }
}
