/**
 * java.util.HashMap filled by successive `put` calls: a later entry under the
 * same key replaces an earlier one.
 */
module JavaUtil {

  /** The map left by putting each entry in order into an empty HashMap. */
  function LastWins<K, V>(entries: seq<(K, V)>): (m: map<K, V>)
    ensures m.Keys == set i | 0 <= i < |entries| :: entries[i].0
  {
    if entries == [] then map[]
    else
      var init := entries[..|entries| - 1];
      var last := entries[|entries| - 1];
      var m0 := LastWins(init);
      assert (set i | 0 <= i < |entries| :: entries[i].0) == (set i | 0 <= i < |init| :: init[i].0) + {last.0};
      m0[last.0 := last.1]
  }

  /** Each key is bound to the value of its last entry. */
  lemma {:induction false} LastWinsValue<K, V>(entries: seq<(K, V)>, i: nat)
    requires i < |entries|
    requires forall j :: i < j < |entries| ==> entries[j].0 != entries[i].0
    ensures entries[i].0 in LastWins(entries)
    ensures LastWins(entries)[entries[i].0] == entries[i].1
    decreases |entries|
  {
    if i < |entries| - 1 {
      var init := entries[..|entries| - 1];
      LastWinsValue(init, i);
    }
  }

  /** The positions, in increasing order, of the elements of `s` that satisfy `p`. */
  function Positions<T>(s: seq<T>, p: T -> bool): (ps: seq<nat>)
    ensures forall k :: 0 <= k < |ps| ==> ps[k] < |s| && p(s[ps[k]])
    ensures forall k, l :: 0 <= k < l < |ps| ==> ps[k] < ps[l]
    ensures forall i :: 0 <= i < |s| && p(s[i]) ==> i in ps
  {
    if s == [] then []
    else
      var init := Positions(s[..|s| - 1], p);
      if p(s[|s| - 1]) then init + [|s| - 1] else init
  }
}
