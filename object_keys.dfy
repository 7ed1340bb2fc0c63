/**
 * Enumeration order of a JavaScript object whose keys are array indices:
 * `Object.keys` and `Object.values` visit such keys in ascending numeric order,
 * whatever the order in which they were inserted.
 */
module ObjectKeys {

  predicate IsLeast(m: nat, keys: set<nat>) {
    m in keys && forall x :: x in keys ==> m <= x
  }

  lemma LeastExists(keys: set<nat>)
    requires keys != {}
    ensures exists m :: IsLeast(m, keys)
    decreases |keys|
  {
    var y :| y in keys;
    if keys == {y} {
      assert IsLeast(y, keys);
    } else {
      var rest := keys - {y};
      LeastExists(rest);
      var m :| IsLeast(m, rest);
      var least := if y < m then y else m;
      forall x | x in keys ensures least <= x {
        if x != y { assert x in rest; }
      }
      assert IsLeast(least, keys);
    }
  }

  /** The smallest key of a non-empty key set. */
  function MinKey(keys: set<nat>): (m: nat)
    requires keys != {}
    ensures m in keys && forall x :: x in keys ==> m <= x
  {
    LeastExists(keys);
    var m :| IsLeast(m, keys); m
  }

  /** The keys in the order `Object.keys` lists them: ascending, each once. */
  function SortedKeys(keys: set<nat>): (r: seq<nat>)
    ensures |r| == |keys|
    ensures forall x :: x in keys <==> x in r
    ensures forall i, j :: 0 <= i < j < |r| ==> r[i] < r[j]
    decreases keys
  {
    if keys == {} then []
    else
      var m := MinKey(keys);
      [m] + SortedKeys(keys - {m})
  }
}
