/**
 * The two sorted lookups the backend asks of its database: the row with the
 * largest key (`findOne(…, { sort: { key: -1 } })`) and, for `find(…, { sort:
 * { key: 1 } })`, the first and last rows of the ascending result, that is,
 * the smallest and largest key.
 */
module Queries {

  /** The largest of a non-empty set of keys. */
  function MaxOf(keys: set<nat>): (m: nat)
    requires keys != {}
    ensures m in keys && forall k | k in keys :: k <= m
  {
    var w := Largest(keys);
    var m :| m in keys && forall k | k in keys :: k <= m;
    m
  }

  /** The smallest of a non-empty set of keys. */
  function MinOf(keys: set<nat>): (m: nat)
    requires keys != {}
    ensures m in keys && forall k | k in keys :: m <= k
  {
    var w := Smallest(keys);
    var m :| m in keys && forall k | k in keys :: m <= k;
    m
  }

  /** A largest key, picked by removing an arbitrary key. */
  ghost function Largest(keys: set<nat>): (m: nat)
    requires keys != {}
    ensures m in keys && forall k | k in keys :: k <= m
    decreases |keys|
  {
    var x :| x in keys;
    assert forall k | k in keys :: k == x || k in keys - {x};
    if keys - {x} == {} then x
    else
      var m := Largest(keys - {x});
      if m < x then x else m
  }

  /** A smallest key, picked by removing an arbitrary key. */
  ghost function Smallest(keys: set<nat>): (m: nat)
    requires keys != {}
    ensures m in keys && forall k | k in keys :: m <= k
    decreases |keys|
  {
    var x :| x in keys;
    assert forall k | k in keys :: k == x || k in keys - {x};
    if keys - {x} == {} then x
    else
      var m := Smallest(keys - {x});
      if x < m then x else m
  }
}
