/**
 * The "nearest ahead" lookups: the code sorts a copy of a list by a key and then
 * takes the first element whose key lies strictly beyond the car's front edge.
 * The sort is modelled by its contract only (any permutation ordered by the key),
 * the scan with its early break exactly.
 */
module Lookup {
  import opened Wrappers
  import opened Entities

  /** s is ordered by key, as std::sort with a `key(lhs) < key(rhs)` comparator leaves it. */
  predicate SortedBy<T>(s: seq<T>, key: T -> real) {
    forall i, j :: 0 <= i < j < |s| ==> key(s[i]) <= key(s[j])
  }

  /**
   * r is a nearest element of s strictly ahead of front: a member whose key exceeds
   * front and is minimal among such keys; None exactly when no key exceeds front.
   * Among members with equal minimal key any one qualifies, as std::sort is not stable.
   */
  predicate IsNearest<T(==)>(s: seq<T>, key: T -> real, front: real, r: Option<T>) {
    match r
    case None => forall x :: x in s ==> key(x) <= front
    case Some(c) =>
      c in s && key(c) > front && forall x :: x in s && key(x) > front ==> key(c) <= key(x)
  }

  /** Index of the first element of s whose key exceeds front, or |s| when there is none. */
  function FirstAheadIndex<T>(s: seq<T>, key: T -> real, front: real): (k: nat)
    ensures k <= |s|
    ensures forall j :: 0 <= j < k ==> key(s[j]) <= front
    ensures k < |s| ==> key(s[k]) > front
  {
    if |s| == 0 then 0
    else if key(s[0]) > front then 0
    else 1 + FirstAheadIndex(s[1..], key, front)
  }

  /** The element the for-loop with `break` selects: the first one strictly ahead. */
  function FirstAhead<T(==)>(s: seq<T>, key: T -> real, front: real): (r: Option<T>)
    ensures r.Some? ==> r.value in s && key(r.value) > front
    ensures r.None? <==> forall j :: 0 <= j < |s| ==> key(s[j]) <= front
  {
    var k := FirstAheadIndex(s, key, front);
    if k < |s| then Some(s[k]) else None
  }

  /** The scan of main.cpp: walk the (sorted) copy and stop at the first element ahead. */
  method FindFirstAhead<T(==)>(s: seq<T>, key: T -> real, front: real) returns (r: Option<T>)
    ensures r == FirstAhead(s, key, front)
  {
    r := None;
    for i := 0 to |s|
      invariant r == None
      invariant forall j :: 0 <= j < i ==> key(s[j]) <= front
    {
      if key(s[i]) > front {
        r := Some(s[i]);
        assert FirstAheadIndex(s, key, front) == i;
        return;
      }
    }
    assert FirstAheadIndex(s, key, front) == |s|;
  }

  /**
   * Scanning any ordered permutation of a list yields a nearest element of the list
   * ahead of front: the sort-then-scan of main.cpp meets IsNearest, whatever order
   * the sort gives to elements with equal keys.
   */
  lemma FirstAheadOfSortedCopyIsNearest<T>(orig: seq<T>, sorted: seq<T>, key: T -> real, front: real)
    requires multiset(sorted) == multiset(orig)
    requires SortedBy(sorted, key)
    ensures IsNearest(orig, key, front, FirstAhead(sorted, key, front))
  {
    forall x | x in orig ensures x in sorted {
      assert x in multiset(orig);
    }
    forall x | x in sorted ensures x in orig {
      assert x in multiset(sorted);
    }
    var k := FirstAheadIndex(sorted, key, front);
    if k < |sorted| {
      forall x | x in orig && key(x) > front ensures key(sorted[k]) <= key(x) {
        var j :| 0 <= j < |sorted| && sorted[j] == x;
        assert k <= j;
      }
    }
  }

  /** Two nearest results agree on absence and on the key: ties differ only in other fields. */
  lemma NearestIsUniqueUpToKey<T>(s: seq<T>, key: T -> real, front: real, r1: Option<T>, r2: Option<T>)
    requires IsNearest(s, key, front, r1) && IsNearest(s, key, front, r2)
    ensures r1.None? <==> r2.None?
    ensures r1.Some? && r2.Some? ==> key(r1.value) == key(r2.value)
  {
  }

  /** The crosswalk lookup of main.cpp, keyed on the left edge lx. */
  method NearestCrosswalk(sortedCrosswalks: seq<Crosswalk>, car: Car, dims: Dims) returns (r: Option<Crosswalk>)
    ensures r == FirstAhead(sortedCrosswalks, CrosswalkKey, FrontEdge(car, dims))
    ensures r.Some? ==> r.value in sortedCrosswalks && r.value.lx > car.x + dims.length
  {
    r := FindFirstAhead(sortedCrosswalks, CrosswalkKey, FrontEdge(car, dims));
  }

  /** The obstacle lookup of main.cpp, keyed on the centre x. */
  method NearestObstacle(sortedObstacles: seq<Obstacle>, car: Car, dims: Dims) returns (r: Option<Obstacle>)
    ensures r == FirstAhead(sortedObstacles, ObstacleKey, FrontEdge(car, dims))
    ensures r.Some? ==> r.value in sortedObstacles && r.value.x > car.x + dims.length
  {
    r := FindFirstAhead(sortedObstacles, ObstacleKey, FrontEdge(car, dims));
  }
}
