/** Sorting by distance, and what it means to be the nearest of a set. `dist` gives the distance of an element. */
module NearestFirst {

  ghost predicate Ascending<T>(xs: seq<T>, dist: T -> nat) {
    forall i, j :: 0 <= i < j < |xs| ==> dist(xs[i]) < dist(xs[j])
  }

  /** A stable sort, by insertion. */
  function InsertNear<T>(x: T, xs: seq<T>, dist: T -> nat): seq<T> {
    if xs == [] || dist(x) <= dist(xs[0]) then [x] + xs else [xs[0]] + InsertNear(x, xs[1..], dist)
  }

  function SortNear<T>(xs: seq<T>, dist: T -> nat): seq<T> {
    if xs == [] then [] else InsertNear(xs[0], SortNear(xs[1..], dist), dist)
  }

  function Take<T>(s: seq<T>, n: nat): seq<T> {
    if n < |s| then s[..n] else s
  }

  /** `q` lists, nearest first, the elements of `pool` that are nearest, as many as `limit` allows. */
  ghost predicate NearestOf<T>(q: seq<T>, pool: set<T>, dist: T -> nat, limit: nat) {
    && Ascending(q, dist) && |q| <= limit
    && (forall x :: x in q ==> x in pool)
    && (forall x, y :: x in pool && x !in q && y in q ==> dist(y) < dist(x))
    && (|q| < limit ==> forall x :: x in pool ==> x in q)
  }

  ghost predicate DistinctDistances<T>(xs: seq<T>, dist: T -> nat) {
    forall i, j :: 0 <= i < j < |xs| ==> dist(xs[i]) != dist(xs[j])
  }

  lemma {:induction false} InsertNearMember<T>(x: T, xs: seq<T>, dist: T -> nat, y: T)
    ensures y in InsertNear(x, xs, dist) <==> y == x || y in xs
    decreases |xs|
  {
    if xs != [] {
      InsertNearMember(x, xs[1..], dist, y);
      assert y in xs <==> y == xs[0] || y in xs[1..];
    }
  }

  lemma {:induction false} InsertNearSorted<T>(x: T, xs: seq<T>, dist: T -> nat)
    requires Ascending(xs, dist) && forall y :: y in xs ==> dist(y) != dist(x)
    ensures Ascending(InsertNear(x, xs, dist), dist)
    decreases |xs|
  {
    if xs != [] {
      assert xs[0] in xs;
      if dist(x) > dist(xs[0]) {
        InsertNearSorted(x, xs[1..], dist);
        var r := InsertNear(x, xs[1..], dist);
        forall j | 0 <= j < |r| ensures dist(xs[0]) < dist(r[j]) {
          assert r[j] in r;
          InsertNearMember(x, xs[1..], dist, r[j]);
        }
      }
    }
  }

  lemma {:induction false} SortNearMember<T>(xs: seq<T>, dist: T -> nat, y: T)
    ensures y in SortNear(xs, dist) <==> y in xs
    decreases |xs|
  {
    if xs != [] {
      SortNearMember(xs[1..], dist, y);
      InsertNearMember(xs[0], SortNear(xs[1..], dist), dist, y);
      assert y in xs <==> y == xs[0] || y in xs[1..];
    }
  }

  lemma {:induction false} SortNearSorted<T>(xs: seq<T>, dist: T -> nat)
    requires DistinctDistances(xs, dist)
    ensures Ascending(SortNear(xs, dist), dist)
    decreases |xs|
  {
    if xs != [] {
      SortNearSorted(xs[1..], dist);
      forall y | y in SortNear(xs[1..], dist) ensures dist(y) != dist(xs[0]) {
        SortNearMember(xs[1..], dist, y);
        var i :| 0 <= i < |xs| - 1 && xs[1..][i] == y;
        assert xs[i + 1] == y;
      }
      InsertNearSorted(xs[0], SortNear(xs[1..], dist), dist);
    }
  }

  /** The first entries of an ascending list of a set are its nearest elements. */
  lemma TakeIsNearest<T>(sorted: seq<T>, pool: set<T>, dist: T -> nat, limit: nat)
    requires Ascending(sorted, dist) && forall x :: x in pool <==> x in sorted
    ensures NearestOf(Take(sorted, limit), pool, dist, limit)
  {
    var q := Take(sorted, limit);
    assert forall m :: 0 <= m < |q| ==> q[m] == sorted[m];
    forall x, y | x in pool && x !in q && y in q ensures dist(y) < dist(x) {
      var i :| 0 <= i < |sorted| && sorted[i] == x;
      var j :| 0 <= j < |q| && q[j] == y;
    }
    forall x | x in q ensures x in pool {
      var j :| 0 <= j < |q| && q[j] == x;
    }
  }

  /** Where no two elements are equally far, there is only one list of the nearest. */
  lemma NearestUnique<T>(q: seq<T>, r: seq<T>, pool: set<T>, dist: T -> nat, limit: nat)
    requires NearestOf(q, pool, dist, limit) && NearestOf(r, pool, dist, limit)
    requires forall x, y :: x in pool && y in pool && dist(x) == dist(y) ==> x == y
    ensures q == r
  {
    NearestPrefix(q, r, pool, dist, limit, if |q| < |r| then |q| else |r|);
    NotShorter(q, r, pool, dist, limit);
    NotShorter(r, q, pool, dist, limit);
  }

  lemma {:induction false} NearestPrefix<T>(q: seq<T>, r: seq<T>, pool: set<T>, dist: T -> nat, limit: nat, n: nat)
    requires NearestOf(q, pool, dist, limit) && NearestOf(r, pool, dist, limit) && n <= |q| && n <= |r|
    requires forall x, y :: x in pool && y in pool && dist(x) == dist(y) ==> x == y
    ensures q[..n] == r[..n]
  {
    if n > 0 {
      var k := n - 1;
      NearestPrefix(q, r, pool, dist, limit, k);
      NotFartherThan(q, r, pool, dist, limit, k);
      NotFartherThan(r, q, pool, dist, limit, k);
      assert q[k] in q && r[k] in r;
      assert q[..n] == q[..k] + [q[k]] && r[..n] == r[..k] + [r[k]];
    }
  }

  /** Two nearest lists that agree below k: the k-th entry of the one is no farther than that of the other. */
  lemma NotFartherThan<T>(q: seq<T>, r: seq<T>, pool: set<T>, dist: T -> nat, limit: nat, k: nat)
    requires NearestOf(q, pool, dist, limit) && NearestOf(r, pool, dist, limit)
    requires k < |q| && k < |r| && q[..k] == r[..k]
    ensures dist(q[k]) <= dist(r[k])
  {
    assert q[k] in q && r[k] in r;
    if r[k] in q {
      assert forall m :: 0 <= m < k ==> q[m] == r[..k][m] && dist(r[m]) < dist(r[k]);
    }
  }

  lemma NextNotListed<T>(q: seq<T>, r: seq<T>, dist: T -> nat)
    requires Ascending(r, dist) && |q| < |r| && q == r[..|q|]
    ensures r[|q|] in r && r[|q|] !in q
  {
    forall m | 0 <= m < |q| ensures q[m] != r[|q|] {
      assert dist(r[m]) < dist(r[|q|]);
    }
  }

  lemma NotShorter<T>(q: seq<T>, r: seq<T>, pool: set<T>, dist: T -> nat, limit: nat)
    requires NearestOf(q, pool, dist, limit) && NearestOf(r, pool, dist, limit)
    requires |q| <= |r| ==> q == r[..|q|]
    ensures |q| >= |r|
  {
    if |q| < |r| { NextNotListed(q, r, dist); }
  }
}
