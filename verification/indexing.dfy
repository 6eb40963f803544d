/** The dense index of the constructor: the distinct endpoints of the edge
    list, sorted ascending, numbered `0 .. n-1`. */
module Indexing {
  import opened Graph

  predicate StrictlyIncreasing(xs: seq<int>)
  {
    forall i, j :: 0 <= i < j < |xs| ==> xs[i] < xs[j]
  }

  /** Adds `x` to a sorted list without duplicates, keeping it sorted and
      without duplicates: the hash-set insertion followed by the sort. */
  function InsertSorted(xs: seq<int>, x: int): (r: seq<int>)
    requires StrictlyIncreasing(xs)
    ensures StrictlyIncreasing(r)
    ensures forall y :: y in r <==> y in xs || y == x
    decreases |xs|
  {
    if |xs| == 0 then [x]
    else if x < xs[0] then [x] + xs
    else if x == xs[0] then xs
    else
      var rest := InsertSorted(xs[1..], x);
      assert forall k :: 0 <= k < |rest| ==> xs[0] < rest[k] by {
        forall k | 0 <= k < |rest|
          ensures xs[0] < rest[k]
        {
          assert rest[k] in rest;
        }
      }
      [xs[0]] + rest
  }

  /** The distinct endpoints of `edges` in ascending order (lines 40-49:
      every source and destination goes into a hash set, which is copied to
      a list and sorted). */
  function SortedNodes(edges: seq<Edge>): (r: seq<int>)
    ensures StrictlyIncreasing(r)
    ensures forall y :: y in r <==> y in Nodes(edges)
    decreases |edges|
  {
    if |edges| == 0 then []
    else
      var e := edges[|edges| - 1];
      var prefix := edges[..|edges| - 1];
      assert edges == prefix + [e];
      InsertSorted(InsertSorted(SortedNodes(prefix), e.src), e.dst)
  }

  /** Gives the `i`-th element of a sorted list the index `i` (lines 50-52). */
  function IndexMap(sorted: seq<int>): (m: map<int, nat>)
    requires StrictlyIncreasing(sorted)
    ensures forall y :: y in m <==> y in sorted
    ensures forall i :: 0 <= i < |sorted| ==> sorted[i] in m && m[sorted[i]] == i
    ensures forall x :: x in m ==> m[x] < |sorted|
    ensures forall x, y :: x in m && y in m && x < y ==> m[x] < m[y]
  {
    var m := map i | 0 <= i < |sorted| :: sorted[i] := i;
    assert forall i :: 0 <= i < |sorted| ==> sorted[i] in m && m[sorted[i]] == i by {
      forall i | 0 <= i < |sorted|
        ensures sorted[i] in m && m[sorted[i]] == i
      {
        assert sorted[i] in m;
        var j :| 0 <= j < |sorted| && sorted[j] == sorted[i] && m[sorted[i]] == j;
      }
    }
    m
  }

  /** Distinct labels get distinct indices. */
  lemma IndexInjective(sorted: seq<int>)
    requires StrictlyIncreasing(sorted)
    ensures forall x, y :: x in IndexMap(sorted) && y in IndexMap(sorted) && x != y ==>
              IndexMap(sorted)[x] != IndexMap(sorted)[y]
  {
    var m := IndexMap(sorted);
    forall x, y | x in m && y in m && x != y
      ensures m[x] != m[y]
    {
      if x < y { assert m[x] < m[y]; } else { assert m[y] < m[x]; }
    }
  }

  /** A sorted list without duplicates has as many distinct elements as it
      has positions. */
  lemma {:induction false} DistinctCount(xs: seq<int>)
    requires StrictlyIncreasing(xs)
    ensures |set y | y in xs| == |xs|
    decreases |xs|
  {
    if |xs| > 0 {
      var rest := xs[1..];
      DistinctCount(rest);
      assert (set y | y in xs) == {xs[0]} + (set y | y in rest);
      assert xs[0] !in (set y | y in rest);
    }
  }

  /** In a sorted list without duplicates, the elements smaller than the
      `i`-th are exactly the first `i`, so there are `i` of them. */
  lemma RankIsPosition(xs: seq<int>, i: nat)
    requires StrictlyIncreasing(xs) && i < |xs|
    ensures |set y | y in xs && y < xs[i]| == i
  {
    var prefix := xs[..i];
    assert StrictlyIncreasing(prefix);
    assert (set y | y in xs && y < xs[i]) == (set y | y in prefix) by {
      forall y | y in xs && y < xs[i]
        ensures y in prefix
      {
        var j :| 0 <= j < |xs| && xs[j] == y;
        assert j < i;
        assert prefix[j] == y;
      }
    }
    DistinctCount(prefix);
  }
}
