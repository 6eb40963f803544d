/** The query's min-heap `pq` of `(val, dist)` entries, modelled as a
    sequence with extract-minimum. The heap layout and the order among entries
    with equal keys carry no meaning; the model takes the earliest minimal one. */
module Frontier {
  import opened Graph

  /** Position of the first entry with the smallest key. */
  function MinIndex(q: seq<Node>): (k: nat)
    requires |q| > 0
    ensures k < |q|
    ensures forall j :: 0 <= j < |q| ==> q[k].dist <= q[j].dist
    ensures forall j :: 0 <= j < k ==> q[k].dist < q[j].dist
    decreases |q|
  {
    if |q| == 1 then 0
    else
      var k := MinIndex(q[..|q| - 1]);
      if q[|q| - 1].dist < q[k].dist then |q| - 1 else k
  }

  /** `poll`: the frontier without its `k`-th entry. */
  function RemoveAt(q: seq<Node>, k: nat): (r: seq<Node>)
    requires k < |q|
    ensures |r| == |q| - 1
    ensures multiset(r) == multiset(q) - multiset{q[k]}
    ensures forall x :: x in r ==> x in q
    ensures forall x :: x in q && x != q[k] ==> x in r
  {
    assert q == q[..k] + [q[k]] + q[k + 1..];
    q[..k] + q[k + 1..]
  }

  /** Number of entries whose node is already finalized: the stale entries
      that a later `poll` will pop without finalizing anything new. */
  function StaleCount(q: seq<Node>, finalized: set<int>): nat
    decreases |q|
  {
    if |q| == 0 then 0
    else StaleCount(q[..|q| - 1], finalized) + (if q[|q| - 1].val in finalized then 1 else 0)
  }

  lemma {:induction false} StaleCountAppend(a: seq<Node>, b: seq<Node>, finalized: set<int>)
    ensures StaleCount(a + b, finalized) == StaleCount(a, finalized) + StaleCount(b, finalized)
    decreases |b|
  {
    if |b| == 0 {
      assert a + b == a;
    } else {
      var b' := b[..|b| - 1];
      assert (a + b)[..|a + b| - 1] == a + b';
      StaleCountAppend(a, b', finalized);
    }
  }

  /** Entries for nodes outside the finalized set are not stale. */
  lemma {:induction false} StaleCountNone(q: seq<Node>, finalized: set<int>)
    requires forall j :: 0 <= j < |q| ==> q[j].val !in finalized
    ensures StaleCount(q, finalized) == 0
    decreases |q|
  {
    if |q| > 0 {
      StaleCountNone(q[..|q| - 1], finalized);
    }
  }

  /** Popping a stale entry lowers the stale count by one. */
  lemma StaleCountRemove(q: seq<Node>, k: nat, finalized: set<int>)
    requires k < |q| && q[k].val in finalized
    ensures StaleCount(RemoveAt(q, k), finalized) == StaleCount(q, finalized) - 1
  {
    assert q == q[..k] + [q[k]] + q[k + 1..];
    StaleCountAppend(q[..k] + [q[k]], q[k + 1..], finalized);
    StaleCountAppend(q[..k], [q[k]], finalized);
    StaleCountAppend(q[..k], q[k + 1..], finalized);
    assert StaleCount([q[k]], finalized) == 1 by {
      assert [q[k]][..0] == [];
    }
  }
}
