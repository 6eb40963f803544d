/** Directed, non-negatively weighted graphs given as edge lists, and the
    directed paths through them that a shortest-distance query is about. */
module Graph {

  /** One input edge `<start, end, weight>`. Weights are naturals: the source
      never checks for negative weights, and the algorithm is only meaningful
      without them. */
  datatype Edge = Edge(src: int, dst: int, w: nat)

  /** The source's `Node(val, dist)` pair. In an adjacency list it is a
      neighbour and the weight of the edge to it; in the frontier it is a node
      and the tentative distance it was offered with. */
  datatype Node = Node(val: int, dist: nat)

  /** Every label that occurs as the source or the destination of an edge. */
  function Nodes(edges: seq<Edge>): set<int>
  {
    (set e | e in edges :: e.src) + (set e | e in edges :: e.dst)
  }

  /** `p` is a directed path from `s` to `t` made of edges of the list.  The
      empty path leads from every label to itself, node of the graph or not. */
  ghost predicate IsPath(edges: seq<Edge>, p: seq<Edge>, s: int, t: int)
  {
    && (forall k :: 0 <= k < |p| ==> p[k] in edges)
    && (forall k :: 0 <= k < |p| - 1 ==> p[k].dst == p[k + 1].src)
    && (if |p| == 0 then s == t else p[0].src == s && p[|p| - 1].dst == t)
  }

  /** Total weight of a path. */
  function Weight(p: seq<Edge>): nat
  {
    if |p| == 0 then 0 else Weight(p[..|p| - 1]) + p[|p| - 1].w
  }

  ghost predicate Reachable(edges: seq<Edge>, s: int, t: int)
  {
    exists p :: IsPath(edges, p, s, t)
  }

  /** No path from `s` to `t` is lighter than `d`. */
  ghost predicate LowerBound(edges: seq<Edge>, s: int, t: int, d: nat)
  {
    forall p :: IsPath(edges, p, s, t) ==> d <= Weight(p)
  }

  /** Some path from `s` to `t` weighs exactly `d`. */
  ghost predicate Witnessed(edges: seq<Edge>, s: int, t: int, d: nat)
  {
    exists p :: IsPath(edges, p, s, t) && Weight(p) == d
  }

  /** `d` is the minimum total weight over all directed paths from `s` to `t`. */
  ghost predicate IsShortest(edges: seq<Edge>, s: int, t: int, d: nat)
  {
    Witnessed(edges, s, t, d) && LowerBound(edges, s, t, d)
  }

  /** Dropping the last edge of a path leaves a path to that edge's source. */
  lemma PathPrefix(edges: seq<Edge>, p: seq<Edge>, s: int, t: int)
    requires IsPath(edges, p, s, t) && |p| > 0
    ensures IsPath(edges, p[..|p| - 1], s, p[|p| - 1].src)
    ensures Weight(p) == Weight(p[..|p| - 1]) + p[|p| - 1].w
  {
  }

  /** Appending an edge that leaves the end of a path extends the path, and
      adds exactly that edge's weight. */
  lemma PathExtend(edges: seq<Edge>, p: seq<Edge>, s: int, e: Edge)
    requires IsPath(edges, p, s, e.src) && e in edges
    ensures IsPath(edges, p + [e], s, e.dst)
    ensures Weight(p + [e]) == Weight(p) + e.w
  {
    assert (p + [e])[..|p|] == p;
  }

  /** Weights are naturals, so a path weighs at least its first edge. */
  lemma {:induction false} WeightAtLeastFirst(p: seq<Edge>)
    requires |p| > 0
    ensures p[0].w <= Weight(p)
    decreases |p|
  {
    if |p| > 1 {
      WeightAtLeastFirst(p[..|p| - 1]);
    }
  }

  /** A path has at least one edge unless it starts where it ends. */
  lemma NoOutgoingEdgeNoPath(edges: seq<Edge>, s: int, t: int)
    requires s != t
    requires forall e :: e in edges ==> e.src != s
    ensures !Reachable(edges, s, t)
  {
  }

  /** Every label is at distance zero from itself, through the empty path. */
  lemma SelfDistanceZero(edges: seq<Edge>, v: int)
    ensures IsShortest(edges, v, v, 0)
  {
    assert IsPath(edges, [], v, v) && Weight([]) == 0;
  }

  /** There is only one shortest distance. */
  lemma ShortestUnique(edges: seq<Edge>, s: int, t: int, d1: nat, d2: nat)
    requires IsShortest(edges, s, t, d1) && IsShortest(edges, s, t, d2)
    ensures d1 == d2
  {
    var p1 :| IsPath(edges, p1, s, t) && Weight(p1) == d1;
    var p2 :| IsPath(edges, p2, s, t) && Weight(p2) == d2;
  }
}
