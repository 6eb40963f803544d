/** `queryShorestDist` (lines 60-101) as the loop the source runs: three
    mutable pieces of scratch state, a `while` loop that polls the frontier,
    and an inner `for` loop over the polled node's neighbours. It computes
    exactly the functional `Dijkstra.Query`, and so inherits its correctness. */
module DijkstraAlgorithm {
  import opened Graph
  import opened Construction
  import opened Frontier
  import opened Dijkstra
  import opened Correctness

  /** The query on an engine for `edges`: `-1` exactly when `end` cannot be
      reached from `start`, and otherwise the minimum path weight. */
  method QueryShortestDist(g: Engine, ghost edges: seq<Edge>, start: int, end: int) returns (r: int)
    requires Represents(g, edges)
    ensures r == Sentinel(Query(g, start, end))
    ensures r >= 0 ==> IsShortest(edges, start, end, r)
    ensures r == -1 <==> !Reachable(edges, start, end)
  {
    r := Search(g, start, end);
    QueryCorrect(g, edges, start, end);
  }

  /** Lines 61-100 on any well-formed engine: the same answer as `Query`. */
  method Search(g: Engine, start: int, end: int) returns (r: int)
    requires WellFormed(g)
    ensures r == Sentinel(Query(g, start, end))
  {
    if start == end {
      return 0;
    }
    if start !in g.adj {
      return -1;
    }
    // lines 68-71: reset the distances, seed the start
    var distance := seq(g.n, _ => Inf);
    var finalized: set<int> := {};
    var frontier := [Node(start, 0)];
    distance := distance[g.index[start] := Fin(0)];
    ghost var initial := Scratch(distance, finalized, frontier);
    assert initial == Initial(g, start);
    while !(|finalized| == |distance| || |frontier| == 0)
      invariant Structural(g, Scratch(distance, finalized, frontier))
      invariant Run(g, Scratch(distance, finalized, frontier), end) == Run(g, initial, end)
      decreases |g.index.Keys - finalized|, StaleCount(frontier, finalized)
    {
      ghost var s := Scratch(distance, finalized, frontier);
      StepOf(g, s, end);
      // lines 74-76: poll a minimal entry and finalize its node
      var k := MinIndex(frontier);
      var u := frontier[k].val;
      frontier := RemoveAt(frontier, k);
      finalized := finalized + {u};
      if u == end {
        // line 79, reading `end`'s slot through the index
        return distance[g.index[end]].d;
      }
      if u in g.adj {
        distance, frontier := RelaxNeighbours(g, distance, finalized, frontier, u, g.adj[u]);
      }
      StepDecreases(g, s, end);
    }
    return -1;
  }

  /** One iteration of the loop, unfolded: which entry is polled, and what
      `Run` does after it. */
  lemma StepOf(g: Engine, s: Scratch, end: int)
    requires WellFormed(g) && Structural(g, s)
    requires !(|s.finalized| == |s.distance| || |s.frontier| == 0)
    ensures DistOf(g, s, Polled(s).val).Fin?
    ensures Polled(s).val in g.index
    ensures var polled := Scratch(s.distance, s.finalized + {Polled(s).val}, RemoveAt(s.frontier, MinIndex(s.frontier)));
            && Polled(s) == s.frontier[MinIndex(s.frontier)]
            && (Polled(s).val == end ==> Run(g, s, end) == Popped(polled, end) && DistOf(g, polled, end).Fin?)
            && (Polled(s).val != end && Polled(s).val in g.adj ==>
                  && DistOf(g, polled, Polled(s).val) == DistOf(g, s, Polled(s).val)
                  && Step(g, s, end) == Continue(RelaxAll(g, polled, DistOf(g, s, Polled(s).val).d, g.adj[Polled(s).val]))
                  && Run(g, s, end) == Run(g, Step(g, s, end).next, end))
            && (Polled(s).val != end && Polled(s).val !in g.adj ==>
                  && Step(g, s, end) == Continue(polled)
                  && Run(g, s, end) == Run(g, polled, end))
  {
    assert AtMost(DistOf(g, s, Polled(s).val), Fin(Polled(s).dist));
  }

  /** The `for` loop of lines 83-96 over the neighbours of the polled node
      `u`, which is already finalized. Line 88 reads `u`'s distance afresh
      for each neighbour; it never changes, because `u` is finalized. */
  method RelaxNeighbours(g: Engine, distance0: seq<Dist>, finalized: set<int>, frontier0: seq<Node>,
                         u: int, nbrs: seq<Node>)
    returns (distance: seq<Dist>, frontier: seq<Node>)
    requires WellFormed(g) && |distance0| == g.n && u in g.index && u in finalized
    requires forall nb :: nb in nbrs ==> nb.val in g.index
    requires DistOf(g, Scratch(distance0, finalized, frontier0), u).Fin?
    ensures Scratch(distance, finalized, frontier)
         == RelaxAll(g, Scratch(distance0, finalized, frontier0),
                     DistOf(g, Scratch(distance0, finalized, frontier0), u).d, nbrs)
  {
    ghost var start := Scratch(distance0, finalized, frontier0);
    ghost var du := DistOf(g, start, u).d;
    distance, frontier := distance0, frontier0;
    var i := 0;
    while i < |nbrs|
      invariant 0 <= i <= |nbrs|
      invariant |distance| == g.n
      invariant DistOf(g, Scratch(distance, finalized, frontier), u) == Fin(du)
      invariant RelaxAll(g, Scratch(distance, finalized, frontier), du, nbrs[i..])
             == RelaxAll(g, start, du, nbrs)
    {
      ghost var t := Scratch(distance, finalized, frontier);
      var next := nbrs[i];
      var v := next.val;
      // line 86: don't look back
      if v !in finalized {
        var index := g.index[v];
        assert distance[g.index[u]] == Fin(du);
        var newDist := Plus(distance[g.index[u]], next.dist);
        if Below(newDist, distance[index]) {
          distance := distance[index := newDist];
        }
        frontier := frontier + [Node(v, distance[index].d)];
        assert Scratch(distance, finalized, frontier) == RelaxEdge(g, t, du, next);
      }
      RelaxAllUnroll(g, t, du, nbrs, i);
      i := i + 1;
    }
    assert nbrs[i..] == [];
  }

  /** `RelaxAll` over the suffix from position `i` relaxes the `i`-th
      neighbour first. */
  lemma RelaxAllUnroll(g: Engine, t: Scratch, du: nat, nbrs: seq<Node>, i: nat)
    requires WellFormed(g) && |t.distance| == g.n && i < |nbrs|
    requires forall nb :: nb in nbrs ==> nb.val in g.index
    ensures RelaxAll(g, t, du, nbrs[i..]) == RelaxAll(g, RelaxEdge(g, t, du, nbrs[i]), du, nbrs[i + 1..])
  {
    assert nbrs[i..][1..] == nbrs[i + 1..];
  }
}
