/** The sample graph of `main` (lines 11-19) and its four queries: `(0, 3)`
    is 5, `(2, 1)` is 2, `(2, 2)` is 0 and `(3, 0)` is unreachable. The
    answers follow from the correctness theorem and a few facts about the
    sample's paths, with no evaluation of the loop. Its labels are exactly
    `0 .. 4`, so line 79 as written answers the same as the corrected read
    here. */
module Samples {
  import opened Graph
  import opened Construction
  import opened Dijkstra
  import opened Correctness
  import opened AsWritten
  import DijkstraAlgorithm

  /** Line 13: `<start, end, weight>` triples. */
  const SampleEdges := [Edge(0, 4, 3), Edge(0, 1, 9), Edge(0, 2, 6), Edge(0, 3, 5), Edge(2, 1, 2), Edge(2, 3, 4)]

  /** Every sample edge, by its source. */
  lemma SampleEdgeCases(edges: seq<Edge>, e: Edge)
    requires edges == SampleEdges && e in edges
    ensures e.src == 0 ==> e in {Edge(0, 4, 3), Edge(0, 1, 9), Edge(0, 2, 6), Edge(0, 3, 5)}
    ensures e.src == 2 ==> e in {Edge(2, 1, 2), Edge(2, 3, 4)}
    ensures e.src == 0 || e.src == 2
  {
  }

  /** The direct edge `0 -> 3` (5) is the shortest way: every other edge out
      of 0 is at least as heavy, except `0 -> 4`, and 4 is a dead end. */
  lemma Shortest03(edges: seq<Edge>)
    requires edges == SampleEdges
    ensures IsShortest(edges, 0, 3, 5)
  {
    var direct := [Edge(0, 3, 5)];
    assert direct[0] == edges[3];
    assert IsPath(edges, direct, 0, 3) && Weight(direct) == 5;
    forall p | IsPath(edges, p, 0, 3)
      ensures 5 <= Weight(p)
    {
      assert p[0] in edges;
      SampleEdgeCases(edges, p[0]);
      if p[0] == Edge(0, 4, 3) {
        assert |p| > 1;
        assert p[1] in edges;
        SampleEdgeCases(edges, p[1]);
      }
      WeightAtLeastFirst(p);
    }
  }

  /** The direct edge `2 -> 1` (2) is the lightest edge out of 2. */
  lemma Shortest21(edges: seq<Edge>)
    requires edges == SampleEdges
    ensures IsShortest(edges, 2, 1, 2)
  {
    var direct := [Edge(2, 1, 2)];
    assert direct[0] == edges[4];
    assert IsPath(edges, direct, 2, 1) && Weight(direct) == 2;
    forall p | IsPath(edges, p, 2, 1)
      ensures 2 <= Weight(p)
    {
      assert p[0] in edges;
      SampleEdgeCases(edges, p[0]);
      WeightAtLeastFirst(p);
    }
  }

  /** No sample edge leaves 3. */
  lemma Unreachable30(edges: seq<Edge>)
    requires edges == SampleEdges
    ensures !Reachable(edges, 3, 0)
  {
    forall e | e in edges
      ensures e.src != 3
    {
      SampleEdgeCases(edges, e);
    }
    NoOutgoingEdgeNoPath(edges, 3, 0);
  }

  /** What any engine for the sample edges answers to the four queries. */
  lemma AnswersOf(g: Engine, edges: seq<Edge>)
    requires Represents(g, edges)
    requires IsShortest(edges, 0, 3, 5) && IsShortest(edges, 2, 1, 2) && !Reachable(edges, 3, 0)
    ensures Query(g, 0, 3) == Distance(5)
    ensures Query(g, 2, 1) == Distance(2)
    ensures Query(g, 2, 2) == Distance(0)
    ensures Query(g, 3, 0) == Unreachable
  {
    QueryCorrect(g, edges, 0, 3);
    QueryCorrect(g, edges, 2, 1);
    QueryCorrect(g, edges, 3, 0);
  }

  /** Lines 13-18: the engine built from the sample edges answers 5, 2, 0
      and unreachable, each the true shortest distance. */
  lemma SampleQueries(edges: seq<Edge>)
    requires edges == SampleEdges
    ensures IsShortest(edges, 0, 3, 5) && IsShortest(edges, 2, 1, 2) && IsShortest(edges, 2, 2, 0)
    ensures !Reachable(edges, 3, 0)
    ensures Query(Build(edges), 0, 3) == Distance(5)
    ensures Query(Build(edges), 2, 1) == Distance(2)
    ensures Query(Build(edges), 2, 2) == Distance(0)
    ensures Query(Build(edges), 3, 0) == Unreachable
  {
    Shortest03(edges);
    Shortest21(edges);
    SelfDistanceZero(edges, 2);
    Unreachable30(edges);
    AnswersOf(Build(edges), edges);
  }

  /** The sample's labels are `0 .. 4`. */
  lemma SampleLabels(edges: seq<Edge>)
    requires edges == SampleEdges
    ensures Nodes(edges) == Range(5)
  {
    forall x | x in Nodes(edges)
      ensures 0 <= x < 5
    {
      var e :| e in edges && (x == e.src || x == e.dst);
      SampleEdgeCases(edges, e);
    }
    forall x | 0 <= x < 5
      ensures x in Nodes(edges)
    {
      assert edges[0] in edges && edges[1] in edges && edges[2] in edges && edges[3] in edges;
      assert x == 0 || x == 4 || x == edges[x].dst;
    }
  }

  /** On the sample every label is its own index, so line 79 as written
      returns what the corrected read returns, for every query. */
  lemma SampleAsWritten(edges: seq<Edge>, start: int, end: int)
    requires edges == SampleEdges
    ensures QueryAsWritten(Build(edges), start, end) == Returns(Sentinel(Query(Build(edges), start, end)))
  {
    SampleLabels(edges);
    DenseAsWritten(edges, 5, start, end);
  }

  /** Lines 13-18 through the imperative query: it prints 5, 2, 0, -1. */
  method SampleMain() returns (a: int, b: int, c: int, d: int)
    ensures a == 5 && b == 2 && c == 0 && d == -1
  {
    var g := Build(SampleEdges);
    SampleQueries(SampleEdges);
    a := DijkstraAlgorithm.QueryShortestDist(g, SampleEdges, 0, 3);
    b := DijkstraAlgorithm.QueryShortestDist(g, SampleEdges, 2, 1);
    c := DijkstraAlgorithm.QueryShortestDist(g, SampleEdges, 2, 2);
    d := DijkstraAlgorithm.QueryShortestDist(g, SampleEdges, 3, 0);
  }
}
