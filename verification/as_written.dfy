/** Line 79 as written returns `distance[u]`: it reads the distance array at
    the label `end` rather than at `end`'s dense index. The two agree only
    when the labels are exactly `0 .. n-1`, as in the sample graph of
    `main`; otherwise the query answers another node's distance, or throws
    when the label is outside the array. Everything else in this model reads
    `distance[indexes.get(end)]`, the evidently intended value. */
module AsWritten {
  import opened Graph
  import opened Construction
  import opened Frontier
  import opened Dijkstra
  import opened Correctness

  /** `Integer.MAX_VALUE`, the source's "infinite" distance. */
  const IntMax := 0x7fff_ffff

  /** How a Java call ends: with an `int`, or with an
      `ArrayIndexOutOfBoundsException`. */
  datatype JavaReturn = Returns(value: int) | IndexOutOfBounds

  /** A distance slot as the source stores it. */
  function AsInt(d: Dist): int
  {
    match d
    case Inf => IntMax
    case Fin(x) => x
  }

  /** `distance[u]`, array access at the raw label `u`. It throws exactly
      when the label is outside the array; otherwise it returns the distance
      of whichever label has index `u`, which is `u`'s own distance only when
      `u` is its own index. */
  function ReadAsWritten(g: Engine, s: Scratch, u: int): (r: JavaReturn)
    requires WellFormed(g) && |s.distance| == g.n
    ensures r.IndexOutOfBounds? <==> u < 0 || g.n <= u
    ensures forall x :: x in g.index && g.index[x] == u ==> r == Returns(AsInt(DistOf(g, s, x)))
    ensures u in g.index && g.index[u] == u ==> r == Returns(AsInt(DistOf(g, s, u)))
  {
    if 0 <= u < |s.distance| then Returns(AsInt(s.distance[u])) else IndexOutOfBounds
  }

  /** `queryShorestDist` as written, with line 79 included and the
      idealisations listed under Left out in README.md. */
  function QueryAsWritten(g: Engine, start: int, end: int): (r: JavaReturn)
    requires WellFormed(g)
    ensures Query(g, start, end).Unreachable? ==> r == Returns(-1)
    ensures r != Returns(Sentinel(Query(g, start, end))) ==>
              start != end && start in g.adj && Run(g, Initial(g, start), end).Popped?
  {
    if start == end then Returns(0)
    else if start !in g.adj then Returns(-1)
    else
      match Run(g, Initial(g, start), end)
      case Popped(last, u) => ReadAsWritten(g, last, u)
      case Exhausted => Returns(-1)
  }

  /** On an engine whose labels are their own indices, the code as written
      returns the intended answer. */
  lemma AsWrittenAgreesOnDenseLabels(g: Engine, start: int, end: int)
    requires WellFormed(g)
    requires forall x :: x in g.index ==> g.index[x] == x
    ensures QueryAsWritten(g, start, end) == Returns(Sentinel(Query(g, start, end)))
  {
  }

  /** On edges whose labels are exactly `0 .. n-1`, the code as written
      returns the intended answer. */
  lemma DenseAsWritten(edges: seq<Edge>, n: nat, start: int, end: int)
    requires Nodes(edges) == Range(n)
    ensures QueryAsWritten(Build(edges), start, end) == Returns(Sentinel(Query(Build(edges), start, end)))
  {
    DenseLabelsIdentity(edges, n);
    AsWrittenAgreesOnDenseLabels(Build(edges), start, end);
  }

  /** The edges `<0, 2, 7>` and `<0, 5, 1>`: labels `{0, 2, 5}` get indices
      `{0, 1, 2}`, so label 2's slot holds label 5's distance. */
  const SparseEdges := [Edge(0, 2, 7), Edge(0, 5, 1)]

  /** The engine the constructor builds for `SparseEdges`. */
  const Sparse := Engine(map[0 := [Node(2, 7), Node(5, 1)]], map[0 := 0, 2 := 1, 5 := 2], 3)

  lemma SparseNodes(edges: seq<Edge>)
    requires edges == SparseEdges
    ensures Nodes(edges) == {0, 2, 5}
    ensures (set e | e in edges :: e.src) == {0}
    ensures Outgoing(edges, 0) == [Node(2, 7), Node(5, 1)]
  {
    assert edges[0] in edges && edges[1] in edges;
    assert edges[1..] == [Edge(0, 5, 1)];
    assert edges[1..][1..] == [];
  }

  /** Two indexed labels keep their order in the index, below `n`. */
  lemma IndexOrdered(edges: seq<Edge>, x: int, y: int)
    requires x in Build(edges).index && y in Build(edges).index && x < y
    ensures Build(edges).index[x] < Build(edges).index[y] < Build(edges).n
  {
    IndexBijection(edges);
  }

  /** An order-preserving index of `{0, 2, 5}` into `[0, 3)` is `Sparse.index`. */
  lemma SparseIndexOf(index: map<int, nat>)
    requires index.Keys == {0, 2, 5}
    requires index[0] < index[2] < index[5] < 3
    ensures index == Sparse.index
  {
  }

  lemma SparseCount()
    ensures |{0, 2, 5}| == 3
  {
  }

  lemma SparseAdjacencyOf(edges: seq<Edge>, adj: map<int, seq<Node>>)
    requires adj.Keys == (set e | e in edges :: e.src) == {0}
    requires forall u :: u in adj ==> adj[u] == Outgoing(edges, u)
    requires Outgoing(edges, 0) == [Node(2, 7), Node(5, 1)]
    ensures adj == Sparse.adj
  {
  }

  lemma SparseEngine()
    ensures Build(SparseEdges) == Sparse
  {
    var g := Build(SparseEdges);
    SparseNodes(SparseEdges);
    SparseCount();
    assert g.index.Keys == {0, 2, 5};
    IndexOrdered(SparseEdges, 0, 2);
    IndexOrdered(SparseEdges, 2, 5);
    SparseIndexOf(g.index);
    SparseAdjacencyOf(SparseEdges, g.adj);
  }

  /** The scratch states of the query `(0, 2)` on `Sparse`, slot by slot
      for labels 0, 2 and 5. */
  const S0 := Scratch([Fin(0), Inf, Inf], {}, [Node(0, 0)])
  const P0 := Scratch([Fin(0), Inf, Inf], {0}, [])
  const S1 := Scratch([Fin(0), Fin(7), Fin(1)], {0}, [Node(2, 7), Node(5, 1)])
  const S2 := Scratch([Fin(0), Fin(7), Fin(1)], {0, 5}, [Node(2, 7)])
  const S3 := Scratch([Fin(0), Fin(7), Fin(1)], {0, 5, 2}, [])

  lemma SparseWellFormed()
    ensures WellFormed(Sparse)
  {
    assert Sparse.index.Keys == {0, 2, 5};
    SparseCount();
  }

  lemma SparseInitial()
    ensures WellFormed(Sparse) && Initial(Sparse, 0) == S0
  {
    SparseWellFormed();
    assert Initial(Sparse, 0).distance == S0.distance;
  }

  /** Relaxing `0 -> 2` (7) then `0 -> 5` (1) from distance 0. */
  lemma SparseRelax()
    ensures WellFormed(Sparse)
    ensures RelaxAll(Sparse, P0, 0, [Node(2, 7), Node(5, 1)]) == S1
  {
    SparseWellFormed();
    var a := RelaxEdge(Sparse, P0, 0, Node(2, 7));
    assert a == Scratch([Fin(0), Fin(7), Inf], {0}, [Node(2, 7)]);
    assert RelaxEdge(Sparse, a, 0, Node(5, 1)) == S1;
    assert [Node(2, 7), Node(5, 1)][1..] == [Node(5, 1)];
    assert [Node(5, 1)][1..] == [];
  }

  lemma SparseStructural()
    ensures WellFormed(Sparse)
    ensures Structural(Sparse, S0) && Structural(Sparse, S1) && Structural(Sparse, S2)
  {
    SparseWellFormed();
  }

  /** Poll `<0, 0>` and relax the start's edges. */
  lemma SparseStep1()
    ensures WellFormed(Sparse) && Structural(Sparse, S0)
    ensures Step(Sparse, S0, 2) == Continue(S1)
  {
    SparseStructural();
    SparseRelax();
    assert MinIndex(S0.frontier) == 0;
    assert RemoveAt(S0.frontier, 0) == [];
    assert S0.finalized + {0} == P0.finalized;
    assert Scratch(S0.distance, S0.finalized + {0}, RemoveAt(S0.frontier, 0)) == P0;
    assert DistOf(Sparse, S0, 0) == Fin(0);
    assert Sparse.adj[0] == [Node(2, 7), Node(5, 1)];
  }

  /** Poll `<5, 1>`, which has no outgoing edges. */
  lemma SparseStep2()
    ensures WellFormed(Sparse) && Structural(Sparse, S1)
    ensures Step(Sparse, S1, 2) == Continue(S2)
  {
    SparseStructural();
    SparsePoll2();
    assert 5 !in Sparse.adj;
  }

  /** The second poll takes `<5, 1>`, the cheaper of the two entries. */
  lemma SparsePoll2()
    ensures MinIndex(S1.frontier) == 1 && S1.frontier[1].val == 5
    ensures Scratch(S1.distance, S1.finalized + {5}, RemoveAt(S1.frontier, 1)) == S2
  {
    assert RemoveAt(S1.frontier, 1) == [Node(2, 7)];
    assert S1.finalized + {5} == S2.finalized;
  }

  /** Poll `<2, 7>`: the end. */
  lemma SparseStep3()
    ensures WellFormed(Sparse) && Structural(Sparse, S2)
    ensures Step(Sparse, S2, 2) == Found(S3, 2)
  {
    SparseStructural();
    assert MinIndex(S2.frontier) == 0;
    assert RemoveAt(S2.frontier, 0) == [];
    assert S2.finalized + {2} == S3.finalized;
  }

  lemma SparseRun3()
    ensures WellFormed(Sparse) && Structural(Sparse, S2)
    ensures Run(Sparse, S2, 2) == Popped(S3, 2)
  {
    SparseStep3();
    assert |S2.finalized| == 2;
    RunStep(Sparse, S2, 2);
  }

  lemma SparseRun2()
    ensures WellFormed(Sparse) && Structural(Sparse, S1)
    ensures Run(Sparse, S1, 2) == Popped(S3, 2)
  {
    SparseStep2();
    SparseRun3();
    assert |S1.finalized| == 1;
    RunStep(Sparse, S1, 2);
  }

  lemma SparseRun()
    ensures WellFormed(Sparse)
    ensures Run(Sparse, Initial(Sparse, 0), 2) == Popped(S3, 2)
  {
    SparseInitial();
    SparseStep1();
    SparseRun2();
  }

  /** On the literal engine: the query answers 7, the code as written 1. */
  lemma SparseAnswers()
    ensures WellFormed(Sparse)
    ensures Query(Sparse, 0, 2) == Distance(7)
    ensures QueryAsWritten(Sparse, 0, 2) == Returns(1)
  {
    SparseRun();
    assert DistOf(Sparse, S3, 2) == Fin(7);
    assert ReadAsWritten(Sparse, S3, 2) == Returns(1);
  }

  lemma SparseRepresents()
    ensures Represents(Sparse, SparseEdges)
  {
    SparseEngine();
  }

  /** The query `(0, 2)` on `SparseEdges`: the shortest distance is 7, which
      the corrected query returns, but the code as written returns 1, the
      distance of label 5. */
  lemma SparseQueryMisread()
    ensures IsShortest(SparseEdges, 0, 2, 7)
    ensures Query(Build(SparseEdges), 0, 2) == Distance(7)
    ensures QueryAsWritten(Build(SparseEdges), 0, 2) == Returns(1)
  {
    SparseEngine();
    SparseAnswers();
    SparseRepresents();
    QueryCorrect(Sparse, SparseEdges, 0, 2);
  }
}
