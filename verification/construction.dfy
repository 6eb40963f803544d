/** The query engine's immutable part, built once by the constructor
    (`DijkstraAlgorithm(List<int[]>)`): the adjacency map and the dense index. */
module Construction {
  import opened Graph
  import opened Indexing

  /** `adj` groups the edges by source; `index` maps each distinct endpoint to
      its position in the distance array; `n` is that array's length. */
  datatype Engine = Engine(adj: map<int, seq<Node>>, index: map<int, nat>, n: nat)

  /** The neighbours of `u` as `(val, dist)` pairs, in input order: the
      reference reading of "group the edges by source". */
  function Outgoing(edges: seq<Edge>, u: int): seq<Node>
    decreases |edges|
  {
    if |edges| == 0 then []
    else (if edges[0].src == u then [Node(edges[0].dst, edges[0].w)] else []) + Outgoing(edges[1..], u)
  }

  /** Appending an edge to the list appends at most its neighbour entry. */
  lemma {:induction false} OutgoingSnoc(edges: seq<Edge>, e: Edge, u: int)
    ensures Outgoing(edges + [e], u)
         == Outgoing(edges, u) + (if e.src == u then [Node(e.dst, e.w)] else [])
    decreases |edges|
  {
    if |edges| == 0 {
      assert edges + [e] == [e];
      assert [e][1..] == [];
    } else {
      var head := if edges[0].src == u then [Node(edges[0].dst, edges[0].w)] else [];
      var last := if e.src == u then [Node(e.dst, e.w)] else [];
      assert (edges + [e])[0] == edges[0];
      assert (edges + [e])[1..] == edges[1..] + [e];
      OutgoingSnoc(edges[1..], e, u);
      assert Outgoing(edges + [e], u) == head + (Outgoing(edges[1..], u) + last);
      assert Outgoing(edges, u) == head + Outgoing(edges[1..], u);
    }
  }

  /** `(v, w)` is listed as a neighbour of `u` exactly when `<u, v, w>` is an edge. */
  lemma {:induction false} OutgoingMembership(edges: seq<Edge>, u: int, nb: Node)
    ensures nb in Outgoing(edges, u) <==> Edge(u, nb.val, nb.dist) in edges
    decreases |edges|
  {
    if |edges| > 0 {
      OutgoingMembership(edges[1..], u, nb);
      assert edges == [edges[0]] + edges[1..];
    }
  }

  /** A label that is no edge's source has no neighbours. */
  lemma {:induction false} OutgoingNone(edges: seq<Edge>, u: int)
    requires forall f :: f in edges ==> f.src != u
    ensures Outgoing(edges, u) == []
    decreases |edges|
  {
    if |edges| > 0 {
      assert edges[0] in edges;
      assert forall f :: f in edges[1..] ==> f in edges;
      OutgoingNone(edges[1..], u);
    }
  }

  /** One iteration of the constructor's loop over the edges. */
  function AddEdge(adj: map<int, seq<Node>>, e: Edge): map<int, seq<Node>>
  {
    adj[e.src := (if e.src in adj then adj[e.src] else []) + [Node(e.dst, e.w)]]
  }

  /** One iteration keeps the grouping exact: if `adj` groups `edges`, then
      `AddEdge(adj, e)` groups `edges + [e]`. */
  lemma AddEdgeGroups(edges: seq<Edge>, adj: map<int, seq<Node>>, e: Edge)
    requires adj.Keys == set f | f in edges :: f.src
    requires forall u :: u in adj ==> adj[u] == Outgoing(edges, u)
    ensures AddEdge(adj, e).Keys == set f | f in edges + [e] :: f.src
    ensures forall u :: u in AddEdge(adj, e) ==> AddEdge(adj, e)[u] == Outgoing(edges + [e], u)
  {
    var r := AddEdge(adj, e);
    forall u | u in r
      ensures r[u] == Outgoing(edges + [e], u)
    {
      OutgoingSnoc(edges, e, u);
      if u !in adj {
        OutgoingNone(edges, u);
      }
    }
  }

  /** The loop of lines 41-46: for each edge, `putIfAbsent` an empty list for
      its source, then append the `(dst, weight)` pair to that list. */
  function BuildAdjacency(edges: seq<Edge>): (adj: map<int, seq<Node>>)
    ensures adj.Keys == set e | e in edges :: e.src
    ensures forall u :: u in adj ==> adj[u] == Outgoing(edges, u)
    decreases |edges|
  {
    if |edges| == 0 then map[]
    else
      var prefix := edges[..|edges| - 1];
      var e := edges[|edges| - 1];
      assert edges == prefix + [e];
      AddEdgeGroups(prefix, BuildAdjacency(prefix), e);
      AddEdge(BuildAdjacency(prefix), e)
  }

  /** What the query needs of an engine so that no lookup fails: every
      adjacency key and neighbour has an index, and the index is injective
      into `[0, n)` and uses all `n` positions. */
  predicate WellFormed(g: Engine)
  {
    && |g.index.Keys| == g.n
    && (forall x :: x in g.index ==> g.index[x] < g.n)
    && (forall x, y :: x in g.index && y in g.index && x != y ==> g.index[x] != g.index[y])
    && (forall u :: u in g.adj ==> u in g.index)
    && (forall u, nb :: u in g.adj && nb in g.adj[u] ==> nb.val in g.index)
  }

  /** `g` is an engine for the edge list `edges`: every endpoint has an
      index, and the adjacency lists hold exactly the edges. */
  predicate Represents(g: Engine, edges: seq<Edge>)
  {
    && WellFormed(g)
    && (forall e :: e in edges ==> e.src in g.index && e.dst in g.index)
    && (forall e :: e in edges ==> e.src in g.adj && Node(e.dst, e.w) in g.adj[e.src])
    && (forall u, nb :: u in g.adj && nb in g.adj[u] ==> Edge(u, nb.val, nb.dist) in edges)
  }

  /** The constructor, lines 36-57. The scratch state it allocates (`pq`,
      `set`, `distance`) belongs to each query; only its size `n` is kept. */
  function Build(edges: seq<Edge>): (g: Engine)
    ensures Represents(g, edges)
    ensures g.index.Keys == Nodes(edges)
    ensures g.n == |Nodes(edges)|
    ensures g.adj.Keys == set e | e in edges :: e.src
    ensures forall u :: u in g.adj ==> g.adj[u] == Outgoing(edges, u)
  {
    var sorted := SortedNodes(edges);
    var g := Engine(BuildAdjacency(edges), IndexMap(sorted), |sorted|);
    BuildFacts(edges, g);
    g
  }

  lemma BuildFacts(edges: seq<Edge>, g: Engine)
    requires g == Engine(BuildAdjacency(edges), IndexMap(SortedNodes(edges)), |SortedNodes(edges)|)
    ensures Represents(g, edges)
    ensures g.index.Keys == Nodes(edges)
    ensures g.n == |Nodes(edges)|
  {
    var nodes := Nodes(edges);
    IndexFacts(SortedNodes(edges), nodes);
    AdjacencyFacts(edges, g.adj);
    assert WellFormed(g) by {
      assert |g.index.Keys| == g.n;
      IndexInjective(SortedNodes(edges));
      forall u | u in g.adj
        ensures u in g.index
      {
        var e :| e in edges && e.src == u;
        assert u in nodes;
      }
      forall u, nb | u in g.adj && nb in g.adj[u]
        ensures nb.val in g.index
      {
        var e := Edge(u, nb.val, nb.dist);
        assert e in edges;
        assert nb.val in nodes;
      }
    }
  }

  /** The index built from the sorted endpoints covers exactly them, is
      injective, and uses every position below their count. */
  lemma IndexFacts(sorted: seq<int>, nodes: set<int>)
    requires StrictlyIncreasing(sorted)
    requires forall y :: y in sorted <==> y in nodes
    ensures IndexMap(sorted).Keys == nodes
    ensures |nodes| == |sorted|
    ensures forall i :: 0 <= i < |sorted| ==> i in IndexMap(sorted).Values
  {
    var m := IndexMap(sorted);
    DistinctCount(sorted);
    assert (set y | y in sorted) == nodes;
    forall i | 0 <= i < |sorted|
      ensures i in m.Values
    {
      assert sorted[i] in m && m[sorted[i]] == i;
    }
  }

  /** The adjacency map lists every edge under its source, and nothing else. */
  lemma AdjacencyFacts(edges: seq<Edge>, adj: map<int, seq<Node>>)
    requires adj == BuildAdjacency(edges)
    ensures forall e :: e in edges ==> e.src in adj && Node(e.dst, e.w) in adj[e.src]
    ensures forall u, nb :: u in adj && nb in adj[u] ==> Edge(u, nb.val, nb.dist) in edges
  {
    forall u, nb | u in adj && nb in adj[u]
      ensures Edge(u, nb.val, nb.dist) in edges
    {
      OutgoingMembership(edges, u, nb);
    }
    forall e | e in edges
      ensures e.src in adj && Node(e.dst, e.w) in adj[e.src]
    {
      OutgoingMembership(edges, e.src, Node(e.dst, e.w));
    }
  }

  /** The built index is an order-preserving bijection from the distinct
      endpoints onto the positions `[0, n)` of the distance array. */
  lemma IndexBijection(edges: seq<Edge>)
    ensures forall x :: x in Build(edges).index ==> Build(edges).index[x] < Build(edges).n
    ensures forall x, y :: x in Build(edges).index && y in Build(edges).index && x < y ==>
              Build(edges).index[x] < Build(edges).index[y]
    ensures forall i :: 0 <= i < Build(edges).n ==> i in Build(edges).index.Values
  {
    IndexFacts(SortedNodes(edges), Nodes(edges));
  }

  /** The index of a node is its rank: the number of distinct endpoints with
      a smaller label. */
  lemma IndexIsRank(edges: seq<Edge>, x: int)
    requires x in Nodes(edges)
    ensures x in Build(edges).index
    ensures Build(edges).index[x] == |set y | y in Nodes(edges) && y < x|
  {
    var sorted := SortedNodes(edges);
    var i :| 0 <= i < |sorted| && sorted[i] == x;
    RankIsPosition(sorted, i);
    assert (set y | y in Nodes(edges) && y < x) == (set y | y in sorted && y < sorted[i]);
  }

  /** When the labels are exactly `0 .. n-1`, every label is its own index:
      the only case in which reading `distance` at a label and at its index
      coincide. */
  lemma DenseLabelsIdentity(edges: seq<Edge>, n: nat)
    requires Nodes(edges) == Range(n)
    ensures forall x :: x in Build(edges).index ==> Build(edges).index[x] == x
  {
    var g := Build(edges);
    forall x | x in g.index
      ensures g.index[x] == x
    {
      DenseIndexOf(edges, n, x);
    }
  }

  lemma DenseIndexOf(edges: seq<Edge>, n: nat, x: int)
    requires Nodes(edges) == Range(n)
    requires x in Nodes(edges)
    ensures x in Build(edges).index && Build(edges).index[x] == x
  {
    var nodes := Nodes(edges);
    IndexIsRank(edges, x);
    DenseRank(nodes, n, x);
  }

  /** Among the labels `0 .. n-1`, exactly `x` are below `x`. */
  lemma DenseRank(nodes: set<int>, n: nat, x: int)
    requires nodes == Range(n)
    requires x in nodes
    ensures |set y | y in nodes && y < x| == x
  {
    var below := set y | y in nodes && y < x;
    assert below == Range(x);
  }

  /** The labels `0 .. k-1`. */
  function Range(k: nat): (r: set<int>)
    ensures forall y :: y in r <==> 0 <= y < k
    ensures |r| == k
  {
    if k == 0 then {} else Range(k - 1) + {k - 1}
  }
}
