/** `queryShorestDist` (lines 60-101): one shortest-distance query from fresh
    scratch state, as pure functions over that state. */
module Dijkstra {
  import opened Graph
  import opened Construction
  import opened Frontier

  /** A tentative distance. `Inf` stands for the source's `Integer.MAX_VALUE`;
      finite distances are unbounded naturals. */
  datatype Dist = Inf | Fin(d: nat)

  /** `a < b`, with `Inf` above every finite distance. */
  predicate Below(a: Dist, b: Dist)
  {
    a.Fin? && (b.Inf? || a.d < b.d)
  }

  /** `a <= b`, with `Inf` above every finite distance. */
  predicate AtMost(a: Dist, b: Dist)
  {
    b.Inf? || (a.Fin? && a.d <= b.d)
  }

  function Plus(a: Dist, w: nat): Dist
  {
    if a.Inf? then Inf else Fin(a.d + w)
  }

  function MinDist(a: Dist, b: Dist): Dist
  {
    if AtMost(a, b) then a else b
  }

  /** The per-query working state: the `distance` array indexed by dense
      position, the finalized `set` of labels, and the frontier `pq`. */
  datatype Scratch = Scratch(distance: seq<Dist>, finalized: set<int>, frontier: seq<Node>)

  /** What a query returns. The source encodes `Unreachable` as `-1`. */
  datatype Answer = Distance(d: nat) | Unreachable

  /** The source's integer encoding of an answer; `-1` never collides with a
      distance. */
  function Sentinel(a: Answer): (r: int)
    ensures r == -1 <==> a.Unreachable?
    ensures r >= 0 <==> a.Distance?
    ensures a.Distance? ==> r == a.d
  {
    match a
    case Distance(d) => d
    case Unreachable => -1
  }

  /** `distance[indexes.get(v)]`; `Inf` for a label without an index. */
  function DistOf(g: Engine, s: Scratch, v: int): Dist
  {
    if v in g.index && g.index[v] < |s.distance| then s.distance[g.index[v]] else Inf
  }

  /** The shape every scratch state of a query keeps: the array has one slot
      per node, only nodes get finalized, and every frontier entry names a
      node whose current distance is at most the entry's key. */
  predicate Structural(g: Engine, s: Scratch)
  {
    && |s.distance| == g.n
    && s.finalized <= g.index.Keys
    && (forall x :: x in s.frontier ==> x.val in g.index && AtMost(DistOf(g, s, x.val), Fin(x.dist)))
  }

  /** Lines 84-95 for one neighbour `nb = (v, w)` of the popped node `u`, whose
      distance is `du`: skip `v` if it is finalized; otherwise lower
      `distance[index(v)]` to `du + w` if that is smaller, and offer `v` to the
      frontier with its (possibly unchanged) distance. */
  function RelaxEdge(g: Engine, s: Scratch, du: nat, nb: Node): (r: Scratch)
    requires WellFormed(g) && |s.distance| == g.n && nb.val in g.index
    ensures r.finalized == s.finalized && |r.distance| == |s.distance|
    ensures nb.val in s.finalized ==> r == s
    ensures nb.val !in s.finalized ==>
              && DistOf(g, r, nb.val) == MinDist(DistOf(g, s, nb.val), Fin(du + nb.dist))
              && r.frontier == s.frontier + [Node(nb.val, DistOf(g, r, nb.val).d)]
    ensures forall v :: v != nb.val ==> DistOf(g, r, v) == DistOf(g, s, v)
    ensures AtMost(DistOf(g, s, nb.val), Fin(du + nb.dist)) ==> r.distance == s.distance
  {
    if nb.val in s.finalized then s
    else
      var i := g.index[nb.val];
      var newDist := Fin(du + nb.dist);
      var distance := if Below(newDist, s.distance[i]) then s.distance[i := newDist] else s.distance;
      Scratch(distance, s.finalized, s.frontier + [Node(nb.val, distance[i].d)])
  }

  /** What a relaxation pass may push: an entry for a node that is not
      finalized, keyed between the node's distance after the pass and before
      it, and either keyed exactly as before the pass or at least `du`. */
  predicate Pushed(g: Engine, before: Scratch, after: Scratch, du: nat, x: Node)
  {
    && x.val in g.index
    && x.val !in before.finalized
    && AtMost(DistOf(g, after, x.val), Fin(x.dist))
    && AtMost(Fin(x.dist), DistOf(g, before, x.val))
    && (Fin(x.dist) == DistOf(g, before, x.val) || x.dist >= du)
  }

  /** The pass leaves the finalized set and the array size alone and only
      appends to the frontier. */
  predicate SameShape(s: Scratch, r: Scratch)
  {
    && r.finalized == s.finalized
    && |r.distance| == |s.distance|
    && |s.frontier| <= |r.frontier|
    && r.frontier[..|s.frontier|] == s.frontier
  }

  /** Distances never increase, and finalized ones never change. */
  ghost predicate NeverIncreases(g: Engine, s: Scratch, r: Scratch)
  {
    && (forall v :: AtMost(DistOf(g, r, v), DistOf(g, s, v)))
    && (forall v :: v in s.finalized ==> DistOf(g, r, v) == DistOf(g, s, v))
  }

  /** No relaxed edge into an unfinalized node can improve its target any more. */
  predicate Satisfied(g: Engine, r: Scratch, finalized: set<int>, du: nat, nbrs: seq<Node>)
  {
    forall nb :: nb in nbrs && nb.val !in finalized ==> AtMost(DistOf(g, r, nb.val), Fin(du + nb.dist))
  }

  /** Every distance that changed is `du` plus the weight of a relaxed edge
      into that node. */
  ghost predicate Justified(g: Engine, s: Scratch, r: Scratch, du: nat, nbrs: seq<Node>)
  {
    forall v :: DistOf(g, r, v) != DistOf(g, s, v) ==>
      && DistOf(g, r, v).Fin? && DistOf(g, r, v).d >= du
      && Node(v, DistOf(g, r, v).d - du) in nbrs
  }

  /** Every distance that changed was offered to the frontier with its new value. */
  ghost predicate Offered(g: Engine, s: Scratch, r: Scratch)
  {
    forall v :: v !in s.finalized && DistOf(g, r, v) != DistOf(g, s, v) ==>
      DistOf(g, r, v).Fin? && Node(v, DistOf(g, r, v).d) in r.frontier
  }

  /** Every appended frontier entry is one a relaxation pass may push. */
  predicate AllPushed(g: Engine, s: Scratch, r: Scratch, du: nat)
    requires |s.frontier| <= |r.frontier|
  {
    forall j :: |s.frontier| <= j < |r.frontier| ==> Pushed(g, s, r, du, r.frontier[j])
  }

  /** The `for` loop of lines 83-96 over the neighbour list of the popped node. */
  function RelaxAll(g: Engine, s: Scratch, du: nat, nbrs: seq<Node>): (r: Scratch)
    requires WellFormed(g) && |s.distance| == g.n
    requires forall nb :: nb in nbrs ==> nb.val in g.index
    decreases |nbrs|
  {
    if |nbrs| == 0 then s
    else RelaxAll(g, RelaxEdge(g, s, du, nbrs[0]), du, nbrs[1..])
  }

  /** The contract of a relaxation pass: it only appends to the frontier,
      never raises a distance nor touches a finalized one, leaves every
      relaxed edge satisfied, changes a distance only to `du` plus the weight
      of a relaxed edge and then offers it, pushes only admissible entries,
      and changes nothing when every edge is already satisfied. */
  lemma {:induction false} RelaxAllFacts(g: Engine, s: Scratch, du: nat, nbrs: seq<Node>)
    requires WellFormed(g) && |s.distance| == g.n
    requires forall nb :: nb in nbrs ==> nb.val in g.index
    ensures SameShape(s, RelaxAll(g, s, du, nbrs))
    ensures NeverIncreases(g, s, RelaxAll(g, s, du, nbrs))
    ensures Satisfied(g, RelaxAll(g, s, du, nbrs), s.finalized, du, nbrs)
    ensures Justified(g, s, RelaxAll(g, s, du, nbrs), du, nbrs)
    ensures Offered(g, s, RelaxAll(g, s, du, nbrs))
    ensures AllPushed(g, s, RelaxAll(g, s, du, nbrs), du)
    ensures Satisfied(g, s, s.finalized, du, nbrs) ==> RelaxAll(g, s, du, nbrs).distance == s.distance
    decreases |nbrs|
  {
    if |nbrs| > 0 {
      var s1 := RelaxEdge(g, s, du, nbrs[0]);
      var r := RelaxAll(g, s1, du, nbrs[1..]);
      assert RelaxAll(g, s, du, nbrs) == r;
      RelaxAllFacts(g, s1, du, nbrs[1..]);
      assert nbrs == [nbrs[0]] + nbrs[1..];
      ComposeShape(s, s1, r);
      ComposeNeverIncreases(g, s, s1, r, du, nbrs[0]);
      ComposeSatisfied(g, s, s1, r, du, nbrs);
      ComposeJustified(g, s, s1, r, du, nbrs);
      ComposeOffered(g, s, s1, r, du, nbrs[0]);
      ComposeAllPushed(g, s, s1, r, du, nbrs[0]);
      ComposeUnchanged(g, s, s1, du, nbrs);
    }
  }

  lemma ComposeShape(s: Scratch, s1: Scratch, r: Scratch)
    requires SameShape(s, s1) && SameShape(s1, r)
    ensures SameShape(s, r)
  {
    assert r.frontier[..|s.frontier|] == r.frontier[..|s1.frontier|][..|s.frontier|];
  }

  lemma ComposeNeverIncreases(g: Engine, s: Scratch, s1: Scratch, r: Scratch, du: nat, nb: Node)
    requires WellFormed(g) && |s.distance| == g.n && nb.val in g.index
    requires s1 == RelaxEdge(g, s, du, nb)
    requires NeverIncreases(g, s1, r)
    ensures NeverIncreases(g, s, r)
  {
    forall v
      ensures AtMost(DistOf(g, r, v), DistOf(g, s, v))
    {
      assert AtMost(DistOf(g, s1, v), DistOf(g, s, v));
    }
  }

  lemma ComposeSatisfied(g: Engine, s: Scratch, s1: Scratch, r: Scratch, du: nat, nbrs: seq<Node>)
    requires WellFormed(g) && |s.distance| == g.n && |nbrs| > 0 && nbrs[0].val in g.index
    requires s1 == RelaxEdge(g, s, du, nbrs[0])
    requires NeverIncreases(g, s1, r)
    requires Satisfied(g, r, s1.finalized, du, nbrs[1..])
    ensures Satisfied(g, r, s.finalized, du, nbrs)
  {
    forall nb | nb in nbrs && nb.val !in s.finalized
      ensures AtMost(DistOf(g, r, nb.val), Fin(du + nb.dist))
    {
      if nb !in nbrs[1..] {
        assert nb == nbrs[0];
        assert AtMost(DistOf(g, r, nb.val), DistOf(g, s1, nb.val));
      }
    }
  }

  lemma ComposeJustified(g: Engine, s: Scratch, s1: Scratch, r: Scratch, du: nat, nbrs: seq<Node>)
    requires WellFormed(g) && |s.distance| == g.n && |nbrs| > 0 && nbrs[0].val in g.index
    requires s1 == RelaxEdge(g, s, du, nbrs[0])
    requires Justified(g, s1, r, du, nbrs[1..])
    ensures Justified(g, s, r, du, nbrs)
  {
    forall v | DistOf(g, r, v) != DistOf(g, s, v)
      ensures DistOf(g, r, v).Fin? && DistOf(g, r, v).d >= du
      ensures Node(v, DistOf(g, r, v).d - du) in nbrs
    {
      if DistOf(g, r, v) != DistOf(g, s1, v) {
        assert Node(v, DistOf(g, r, v).d - du) in nbrs[1..];
      } else {
        assert v == nbrs[0].val;
        assert Node(v, DistOf(g, r, v).d - du) == nbrs[0];
      }
    }
  }

  lemma ComposeOffered(g: Engine, s: Scratch, s1: Scratch, r: Scratch, du: nat, nb: Node)
    requires WellFormed(g) && |s.distance| == g.n && nb.val in g.index
    requires s1 == RelaxEdge(g, s, du, nb)
    requires SameShape(s1, r)
    requires Offered(g, s1, r)
    ensures Offered(g, s, r)
  {
    forall v | v !in s.finalized && DistOf(g, r, v) != DistOf(g, s, v)
      ensures DistOf(g, r, v).Fin? && Node(v, DistOf(g, r, v).d) in r.frontier
    {
      if DistOf(g, r, v) == DistOf(g, s1, v) {
        var j := |s.frontier|;
        assert s1.frontier[j] == Node(v, DistOf(g, r, v).d);
        assert r.frontier[j] == s1.frontier[j];
      }
    }
  }

  lemma ComposeAllPushed(g: Engine, s: Scratch, s1: Scratch, r: Scratch, du: nat, nb: Node)
    requires WellFormed(g) && |s.distance| == g.n && nb.val in g.index
    requires s1 == RelaxEdge(g, s, du, nb)
    requires SameShape(s, s1) && SameShape(s1, r) && SameShape(s, r)
    requires NeverIncreases(g, s1, r)
    requires AllPushed(g, s1, r, du)
    ensures AllPushed(g, s, r, du)
  {
    forall j | |s.frontier| <= j < |r.frontier|
      ensures Pushed(g, s, r, du, r.frontier[j])
    {
      var x := r.frontier[j];
      if j < |s1.frontier| {
        assert x == s1.frontier[j];
        assert AtMost(DistOf(g, r, x.val), DistOf(g, s1, x.val));
      } else {
        assert Pushed(g, s1, r, du, x);
      }
    }
  }

  lemma ComposeUnchanged(g: Engine, s: Scratch, s1: Scratch, du: nat, nbrs: seq<Node>)
    requires WellFormed(g) && |s.distance| == g.n && |nbrs| > 0 && nbrs[0].val in g.index
    requires s1 == RelaxEdge(g, s, du, nbrs[0])
    ensures Satisfied(g, s, s.finalized, du, nbrs) ==>
              s1.distance == s.distance && Satisfied(g, s1, s1.finalized, du, nbrs[1..])
  {
    if Satisfied(g, s, s.finalized, du, nbrs) {
      if nbrs[0].val !in s.finalized {
        assert AtMost(DistOf(g, s, nbrs[0].val), Fin(du + nbrs[0].dist));
      }
      forall nb | nb in nbrs[1..] && nb.val !in s1.finalized
        ensures AtMost(DistOf(g, s1, nb.val), Fin(du + nb.dist))
      {
        assert nb in nbrs;
      }
    }
  }

  /** The loop's progress measure goes down: either one more node is
      finalized, or one fewer stale entry waits in the frontier. */
  predicate Progress(g: Engine, s: Scratch, t: Scratch)
  {
    || |g.index.Keys - t.finalized| < |g.index.Keys - s.finalized|
    || (&& |g.index.Keys - t.finalized| == |g.index.Keys - s.finalized|
        && StaleCount(t.frontier, t.finalized) < StaleCount(s.frontier, s.finalized))
  }

  /** Either `end` was popped (line 78) or the loop goes on. */
  datatype Outcome = Found(last: Scratch, u: int) | Continue(next: Scratch)

  /** The node the next `poll` returns. */
  function Polled(s: Scratch): (x: Node)
    requires |s.frontier| > 0
    ensures x in s.frontier
    ensures forall y :: y in s.frontier ==> x.dist <= y.dist
  {
    s.frontier[MinIndex(s.frontier)]
  }

  /** One iteration of the loop of lines 72-98: poll a minimal entry, add its
      node to the finalized set, stop if it is `end`, otherwise relax the
      node's outgoing edges. A node polled a second time (a stale entry) is
      relaxed again, as in the source. */
  function Step(g: Engine, s: Scratch, end: int): (o: Outcome)
    requires WellFormed(g) && Structural(g, s) && |s.frontier| > 0
    ensures o.Found? ==>
              && o.u == end && o.u == Polled(s).val && end in g.index
              && o.last.distance == s.distance && o.last.finalized == s.finalized + {end}
    ensures o.Continue? ==>
              && Polled(s).val != end
              && Structural(g, o.next)
              && o.next.finalized == s.finalized + {Polled(s).val}
  {
    var k := MinIndex(s.frontier);
    var u := s.frontier[k].val;
    var polled := Scratch(s.distance, s.finalized + {u}, RemoveAt(s.frontier, k));
    if u == end then Found(polled, u)
    else if u in g.adj then
      var du := DistOf(g, s, u).d;
      var next := RelaxAll(g, polled, du, g.adj[u]);
      RelaxStepFacts(g, s, polled, du, g.adj[u]);
      Continue(next)
    else
      SkipStepFacts(g, s, polled);
      Continue(polled)
  }

  /** An iteration that goes on lowers distances only, leaves finalized
      distances alone, and offers no new entry for a finalized node. */
  lemma StepMonotone(g: Engine, s: Scratch, end: int)
    requires WellFormed(g) && Structural(g, s) && |s.frontier| > 0
    ensures Step(g, s, end).Continue? ==> NeverIncreases(g, s, Step(g, s, end).next)
    ensures Step(g, s, end).Continue? ==>
              forall x :: x in Step(g, s, end).next.frontier ==> x in s.frontier || x.val !in Step(g, s, end).next.finalized
  {
    StepUnfold(g, s, end);
  }

  /** Counted as a multiset, as the heap is: an iteration that goes on holds
      no more copies of an entry for a finalized node than before it. */
  lemma StepFrame(g: Engine, s: Scratch, end: int)
    requires WellFormed(g) && Structural(g, s) && |s.frontier| > 0
    ensures Step(g, s, end).Continue? ==>
              forall x: Node :: x.val in Step(g, s, end).next.finalized ==>
                multiset(Step(g, s, end).next.frontier)[x] <= multiset(s.frontier)[x]
  {
    var k := MinIndex(s.frontier);
    var u := s.frontier[k].val;
    var polled := Scratch(s.distance, s.finalized + {u}, RemoveAt(s.frontier, k));
    if u != end {
      var du := DistOf(g, s, u).d;
      if u in g.adj {
        RelaxFrame(g, s, polled, du, g.adj[u]);
        assert Step(g, s, end) == Continue(RelaxAll(g, polled, du, g.adj[u]));
      } else {
        assert Step(g, s, end) == Continue(polled);
      }
    }
  }

  /** `StepFrame` for an iteration that relaxes the polled node's edges. */
  lemma RelaxFrame(g: Engine, s: Scratch, polled: Scratch, du: nat, nbrs: seq<Node>)
    requires WellFormed(g) && |s.distance| == g.n && |s.frontier| > 0
    requires polled == Scratch(s.distance, s.finalized + {Polled(s).val}, RemoveAt(s.frontier, MinIndex(s.frontier)))
    requires forall nb :: nb in nbrs ==> nb.val in g.index
    ensures RelaxAll(g, polled, du, nbrs).finalized == polled.finalized
    ensures forall x: Node :: x.val in polled.finalized ==>
              multiset(RelaxAll(g, polled, du, nbrs).frontier)[x] <= multiset(s.frontier)[x]
  {
    RelaxAllFacts(g, polled, du, nbrs);
    PassFrame(g, s, polled, RelaxAll(g, polled, du, nbrs), du);
  }

  /** A pass that only appends admissible entries to the polled frontier adds
      no copy of an entry for a finalized node. */
  lemma PassFrame(g: Engine, s: Scratch, polled: Scratch, next: Scratch, du: nat)
    requires |s.frontier| > 0
    requires polled.frontier == RemoveAt(s.frontier, MinIndex(s.frontier))
    requires SameShape(polled, next) && AllPushed(g, polled, next, du)
    ensures forall x: Node :: x.val in polled.finalized ==> multiset(next.frontier)[x] <= multiset(s.frontier)[x]
  {
    var m := |polled.frontier|;
    var pushed := next.frontier[m..];
    assert next.frontier == polled.frontier + pushed;
    forall j | 0 <= j < |pushed|
      ensures pushed[j].val !in polled.finalized
    {
      assert Pushed(g, polled, next, du, next.frontier[m + j]);
    }
    AppendedFrame(polled.frontier, pushed, polled.finalized);
  }

  /** Appending entries for unfinalized nodes adds no copy of an entry for a
      finalized node. */
  lemma AppendedFrame(q: seq<Node>, pushed: seq<Node>, finalized: set<int>)
    requires forall j :: 0 <= j < |pushed| ==> pushed[j].val !in finalized
    ensures forall x: Node :: x.val in finalized ==> multiset(q + pushed)[x] == multiset(q)[x]
  {
    forall x: Node | x.val in finalized
      ensures multiset(q + pushed)[x] == multiset(q)[x]
    {
      assert multiset(pushed)[x] == 0;
    }
  }

  /** An iteration that goes on lowers the loop's progress measure. */
  lemma StepDecreases(g: Engine, s: Scratch, end: int)
    requires WellFormed(g) && Structural(g, s) && |s.frontier| > 0
    ensures Step(g, s, end).Continue? ==> Progress(g, s, Step(g, s, end).next)
  {
    StepUnfold(g, s, end);
  }

  /** What an iteration that goes on keeps: progress, no distance raised, no
      finalized distance changed, and no entry added for a finalized node. */
  ghost predicate StepKeeps(g: Engine, s: Scratch, next: Scratch)
  {
    && Progress(g, s, next)
    && NeverIncreases(g, s, next)
    && forall x :: x in next.frontier ==> x in s.frontier || x.val !in next.finalized
  }

  lemma StepUnfold(g: Engine, s: Scratch, end: int)
    requires WellFormed(g) && Structural(g, s) && |s.frontier| > 0
    ensures Step(g, s, end).Continue? ==> StepKeeps(g, s, Step(g, s, end).next)
  {
    var k := MinIndex(s.frontier);
    var u := s.frontier[k].val;
    var polled := Scratch(s.distance, s.finalized + {u}, RemoveAt(s.frontier, k));
    if u != end {
      var du := DistOf(g, s, u).d;
      if u in g.adj {
        var next := RelaxAll(g, polled, du, g.adj[u]);
        RelaxStepFacts(g, s, polled, du, g.adj[u]);
        assert Step(g, s, end) == Continue(next);
      } else {
        SkipStepFacts(g, s, polled);
        assert Step(g, s, end) == Continue(polled);
      }
    }
  }

  /** `StepFacts` for an iteration that relaxes the polled node's edges. */
  lemma RelaxStepFacts(g: Engine, s: Scratch, polled: Scratch, du: nat, nbrs: seq<Node>)
    requires WellFormed(g) && Structural(g, s) && |s.frontier| > 0
    requires polled == Scratch(s.distance, s.finalized + {Polled(s).val}, RemoveAt(s.frontier, MinIndex(s.frontier)))
    requires forall nb :: nb in nbrs ==> nb.val in g.index
    ensures Structural(g, RelaxAll(g, polled, du, nbrs))
    ensures RelaxAll(g, polled, du, nbrs).finalized == polled.finalized
    ensures StepKeeps(g, s, RelaxAll(g, polled, du, nbrs))
  {
    RelaxAllFacts(g, polled, du, nbrs);
    StepFacts(g, s, polled, RelaxAll(g, polled, du, nbrs), du);
  }

  /** `StepFacts` for an iteration whose polled node has no outgoing edges. */
  lemma SkipStepFacts(g: Engine, s: Scratch, polled: Scratch)
    requires WellFormed(g) && Structural(g, s) && |s.frontier| > 0
    requires polled == Scratch(s.distance, s.finalized + {Polled(s).val}, RemoveAt(s.frontier, MinIndex(s.frontier)))
    ensures Structural(g, polled)
    ensures StepKeeps(g, s, polled)
  {
    StepFacts(g, s, polled, polled, 0);
  }

  lemma StepFacts(g: Engine, s: Scratch, polled: Scratch, next: Scratch, du: nat)
    requires WellFormed(g) && Structural(g, s) && |s.frontier| > 0
    requires polled == Scratch(s.distance, s.finalized + {Polled(s).val}, RemoveAt(s.frontier, MinIndex(s.frontier)))
    requires SameShape(polled, next) && NeverIncreases(g, polled, next) && AllPushed(g, polled, next, du)
    ensures Structural(g, next)
    ensures StepKeeps(g, s, next)
  {
    StepFrontier(g, s, polled, next, du);
    StepProgress(g, s, polled, next, du);
  }

  lemma StepFrontier(g: Engine, s: Scratch, polled: Scratch, next: Scratch, du: nat)
    requires WellFormed(g) && Structural(g, s) && |s.frontier| > 0
    requires polled == Scratch(s.distance, s.finalized + {Polled(s).val}, RemoveAt(s.frontier, MinIndex(s.frontier)))
    requires SameShape(polled, next) && NeverIncreases(g, polled, next) && AllPushed(g, polled, next, du)
    ensures Structural(g, next)
    ensures forall x :: x in next.frontier ==> x in s.frontier || x.val !in next.finalized
  {
    var m := |polled.frontier|;
    forall x | x in next.frontier
      ensures x.val in g.index && AtMost(DistOf(g, next, x.val), Fin(x.dist))
      ensures x in s.frontier || x.val !in next.finalized
    {
      var j :| 0 <= j < |next.frontier| && next.frontier[j] == x;
      if j < m {
        assert x == polled.frontier[j];
        assert x in polled.frontier;
        assert AtMost(DistOf(g, next, x.val), DistOf(g, polled, x.val));
      } else {
        assert Pushed(g, polled, next, du, x);
      }
    }
  }

  lemma StepProgress(g: Engine, s: Scratch, polled: Scratch, next: Scratch, du: nat)
    requires WellFormed(g) && Structural(g, s) && |s.frontier| > 0
    requires polled == Scratch(s.distance, s.finalized + {Polled(s).val}, RemoveAt(s.frontier, MinIndex(s.frontier)))
    requires SameShape(polled, next) && AllPushed(g, polled, next, du)
    ensures Progress(g, s, next)
  {
    var u := Polled(s).val;
    if u in s.finalized {
      StaleStepProgress(g, s, polled, next, du);
    } else {
      FreshProgress(g.index.Keys, s.finalized, u);
    }
  }

  /** Polling a stale entry finalizes nothing new and removes a stale entry;
      what the pass pushes is not stale. */
  lemma StaleStepProgress(g: Engine, s: Scratch, polled: Scratch, next: Scratch, du: nat)
    requires |s.frontier| > 0 && s.frontier[MinIndex(s.frontier)].val in s.finalized
    requires polled == Scratch(s.distance, s.finalized, RemoveAt(s.frontier, MinIndex(s.frontier)))
    requires SameShape(polled, next) && AllPushed(g, polled, next, du)
    ensures |g.index.Keys - next.finalized| == |g.index.Keys - s.finalized|
    ensures StaleCount(next.frontier, next.finalized) < StaleCount(s.frontier, s.finalized)
  {
    var m := |polled.frontier|;
    var pushed := next.frontier[m..];
    forall j | 0 <= j < |pushed|
      ensures pushed[j].val !in s.finalized
    {
      assert Pushed(g, polled, next, du, next.frontier[m + j]);
    }
    StaleProgress(s.frontier, MinIndex(s.frontier), pushed, s.finalized);
    assert next.frontier == polled.frontier + pushed;
  }

  lemma FreshProgress(keys: set<int>, finalized: set<int>, u: int)
    requires u in keys && u !in finalized
    ensures |keys - (finalized + {u})| < |keys - finalized|
  {
    assert keys - (finalized + {u}) == (keys - finalized) - {u};
  }

  lemma StaleProgress(q: seq<Node>, k: nat, pushed: seq<Node>, finalized: set<int>)
    requires k < |q| && q[k].val in finalized
    requires forall j :: 0 <= j < |pushed| ==> pushed[j].val !in finalized
    ensures StaleCount(RemoveAt(q, k) + pushed, finalized) < StaleCount(q, finalized)
  {
    StaleCountRemove(q, k, finalized);
    StaleCountAppend(RemoveAt(q, k), pushed, finalized);
    StaleCountNone(pushed, finalized);
  }

  /** How the loop of lines 72-98 ends: `end` popped, or the loop condition
      failed (every node finalized, or the frontier empty). */
  datatype Final = Popped(last: Scratch, u: int) | Exhausted

  /** The loop of lines 72-98, run from `s` until it returns or its condition
      fails. */
  function Run(g: Engine, s: Scratch, end: int): (f: Final)
    requires WellFormed(g) && Structural(g, s)
    ensures f.Popped? ==> f.u == end && end in g.index && end in f.last.finalized
    ensures f.Popped? ==> |f.last.distance| == g.n && DistOf(g, f.last, end).Fin?
    decreases |g.index.Keys - s.finalized|, StaleCount(s.frontier, s.finalized)
  {
    if |s.finalized| == |s.distance| || |s.frontier| == 0 then Exhausted
    else
      match Step(g, s, end)
      case Found(last, u) =>
        assert Polled(s) in s.frontier;
        Popped(last, u)
      case Continue(next) =>
        StepDecreases(g, s, end);
        Run(g, next, end)
  }

  /** `Run` goes on from a state whose loop guard holds by taking one step. */
  lemma RunStep(g: Engine, s: Scratch, end: int)
    requires WellFormed(g) && Structural(g, s)
    requires |s.finalized| != |s.distance| && |s.frontier| > 0
    ensures Step(g, s, end).Found? ==> Run(g, s, end) == Popped(Step(g, s, end).last, end)
    ensures Step(g, s, end).Continue? ==> Run(g, s, end) == Run(g, Step(g, s, end).next, end)
  {
  }

  /** Lines 68-71 on fresh scratch state: every distance infinite except the
      start's, which is zero; nothing finalized; the start alone in the
      frontier. */
  function Initial(g: Engine, start: int): (s: Scratch)
    requires WellFormed(g) && start in g.index
    ensures Structural(g, s)
    ensures forall v :: v in g.index ==> DistOf(g, s, v) == if v == start then Fin(0) else Inf
    ensures s.finalized == {} && s.frontier == [Node(start, 0)]
  {
    Scratch(seq(g.n, _ => Inf)[g.index[start] := Fin(0)], {}, [Node(start, 0)])
  }

  /** `queryShorestDist(start, end)`, lines 60-101, with line 79 reading the
      distance of `end` at its dense index. */
  function Query(g: Engine, start: int, end: int): (r: Answer)
    requires WellFormed(g)
  {
    if start == end then Distance(0)
    else if start !in g.adj then Unreachable
    else
      match Run(g, Initial(g, start), end)
      case Popped(last, u) => Distance(DistOf(g, last, u).d)
      case Exhausted => Unreachable
  }
}
