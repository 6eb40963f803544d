/** Why the query is right: the loop invariant of a query, its preservation
    by every iteration (fresh and stale polls alike), and the resulting
    theorem that a query returns the minimum path weight, or `Unreachable`
    exactly when no path exists. */
module Correctness {
  import opened Graph
  import opened Construction
  import opened Frontier
  import opened Dijkstra

  /** Every finite distance is the weight of some path from the start. */
  ghost predicate Sound(g: Engine, edges: seq<Edge>, start: int, s: Scratch)
  {
    forall v {:trigger Witnessed(edges, start, v, DistOf(g, s, v).d)} ::
      v in g.index && DistOf(g, s, v).Fin? ==> Witnessed(edges, start, v, DistOf(g, s, v).d)
  }

  /** A finalized node's distance is finite and no path to it is lighter. */
  ghost predicate FinalizedOptimal(g: Engine, edges: seq<Edge>, start: int, s: Scratch)
  {
    forall v :: v in s.finalized ==> DistOf(g, s, v).Fin? && LowerBound(edges, start, v, DistOf(g, s, v).d)
  }

  /** Finalized nodes are no farther than any key still in the frontier. */
  predicate FinalizedFirst(g: Engine, s: Scratch)
  {
    forall v, x :: v in s.finalized && x in s.frontier ==> AtMost(DistOf(g, s, v), Fin(x.dist))
  }

  /** An unfinalized node with a finite distance waits in the frontier under
      exactly that distance (possibly beside stale, larger entries). */
  predicate Tracked(g: Engine, s: Scratch)
  {
    forall v :: v in g.index && v !in s.finalized && DistOf(g, s, v).Fin? ==> Node(v, DistOf(g, s, v).d) in s.frontier
  }

  /** Every edge out of a finalized node has been relaxed. */
  predicate Relaxed(g: Engine, edges: seq<Edge>, s: Scratch)
  {
    forall e :: e in edges && e.src in s.finalized ==> AtMost(DistOf(g, s, e.dst), Plus(DistOf(g, s, e.src), e.w))
  }

  /** The invariant of the loop of lines 72-98, for a query from `start` to
      `end` on an engine for `edges`, while `end` has not been popped. */
  ghost predicate Good(g: Engine, edges: seq<Edge>, start: int, end: int, s: Scratch)
  {
    && Represents(g, edges)
    && Structural(g, s)
    && start in g.index
    && DistOf(g, s, start) == Fin(0)
    && end !in s.finalized
    && Sound(g, edges, start, s)
    && FinalizedOptimal(g, edges, start, s)
    && FinalizedFirst(g, s)
    && Tracked(g, s)
    && Relaxed(g, edges, s)
  }

  /** Any path from the start to an unfinalized label passes through an
      unfinalized node whose current distance is at most the path's weight:
      walk back from the end to the first finalized node, whose out-edges are
      relaxed. */
  lemma {:induction false} FrontierWitness(g: Engine, edges: seq<Edge>, start: int, s: Scratch, p: seq<Edge>, t: int)
    returns (x: int)
    requires Represents(g, edges) && Structural(g, s)
    requires start in g.index && DistOf(g, s, start) == Fin(0)
    requires FinalizedOptimal(g, edges, start, s) && Relaxed(g, edges, s)
    requires IsPath(edges, p, start, t) && t !in s.finalized
    ensures x in g.index && x !in s.finalized
    ensures DistOf(g, s, x).Fin? && DistOf(g, s, x).d <= Weight(p)
    decreases |p|
  {
    if |p| == 0 {
      x := start;
    } else {
      var e := p[|p| - 1];
      var prefix := p[..|p| - 1];
      PathPrefix(edges, p, start, t);
      if e.src !in s.finalized {
        x := FrontierWitness(g, edges, start, s, prefix, e.src);
      } else {
        assert e in edges;
        assert DistOf(g, s, e.src).d <= Weight(prefix);
        x := t;
      }
    }
  }

  /** When the loop condition fails, `end` cannot be reached: a path to it
      would keep an unfinalized node in the frontier. */
  lemma ExhaustedUnreachable(g: Engine, edges: seq<Edge>, start: int, end: int, s: Scratch)
    requires Good(g, edges, start, end, s)
    ensures Reachable(edges, start, end) ==> |s.frontier| > 0 && |s.finalized| < |s.distance|
  {
    if Reachable(edges, start, end) {
      var p :| IsPath(edges, p, start, end);
      var x := FrontierWitness(g, edges, start, s, p, end);
      assert Node(x, DistOf(g, s, x).d) in s.frontier;
      FewerFinalized(g.index.Keys, s.finalized, x);
    }
  }

  /** A set missing one element of a finite superset is strictly smaller. */
  lemma FewerFinalized(keys: set<int>, finalized: set<int>, x: int)
    requires finalized <= keys && x in keys && x !in finalized
    ensures |finalized| < |keys|
  {
    assert keys == finalized + (keys - finalized);
    assert x in keys - finalized;
  }

  /** A node polled for the first time carries its exact distance, and that
      distance is the shortest: every other path is at least as heavy as some
      frontier entry. */
  lemma PolledIsShortest(g: Engine, edges: seq<Edge>, start: int, end: int, s: Scratch)
    requires Good(g, edges, start, end, s) && |s.frontier| > 0
    requires Polled(s).val !in s.finalized
    ensures DistOf(g, s, Polled(s).val) == Fin(Polled(s).dist)
    ensures IsShortest(edges, start, Polled(s).val, Polled(s).dist)
  {
    var x0 := Polled(s);
    var u := x0.val;
    assert AtMost(DistOf(g, s, u), Fin(x0.dist));
    assert Node(u, DistOf(g, s, u).d) in s.frontier;
    forall p | IsPath(edges, p, start, u)
      ensures x0.dist <= Weight(p)
    {
      var x := FrontierWitness(g, edges, start, s, p, u);
      assert Node(x, DistOf(g, s, x).d) in s.frontier;
    }
  }

  /** An element of a prefix of the frontier is in the frontier. */
  lemma InPrefix(q: seq<Node>, r: seq<Node>, x: Node)
    requires |q| <= |r| && r[..|q|] == q && x in q
    ensures x in r
  {
    var j :| 0 <= j < |q| && q[j] == x;
    assert r[j] == x;
  }

  /** After a fresh poll of `u` with distance `du`, every frontier entry is
      an old one or is keyed at least `du`. */
  lemma FreshFrontier(g: Engine, edges: seq<Edge>, start: int, end: int, s: Scratch,
                      polled: Scratch, next: Scratch, du: nat)
    requires Good(g, edges, start, end, s) && |s.frontier| > 0
    requires polled == Scratch(s.distance, s.finalized + {Polled(s).val}, RemoveAt(s.frontier, MinIndex(s.frontier)))
    requires SameShape(polled, next) && AllPushed(g, polled, next, du)
    ensures forall x :: x in next.frontier ==> x in s.frontier || x.dist >= du
  {
    var m := |polled.frontier|;
    forall x | x in next.frontier
      ensures x in s.frontier || x.dist >= du
    {
      var j :| 0 <= j < |next.frontier| && next.frontier[j] == x;
      if j < m {
        assert x == polled.frontier[j];
        assert x in polled.frontier;
      } else {
        assert Pushed(g, polled, next, du, x);
        if x.dist < du {
          assert Fin(x.dist) == DistOf(g, s, x.val);
        }
      }
    }
  }

  /** What a relaxation pass from `s` to `r` guarantees (the contract of
      `RelaxAll`). */
  ghost predicate Pass(g: Engine, s: Scratch, r: Scratch, du: nat, nbrs: seq<Node>)
  {
    && SameShape(s, r)
    && NeverIncreases(g, s, r)
    && Satisfied(g, r, s.finalized, du, nbrs)
    && Justified(g, s, r, du, nbrs)
    && Offered(g, s, r)
    && AllPushed(g, s, r, du)
  }

  /** A fresh poll of `u` (not `end`) followed by relaxing its edges keeps the
      invariant. */
  lemma FreshStepGood(g: Engine, edges: seq<Edge>, start: int, end: int, s: Scratch,
                      polled: Scratch, next: Scratch, du: nat, nbrs: seq<Node>)
    requires Good(g, edges, start, end, s) && |s.frontier| > 0
    requires Polled(s).val !in s.finalized && Polled(s).val != end
    requires du == Polled(s).dist && DistOf(g, s, Polled(s).val) == Fin(du)
    requires IsShortest(edges, start, Polled(s).val, du)
    requires polled == Scratch(s.distance, s.finalized + {Polled(s).val}, RemoveAt(s.frontier, MinIndex(s.frontier)))
    requires nbrs == if Polled(s).val in g.adj then g.adj[Polled(s).val] else []
    requires Pass(g, polled, next, du, nbrs)
    requires Structural(g, next)
    ensures Good(g, edges, start, end, next)
  {
    var u := Polled(s).val;
    assert AtMost(DistOf(g, next, start), DistOf(g, polled, start));
    FreshFrontier(g, edges, start, end, s, polled, next, du);
    FreshSound(g, edges, start, s, polled, next, u, du, nbrs);
    FreshFinalizedFirst(g, edges, start, end, s, polled, next, du);
    FreshTracked(g, edges, start, end, s, polled, next, du);
    FreshRelaxed(g, edges, start, end, s, polled, next, du, nbrs);
    FreshFinalizedOptimal(g, edges, start, end, s, polled, next, du);
  }

  lemma FreshFinalizedOptimal(g: Engine, edges: seq<Edge>, start: int, end: int, s: Scratch,
                              polled: Scratch, next: Scratch, du: nat)
    requires Good(g, edges, start, end, s) && |s.frontier| > 0
    requires DistOf(g, s, Polled(s).val) == Fin(du)
    requires IsShortest(edges, start, Polled(s).val, du)
    requires polled.distance == s.distance && polled.finalized == s.finalized + {Polled(s).val}
    requires next.finalized == polled.finalized
    requires NeverIncreases(g, polled, next)
    ensures FinalizedOptimal(g, edges, start, next)
  {
    forall v | v in next.finalized
      ensures DistOf(g, next, v).Fin? && LowerBound(edges, start, v, DistOf(g, next, v).d)
    {
      assert DistOf(g, next, v) == DistOf(g, s, v);
    }
  }

  lemma FreshSound(g: Engine, edges: seq<Edge>, start: int, s: Scratch,
                   polled: Scratch, next: Scratch, u: int, du: nat, nbrs: seq<Node>)
    requires Represents(g, edges) && Sound(g, edges, start, s)
    requires Witnessed(edges, start, u, du)
    requires polled.distance == s.distance
    requires nbrs == if u in g.adj then g.adj[u] else []
    requires Justified(g, polled, next, du, nbrs)
    ensures Sound(g, edges, start, next)
  {
    forall v | v in g.index && DistOf(g, next, v).Fin?
      ensures Witnessed(edges, start, v, DistOf(g, next, v).d)
    {
      if DistOf(g, next, v) != DistOf(g, polled, v) {
        var d := DistOf(g, next, v).d;
        assert Node(v, d - du) in nbrs;
        ExtendWitness(edges, start, Edge(u, v, d - du), du);
      } else {
        assert Witnessed(edges, start, v, DistOf(g, s, v).d);
      }
    }
  }

  /** A path to `e.src` followed by `e` witnesses a path to `e.dst`. */
  lemma ExtendWitness(edges: seq<Edge>, start: int, e: Edge, d: nat)
    requires Witnessed(edges, start, e.src, d) && e in edges
    ensures Witnessed(edges, start, e.dst, d + e.w)
  {
    var p :| IsPath(edges, p, start, e.src) && Weight(p) == d;
    PathExtend(edges, p, start, e);
  }

  lemma FreshFinalizedFirst(g: Engine, edges: seq<Edge>, start: int, end: int, s: Scratch,
                            polled: Scratch, next: Scratch, du: nat)
    requires Good(g, edges, start, end, s) && |s.frontier| > 0
    requires du == Polled(s).dist && DistOf(g, s, Polled(s).val) == Fin(du)
    requires polled.distance == s.distance && polled.finalized == s.finalized + {Polled(s).val}
    requires next.finalized == polled.finalized
    requires NeverIncreases(g, polled, next)
    requires forall x :: x in next.frontier ==> x in s.frontier || x.dist >= du
    ensures FinalizedFirst(g, next)
  {
    forall v, x | v in next.finalized && x in next.frontier
      ensures AtMost(DistOf(g, next, v), Fin(x.dist))
    {
      assert DistOf(g, next, v) == DistOf(g, s, v);
      if v in s.finalized {
        assert AtMost(DistOf(g, s, v), Fin(Polled(s).dist));
      }
    }
  }

  lemma FreshTracked(g: Engine, edges: seq<Edge>, start: int, end: int, s: Scratch,
                     polled: Scratch, next: Scratch, du: nat)
    requires Good(g, edges, start, end, s) && |s.frontier| > 0
    requires polled == Scratch(s.distance, s.finalized + {Polled(s).val}, RemoveAt(s.frontier, MinIndex(s.frontier)))
    requires SameShape(polled, next) && Offered(g, polled, next)
    ensures Tracked(g, next)
  {
    forall v | v in g.index && v !in next.finalized && DistOf(g, next, v).Fin?
      ensures Node(v, DistOf(g, next, v).d) in next.frontier
    {
      if DistOf(g, next, v) == DistOf(g, polled, v) {
        var x := Node(v, DistOf(g, s, v).d);
        assert x in s.frontier;
        assert x != s.frontier[MinIndex(s.frontier)];
        assert x in polled.frontier;
        InPrefix(polled.frontier, next.frontier, x);
      }
    }
  }

  lemma FreshRelaxed(g: Engine, edges: seq<Edge>, start: int, end: int, s: Scratch,
                     polled: Scratch, next: Scratch, du: nat, nbrs: seq<Node>)
    requires Good(g, edges, start, end, s) && |s.frontier| > 0
    requires du == Polled(s).dist && DistOf(g, s, Polled(s).val) == Fin(du)
    requires polled.distance == s.distance && polled.finalized == s.finalized + {Polled(s).val}
    requires next.finalized == polled.finalized
    requires nbrs == if Polled(s).val in g.adj then g.adj[Polled(s).val] else []
    requires NeverIncreases(g, polled, next)
    requires Satisfied(g, next, polled.finalized, du, nbrs)
    ensures Relaxed(g, edges, next)
  {
    var u := Polled(s).val;
    forall e | e in edges && e.src in next.finalized
      ensures AtMost(DistOf(g, next, e.dst), Plus(DistOf(g, next, e.src), e.w))
    {
      assert DistOf(g, next, e.src) == DistOf(g, s, e.src);
      assert AtMost(DistOf(g, next, e.dst), DistOf(g, s, e.dst));
      if e.src == u {
        assert Node(e.dst, e.w) in nbrs;
        if e.dst in s.finalized {
          assert AtMost(DistOf(g, s, e.dst), Fin(Polled(s).dist));
        }
      }
    }
  }

  /** A stale poll of an already finalized node changes no distance: every
      edge out of it was relaxed when it was first polled. Its re-offered
      entries duplicate ones already in the frontier, so the invariant holds. */
  lemma StaleStepGood(g: Engine, edges: seq<Edge>, start: int, end: int, s: Scratch,
                      polled: Scratch, next: Scratch, du: nat, nbrs: seq<Node>)
    requires Good(g, edges, start, end, s) && |s.frontier| > 0
    requires Polled(s).val in s.finalized
    requires DistOf(g, s, Polled(s).val) == Fin(du)
    requires polled == Scratch(s.distance, s.finalized + {Polled(s).val}, RemoveAt(s.frontier, MinIndex(s.frontier)))
    requires nbrs == if Polled(s).val in g.adj then g.adj[Polled(s).val] else []
    requires SameShape(polled, next) && AllPushed(g, polled, next, du) && Structural(g, next)
    requires Satisfied(g, polled, polled.finalized, du, nbrs) ==> next.distance == polled.distance
    ensures next.distance == s.distance
    ensures Good(g, edges, start, end, next)
  {
    StaleSatisfied(g, edges, start, end, s, polled, du, nbrs);
    StalePushed(g, s, polled, next, du);
    StaleFrontier(s, polled, next);
    GoodTransfer(g, edges, start, end, s, next);
  }

  /** Every edge out of a finalized node is already satisfied. */
  lemma StaleSatisfied(g: Engine, edges: seq<Edge>, start: int, end: int, s: Scratch,
                       polled: Scratch, du: nat, nbrs: seq<Node>)
    requires Good(g, edges, start, end, s) && |s.frontier| > 0
    requires Polled(s).val in s.finalized
    requires DistOf(g, s, Polled(s).val) == Fin(du)
    requires polled.distance == s.distance && polled.finalized == s.finalized
    requires nbrs == if Polled(s).val in g.adj then g.adj[Polled(s).val] else []
    ensures Satisfied(g, polled, polled.finalized, du, nbrs)
  {
    var u := Polled(s).val;
    forall nb | nb in nbrs && nb.val !in polled.finalized
      ensures AtMost(DistOf(g, polled, nb.val), Fin(du + nb.dist))
    {
      assert Edge(u, nb.val, nb.dist) in edges;
      assert DistOf(g, polled, nb.val) == DistOf(g, s, nb.val);
    }
  }

  /** With distances unchanged, every entry a pass pushes is the one the
      frontier already holds for that node. */
  lemma StalePushed(g: Engine, s: Scratch, polled: Scratch, next: Scratch, du: nat)
    requires Tracked(g, s)
    requires polled.distance == s.distance && polled.finalized == s.finalized
    requires next.distance == s.distance
    requires SameShape(polled, next) && AllPushed(g, polled, next, du)
    ensures forall j :: |polled.frontier| <= j < |next.frontier| ==> next.frontier[j] in s.frontier
  {
    forall j | |polled.frontier| <= j < |next.frontier|
      ensures next.frontier[j] in s.frontier
    {
      var x := next.frontier[j];
      assert Pushed(g, polled, next, du, x);
      assert DistOf(g, polled, x.val) == DistOf(g, s, x.val);
      assert x == Node(x.val, DistOf(g, s, x.val).d);
    }
  }

  /** Entries pushed by a stale poll are already in the frontier: the
      frontier after the pass holds no new entry and keeps every unfinalized one. */
  lemma StaleFrontier(s: Scratch, polled: Scratch, next: Scratch)
    requires |s.frontier| > 0 && Polled(s).val in s.finalized
    requires polled == Scratch(s.distance, s.finalized + {Polled(s).val}, RemoveAt(s.frontier, MinIndex(s.frontier)))
    requires SameShape(polled, next)
    requires forall j :: |polled.frontier| <= j < |next.frontier| ==> next.frontier[j] in s.frontier
    ensures forall x :: x in next.frontier ==> x in s.frontier
    ensures forall x :: x in s.frontier && x.val !in s.finalized ==> x in next.frontier
  {
    var m := |polled.frontier|;
    forall x | x in next.frontier
      ensures x in s.frontier
    {
      var j :| 0 <= j < |next.frontier| && next.frontier[j] == x;
      if j < m {
        assert x == polled.frontier[j];
      }
    }
    forall x | x in s.frontier && x.val !in s.finalized
      ensures x in next.frontier
    {
      assert x in polled.frontier;
      InPrefix(polled.frontier, next.frontier, x);
    }
  }

  /** The invariant depends on the frontier only through which unfinalized
      entries it holds: a state with the same distances and finalized set,
      no new entries, and every unfinalized entry kept is as good. */
  lemma GoodTransfer(g: Engine, edges: seq<Edge>, start: int, end: int, s: Scratch, t: Scratch)
    requires Good(g, edges, start, end, s)
    requires t.distance == s.distance && t.finalized == s.finalized && Structural(g, t)
    requires forall x :: x in t.frontier ==> x in s.frontier
    requires forall x :: x in s.frontier && x.val !in s.finalized ==> x in t.frontier
    ensures Good(g, edges, start, end, t)
  {
    forall v | v in g.index && DistOf(g, t, v).Fin?
      ensures Witnessed(edges, start, v, DistOf(g, t, v).d)
    {
      assert DistOf(g, t, v) == DistOf(g, s, v);
      assert Witnessed(edges, start, v, DistOf(g, s, v).d);
    }
    forall v | v in t.finalized
      ensures DistOf(g, t, v).Fin? && LowerBound(edges, start, v, DistOf(g, t, v).d)
    {
      assert DistOf(g, t, v) == DistOf(g, s, v);
    }
    forall v | v in g.index && v !in t.finalized && DistOf(g, t, v).Fin?
      ensures Node(v, DistOf(g, t, v).d) in t.frontier
    {
      assert DistOf(g, t, v) == DistOf(g, s, v);
    }
  }

  /** One loop iteration keeps the invariant, or pops `end` with its shortest
      distance. */
  lemma StepGood(g: Engine, edges: seq<Edge>, start: int, end: int, s: Scratch)
    requires Good(g, edges, start, end, s) && |s.frontier| > 0
    ensures Step(g, s, end).Found? ==>
              IsShortest(edges, start, end, DistOf(g, Step(g, s, end).last, end).d)
    ensures Step(g, s, end).Continue? ==> Good(g, edges, start, end, Step(g, s, end).next)
  {
    var u := Polled(s).val;
    var polled := Scratch(s.distance, s.finalized + {u}, RemoveAt(s.frontier, MinIndex(s.frontier)));
    var nbrs := if u in g.adj then g.adj[u] else [];
    assert AtMost(DistOf(g, s, u), Fin(Polled(s).dist));
    var du := DistOf(g, s, u).d;
    if u == end {
      PolledIsShortest(g, edges, start, end, s);
      assert Step(g, s, end).last.distance == s.distance;
      assert DistOf(g, Step(g, s, end).last, end) == DistOf(g, s, end);
    } else {
      assert Step(g, s, end) == Continue(RelaxAll(g, polled, du, nbrs));
      ContinueGood(g, edges, start, end, s, polled, du, nbrs);
    }
  }

  /** An iteration that does not pop `end` keeps the invariant, whether its
      poll is fresh or stale. */
  lemma ContinueGood(g: Engine, edges: seq<Edge>, start: int, end: int, s: Scratch,
                     polled: Scratch, du: nat, nbrs: seq<Node>)
    requires Good(g, edges, start, end, s) && |s.frontier| > 0
    requires Polled(s).val != end
    requires DistOf(g, s, Polled(s).val) == Fin(du)
    requires polled == Scratch(s.distance, s.finalized + {Polled(s).val}, RemoveAt(s.frontier, MinIndex(s.frontier)))
    requires nbrs == if Polled(s).val in g.adj then g.adj[Polled(s).val] else []
    requires Structural(g, RelaxAll(g, polled, du, nbrs))
    ensures Good(g, edges, start, end, RelaxAll(g, polled, du, nbrs))
  {
    var next := RelaxAll(g, polled, du, nbrs);
    RelaxAllFacts(g, polled, du, nbrs);
    assert Pass(g, polled, next, du, nbrs);
    if Polled(s).val in s.finalized {
      assert polled.finalized == s.finalized;
      StaleStepGood(g, edges, start, end, s, polled, next, du, nbrs);
    } else {
      PolledIsShortest(g, edges, start, end, s);
      FreshStepGood(g, edges, start, end, s, polled, next, du, nbrs);
    }
  }

  /** The loop, run from a state satisfying the invariant, returns the
      shortest distance to `end` or stops only when `end` is unreachable. */
  lemma {:induction false} RunCorrect(g: Engine, edges: seq<Edge>, start: int, end: int, s: Scratch)
    requires Good(g, edges, start, end, s)
    ensures Run(g, s, end).Popped? ==>
              IsShortest(edges, start, end, DistOf(g, Run(g, s, end).last, end).d)
    ensures Run(g, s, end).Exhausted? ==> !Reachable(edges, start, end)
    decreases |g.index.Keys - s.finalized|, StaleCount(s.frontier, s.finalized)
  {
    if |s.finalized| == |s.distance| || |s.frontier| == 0 {
      ExhaustedUnreachable(g, edges, start, end, s);
    } else {
      StepGood(g, edges, start, end, s);
      StepDecreases(g, s, end);
      match Step(g, s, end)
      case Found(last, u) =>
      case Continue(next) =>
        RunCorrect(g, edges, start, end, next);
    }
  }

  /** Lines 68-71 establish the invariant. */
  lemma InitialGood(g: Engine, edges: seq<Edge>, start: int, end: int)
    requires Represents(g, edges) && start in g.index && start != end
    ensures Good(g, edges, start, end, Initial(g, start))
  {
    var s := Initial(g, start);
    forall v | v in g.index && DistOf(g, s, v).Fin?
      ensures Witnessed(edges, start, v, DistOf(g, s, v).d)
    {
      assert v == start;
      assert IsPath(edges, [], start, start) && Weight([]) == 0;
    }
  }

  /** The stated purpose of `queryShorestDist`: on an engine for `edges`, the
      query answers `Distance(d)` exactly when `d` is the minimum total weight
      over directed paths from `start` to `end`, and `Unreachable` exactly
      when there is no such path. */
  lemma QueryCorrect(g: Engine, edges: seq<Edge>, start: int, end: int)
    requires Represents(g, edges)
    ensures Query(g, start, end).Distance? ==> IsShortest(edges, start, end, Query(g, start, end).d)
    ensures forall d: nat :: IsShortest(edges, start, end, d) ==> Query(g, start, end) == Distance(d)
    ensures Query(g, start, end).Unreachable? <==> !Reachable(edges, start, end)
  {
    var r := Query(g, start, end);
    if start == end {
      SelfDistanceZero(edges, start);
    } else if start !in g.adj {
      NoOutgoingEdgeNoPath(edges, start, end);
    } else {
      InitialGood(g, edges, start, end);
      RunCorrect(g, edges, start, end, Initial(g, start));
    }
    if r.Distance? {
      forall d: nat | IsShortest(edges, start, end, d)
        ensures r == Distance(d)
      {
        ShortestUnique(edges, start, end, d, r.d);
      }
    }
  }
}
