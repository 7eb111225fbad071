/**
 The move graph and multi-source reachability over it.

 A graph maps a source range to the set of ranges some qualifying move
 copies it into. `ReachSet(g, seeds)` is the reference definition of what
 the propagation computes: the ranges reachable from a seed by zero or more
 edges.
 */
module Graphs {
  import opened DataStructures

  type Graph = map<RangeId, set<RangeId>>

  predicate HasEdge(g: Graph, s: RangeId, d: RangeId) {
    s in g && d in g[s]
  }

  /** Every adjacency set stored in the graph is non-empty. */
  predicate EntriesNonEmpty(g: Graph) {
    forall s :: s in g ==> g[s] != {}
  }

  /** Insert `src -> dst`: extend the adjacency set of `src` if it has one,
      otherwise give `src` the singleton set. */
  function AddEdge(g: Graph, src: RangeId, dst: RangeId): (r: Graph)
    ensures forall s, d :: HasEdge(r, s, d) <==> HasEdge(g, s, d) || (s == src && d == dst)
    ensures r.Keys == g.Keys + {src}
    ensures EntriesNonEmpty(g) ==> EntriesNonEmpty(r)
  {
    if src in g then
      g[src := g[src] + {dst}]
    else
      g[src := {dst}]
  }

  /** Inserting an edge that is already there leaves the map unchanged. */
  lemma AddEdgeDuplicate(g: Graph, src: RangeId, dst: RangeId)
    requires HasEdge(g, src, dst)
    ensures AddEdge(g, src, dst) == g
  {
    assert g[src] + {dst} == g[src];
  }

  /** All destinations of all edges. */
  ghost function Targets(g: Graph): set<RangeId> {
    set s, d | s in g && d in g[s] :: d
  }

  /** The finite vertex universe the search can ever touch. */
  ghost function Nodes(g: Graph, seeds: set<RangeId>): set<RangeId> {
    seeds + g.Keys + Targets(g)
  }

  /** Position `i` of `p` is followed by one of its successors. */
  ghost predicate Link(g: Graph, p: seq<RangeId>, i: nat)
    requires i + 1 < |p|
  {
    HasEdge(g, p[i], p[i + 1])
  }

  ghost predicate IsPath(g: Graph, p: seq<RangeId>) {
    |p| > 0 && forall i: nat :: i + 1 < |p| ==> Link(g, p, i)
  }

  /** `x` is reachable from some seed by zero or more edges. */
  ghost predicate Reaches(g: Graph, seeds: set<RangeId>, x: RangeId) {
    exists p :: IsPath(g, p) && p[0] in seeds && p[|p| - 1] == x
  }

  ghost function ReachSet(g: Graph, seeds: set<RangeId>): set<RangeId> {
    set x | x in Nodes(g, seeds) && Reaches(g, seeds, x)
  }

  /** No edge leaves `v`. */
  ghost predicate Closed(g: Graph, v: set<RangeId>) {
    forall s, d :: s in v && HasEdge(g, s, d) ==> d in v
  }

  lemma SeedReaches(g: Graph, seeds: set<RangeId>, s: RangeId)
    requires s in seeds
    ensures Reaches(g, seeds, s)
  {
    assert IsPath(g, [s]);
  }

  lemma ReachesStep(g: Graph, seeds: set<RangeId>, x: RangeId, d: RangeId)
    requires Reaches(g, seeds, x) && HasEdge(g, x, d)
    ensures Reaches(g, seeds, d)
  {
    var p :| IsPath(g, p) && p[0] in seeds && p[|p| - 1] == x;
    var q := p + [d];
    forall i: nat | i + 1 < |q|
      ensures Link(g, q, i)
    {
      if i + 1 < |p| {
        assert Link(g, p, i);
        assert q[i] == p[i] && q[i + 1] == p[i + 1];
      } else {
        assert q[i] == x && q[i + 1] == d;
      }
    }
    assert IsPath(g, q) && q[0] in seeds && q[|q| - 1] == d;
  }

  lemma ReachesInNodes(g: Graph, seeds: set<RangeId>, x: RangeId)
    requires Reaches(g, seeds, x)
    ensures x in Nodes(g, seeds)
  {
    var p :| IsPath(g, p) && p[0] in seeds && p[|p| - 1] == x;
    if |p| > 1 {
      var n := |p|;
      assert Link(g, p, n - 2);
      assert x in Targets(g);
    }
  }

  /** A path that starts inside a closed set stays inside it. */
  lemma {:induction false} PathStaysInClosed(g: Graph, v: set<RangeId>, p: seq<RangeId>)
    requires Closed(g, v) && IsPath(g, p) && p[0] in v
    ensures p[|p| - 1] in v
    decreases |p|
  {
    if |p| > 1 {
      var q := p[..|p| - 1];
      assert IsPath(g, q) by {
        forall i: nat | i + 1 < |q|
          ensures Link(g, q, i)
        {
          assert Link(g, p, i);
          assert q[i] == p[i] && q[i + 1] == p[i + 1];
        }
      }
      PathStaysInClosed(g, v, q);
      assert Link(g, p, |p| - 2);
    }
  }

  /** The reachable set is the least closed superset of the seeds. */
  lemma ReachSetLeastClosed(g: Graph, seeds: set<RangeId>, v: set<RangeId>)
    requires seeds <= v && Closed(g, v)
    ensures ReachSet(g, seeds) <= v
  {
    forall x | x in ReachSet(g, seeds)
      ensures x in v
    {
      var p :| IsPath(g, p) && p[0] in seeds && p[|p| - 1] == x;
      PathStaysInClosed(g, v, p);
    }
  }

  /** Reflexivity: every seed is reached. */
  lemma SeedsInReachSet(g: Graph, seeds: set<RangeId>)
    ensures seeds <= ReachSet(g, seeds)
  {
    forall s | s in seeds
      ensures s in ReachSet(g, seeds)
    {
      SeedReaches(g, seeds, s);
    }
  }

  /** Fan-out: every successor of a seed is reached. */
  lemma ReachSetFanOut(g: Graph, seeds: set<RangeId>, s: RangeId)
    requires s in seeds
    ensures forall d :: HasEdge(g, s, d) ==> d in ReachSet(g, seeds)
  {
    SeedReaches(g, seeds, s);
    forall d | HasEdge(g, s, d)
      ensures d in ReachSet(g, seeds)
    {
      ReachesStep(g, seeds, s, d);
    }
  }

  lemma ReachSetClosed(g: Graph, seeds: set<RangeId>)
    ensures Closed(g, ReachSet(g, seeds))
  {
    forall s, d | s in ReachSet(g, seeds) && HasEdge(g, s, d)
      ensures d in ReachSet(g, seeds)
    {
      ReachesStep(g, seeds, s, d);
      ReachesInNodes(g, seeds, d);
    }
  }

  /** A closed superset of the seeds all of whose members are reachable is
      exactly the reachable set. */
  lemma ReachSetCharacterized(g: Graph, seeds: set<RangeId>, v: set<RangeId>)
    requires seeds <= v && Closed(g, v)
    requires forall x :: x in v ==> Reaches(g, seeds, x)
    ensures v == ReachSet(g, seeds)
  {
    ReachSetLeastClosed(g, seeds, v);
    forall x | x in v
      ensures x in ReachSet(g, seeds)
    {
      ReachesInNodes(g, seeds, x);
    }
  }

  /** With no edges nothing beyond the seeds is reached. */
  lemma ReachSetNoEdges(seeds: set<RangeId>)
    ensures ReachSet(map[], seeds) == seeds
  {
    SeedsInReachSet(map[], seeds);
    ReachSetLeastClosed(map[], seeds, seeds);
  }

  /** Propagating again from the result adds nothing. */
  lemma ReachSetIdempotent(g: Graph, seeds: set<RangeId>)
    ensures ReachSet(g, ReachSet(g, seeds)) == ReachSet(g, seeds)
  {
    var r := ReachSet(g, seeds);
    ReachSetClosed(g, seeds);
    forall x | x in r
      ensures Reaches(g, r, x)
    {
      SeedReaches(g, r, x);
    }
    ReachSetCharacterized(g, r, r);
  }

  /** More seeds never reach less. */
  lemma ReachSetMonotone(g: Graph, seeds: set<RangeId>, more: set<RangeId>)
    requires seeds <= more
    ensures ReachSet(g, seeds) <= ReachSet(g, more)
  {
    SeedsInReachSet(g, more);
    ReachSetClosed(g, more);
    ReachSetLeastClosed(g, seeds, ReachSet(g, more));
  }

  /** A reached range that is not a seed is reached through an edge from
      another reached range. */
  lemma ReachedHasPredecessor(g: Graph, seeds: set<RangeId>, x: RangeId)
    requires Reaches(g, seeds, x) && x !in seeds
    ensures exists s :: HasEdge(g, s, x) && Reaches(g, seeds, s)
  {
    var p :| IsPath(g, p) && p[0] in seeds && p[|p| - 1] == x;
    var n := |p|;
    var q := p[..n - 1];
    assert Link(g, p, n - 2);
    assert IsPath(g, q) by {
      forall i: nat | i + 1 < |q|
        ensures Link(g, q, i)
      {
        assert Link(g, p, i);
        assert q[i] == p[i] && q[i + 1] == p[i + 1];
      }
    }
    assert q[0] == p[0] && q[|q| - 1] == p[n - 2];
    assert HasEdge(g, p[n - 2], x) && Reaches(g, seeds, p[n - 2]);
  }

  /** Isolation: a range that is not a seed and has no incoming edge is
      not reached. */
  lemma ReachSetNoIncoming(g: Graph, seeds: set<RangeId>, x: RangeId)
    requires x !in seeds && forall s :: !HasEdge(g, s, x)
    ensures x !in ReachSet(g, seeds)
  {
    if x in ReachSet(g, seeds) {
      ReachedHasPredecessor(g, seeds, x);
      assert false;
    }
  }

  // ---- Termination measure for the propagation's work stack ----

  function Pow(b: nat, e: nat): nat {
    if e == 0 then 1 else b * Pow(b, e - 1)
  }

  lemma {:induction false} PowPositive(b: nat, e: nat)
    requires b >= 1
    ensures Pow(b, e) >= 1
  {
    if e > 0 {
      PowPositive(b, e - 1);
    }
  }

  lemma {:induction false} PowMonotone(b: nat, e: nat, f: nat)
    requires b >= 1 && e <= f
    ensures Pow(b, e) <= Pow(b, f)
    decreases f
  {
    if e < f {
      var p := Pow(b, f - 1);
      PowMonotone(b, e, f - 1);
      assert Pow(b, f) == b * p;
      assert b * p == p + (b - 1) * p;
    }
  }

  /** `k` entries of label `u` weigh less than one entry of a larger label. */
  lemma PushesWeighLess(b: nat, k: nat, u: nat, l: nat)
    requires k <= u < b && u < l
    ensures k * Pow(b, u) < Pow(b, l)
  {
    PowPositive(b, u);
    var p := Pow(b, u);
    assert k * p <= u * p;
    assert u * p < b * p;
    PowMonotone(b, u + 1, l);
  }

  /** The weight of a stack of labels: the sum of b to the power of each. */
  function Weight(b: nat, labels: seq<nat>): nat {
    if labels == [] then 0 else Weight(b, labels[..|labels| - 1]) + Pow(b, labels[|labels| - 1])
  }

  lemma WeightPush(b: nat, labels: seq<nat>, l: nat)
    ensures Weight(b, labels + [l]) == Weight(b, labels) + Pow(b, l)
  {
    assert (labels + [l])[..|labels|] == labels;
  }

  lemma {:induction false} SubsetCard<T>(a: set<T>, c: set<T>)
    requires a <= c
    ensures |a| <= |c|
    decreases |a|
  {
    if a != {} {
      var x :| x in a;
      SubsetCard(a - {x}, c - {x});
    }
  }
}
