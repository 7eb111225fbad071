/**
 A worked instance of the analysis: three reference-class virtual registers
 v0, v1, v2 with one live range each, the moves `v1 := v0` at instruction 1
 and `v2 := v1` at instruction 2, and only v0 declared reftyped. A fourth
 register v3 with its own range takes part in no move.

 The analysis marks the ranges of v0, v1 and v2 and leaves that of v3
 unmarked.
 */
module ReftypesScenario {
  import opened DataStructures
  import opened Graphs
  import opened AnalysisReftypes

  /** A fragment from the def point of `a` to the use point of `b`. */
  function Span(a: nat, b: nat): RangeFrag {
    RangeFrag(NewDef(a), NewUse(b))
  }

  function V(i: nat): Reg {
    Reg(false, I64, i)
  }

  const chainEnv: RangeEnv := RangeEnv(
    [],
    [ VirtualRange(0, [Span(0, 1)], false),
      VirtualRange(1, [Span(1, 2)], false),
      VirtualRange(2, [Span(2, 3)], false),
      VirtualRange(3, [RangeFrag(NewUse(0), NewDef(5))], false) ],
    [],
    RegToRangesMaps([], [[0], [1], [2], [3]]))

  const chainMoves: seq<MoveInfoElem> := [MoveInfoElem(V(1), V(0), 1), MoveInfoElem(V(2), V(1), 2)]

  const chainRefs: seq<VirtualReg> := [VirtualReg(I64, 0)]

  /** The ranges of v0, v1 and v2. */
  const chainRanges: set<RangeId> := {Virtual(0), Virtual(1), Virtual(2)}

  const chainGraph: Graph := map[Virtual(0) := {Virtual(1)}, Virtual(1) := {Virtual(2)}]

  /** Each register's only range is the one the lookup returns. */
  lemma ChainLookups()
    ensures FindRangeIdForReg(chainEnv, NewUse(1), V(0)) == Some(Virtual(0))
    ensures FindRangeIdForReg(chainEnv, NewDef(1), V(1)) == Some(Virtual(1))
    ensures FindRangeIdForReg(chainEnv, NewUse(2), V(1)) == Some(Virtual(1))
    ensures FindRangeIdForReg(chainEnv, NewDef(2), V(2)) == Some(Virtual(2))
  {
    assert FragContainsPt(chainEnv.vlrEnv[0].sortedFrags[0], NewUse(1));
    assert FragContainsPt(chainEnv.vlrEnv[1].sortedFrags[0], NewDef(1));
    assert FragContainsPt(chainEnv.vlrEnv[1].sortedFrags[0], NewUse(2));
    assert FragContainsPt(chainEnv.vlrEnv[2].sortedFrags[0], NewDef(2));
  }

  /** The two moves give the chain `R0 -> R1 -> R2`. */
  lemma ChainGraph()
    ensures MovesInBounds(chainEnv, chainMoves, I64)
    ensures MoveGraph(chainEnv, chainMoves, I64) == Some(chainGraph)
  {
    ChainLookups();
    assert chainMoves[..1] == [chainMoves[0]] && [chainMoves[0]][..0] == [];
    assert chainMoves[..|chainMoves| - 1] == [chainMoves[0]];
    assert AddEdge(map[], Virtual(0), Virtual(1)) == map[Virtual(0) := {Virtual(1)}];
  }

  lemma ChainReach()
    ensures ReachSet(chainGraph, {Virtual(0)}) == chainRanges
  {
    var seeds := {Virtual(0)};
    var v := chainRanges;
    SeedReaches(chainGraph, seeds, Virtual(0));
    assert HasEdge(chainGraph, Virtual(0), Virtual(1));
    ReachesStep(chainGraph, seeds, Virtual(0), Virtual(1));
    assert HasEdge(chainGraph, Virtual(1), Virtual(2));
    ReachesStep(chainGraph, seeds, Virtual(1), Virtual(2));
    assert Closed(chainGraph, v);
    ReachSetCharacterized(chainGraph, seeds, v);
  }

  /** A move graph in which R0 is copied to both R1 and R2. */
  const fanGraph: Graph := map[Virtual(0) := {Virtual(1), Virtual(2)}]

  /** Fan-out: both copies of R0 are reached from R0. */
  lemma FanOutReach()
    ensures ReachSet(fanGraph, {Virtual(0)}) == chainRanges
  {
    var seeds := {Virtual(0)};
    SeedsInReachSet(fanGraph, seeds);
    ReachSetFanOut(fanGraph, seeds, Virtual(0));
    assert HasEdge(fanGraph, Virtual(0), Virtual(1)) && HasEdge(fanGraph, Virtual(0), Virtual(2));
    assert Closed(fanGraph, chainRanges);
    ReachSetLeastClosed(fanGraph, seeds, chainRanges);
  }

  /** Edges are followed forwards only: from R3 nothing else is reached. */
  lemma FanOutIsolated()
    ensures ReachSet(fanGraph, {Virtual(3)}) == {Virtual(3)}
  {
    assert Closed(fanGraph, {Virtual(3)});
    SeedsInReachSet(fanGraph, {Virtual(3)});
    ReachSetLeastClosed(fanGraph, {Virtual(3)}, {Virtual(3)});
  }

  lemma ChainSeeds()
    ensures VregsInBounds(chainEnv, chainRefs)
    ensures Seeds(chainEnv, chainRefs) == {Virtual(0)}
  {
    assert chainRefs[..0] == [];
    assert VregRanges(chainEnv, chainRefs[0]) == {Virtual(0)};
  }

  lemma ChainWellFormed()
    ensures WellFormed(chainEnv)
  {
    var vmap := chainEnv.maps.vregToVlrs;
    assert forall l, ix :: l in vmap && ix in l ==> ix < 4 by {
      assert vmap == [[0], [1], [2], [3]];
    }
  }

  /** Transitivity along the chain: the reftyped ranges are those of v0,
      v1 and v2. */
  lemma ChainReftyped()
    ensures MovesInBounds(chainEnv, chainMoves, I64) && VregsInBounds(chainEnv, chainRefs)
    ensures ReftypedRanges(chainEnv, chainMoves, I64, chainRefs) == Some(chainRanges)
  {
    ChainGraph();
    ChainSeeds();
    ChainReach();
  }

  /** None of the chain's ranges is marked beforehand, so marking them is
      allowed. */
  lemma ChainMarkingAllowed()
    ensures MovesInBounds(chainEnv, chainMoves, I64) && VregsInBounds(chainEnv, chainRefs)
    ensures MarkingAllowed(chainEnv, chainMoves, I64, chainRefs)
  {
    ChainReftyped();
    ChainUnmarked();
    MarkingAllowedWhenUnmarked(chainEnv, chainMoves, I64, chainRefs, chainRanges);
  }

  lemma ChainUnmarked()
    ensures forall id :: id in chainRanges ==> ValidId(chainEnv, id) && !IsRef(chainEnv, id)
  {
    var vl := chainEnv.vlrEnv;
    assert |vl| == 4 && !vl[0].isRef && !vl[1].isRef && !vl[2].isRef;
  }

  /** After marking, exactly the three ranges of the chain carry `isRef`;
      the range of v3 does not. */
  lemma ChainMarksItsRanges()
    ensures var out := Marked(chainEnv, chainRanges).vlrEnv;
      out[0].isRef && out[1].isRef && out[2].isRef && !out[3].isRef
  {
  }
}
