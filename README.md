# Reftype analysis of regalloc.rs, in Dafny

This project models the reference-type ("reftype") taint analysis of the
regalloc.rs register allocator (`lib/src/analysis_reftypes.rs`). The client
names some virtual registers as holding references, and names one register
class as the class that can carry references. The analysis then finds every
live range, real or virtual, that holds a reference. A live range holds one
if it belongs to one of those virtual registers, or if a chain of
reference-class moves can copy a reference into it. It sets the `is_ref` flag
on exactly those ranges.

The analysis has four stages. Each one is a method proved equal to a
specification function. Stages 1, 2 and 4 are specified over the value
`RangeEnv`, which holds the range tables, the fragment table and the
register-to-ranges maps; stage 3 is specified over the move graph:

1. **Move graph** (`BuildSucc` against `MoveGraph`). For each move whose
   destination is of the reference class:
   - the source register's range is looked up at the move's use point;
   - the destination register's range is looked up at its def point;
   - an edge is added between the two.
2. **Seeds** (`CollectReftypedRanges` against `Seeds`). The seeds are the
   virtual ranges of the declared reftyped registers.
3. **Closure** (`ComputeVisited` against `Graphs.ReachSet`). A depth-first
   search runs from every seed. It records a range as visited when the range
   is popped, not when it is pushed, so a range can be on the stack several
   times. The result is exactly the set of ranges reachable from the seeds.
4. **Marking** (`MarkVisited` against `Marked`). `is_ref` is set on every
   visited range and on nothing else.

A range identity is the datatype `RangeId = Real(ix) | Virtual(ix)`. The
search records visits at pop time, so the loop does not terminate simply
because the number of unvisited ranges shrinks. Instead, each stack entry
carries a ghost label: the number of unvisited ranges when it was pushed. The
loop decreases the sum over the stack of `(N + 1)` to the power of each label.

Files:
- `data_structures.dfy`: the registers, program points, fragments, ranges and
  move records that the analysis reads.
- `graphs.dfy`: edge insertion, reachability by paths (`ReachSet`) and its
  laws, and the arithmetic behind the termination measure.
- `analysis_reftypes.dfy`: the lookup, the specification functions, the class
  `BacktrackingReftypeAnalysis`, and the stages of `core_reftypes_analysis`.
- `scenario.dfy`: a worked instance. It has a chain of two moves from one
  seed, and one more register that takes part in no move.

The source's lookup panics when no range covers the point. Here that is the
`None` result of `FindRangeIdForReg`. `CoreReftypesAnalysis` then returns
`ok == false` and leaves the tables unchanged. The source panics before
anything is marked, so no marks exist yet at that point. The `debug_assert!`s
of the source are preconditions:
- the source and destination of each move are of the same class;
- every reftyped virtual register is of the reference class;
- a range is not yet marked when it is marked.

## Model

| member | source | states |
|---|---|---|
| AnalysisReftypes.FirstIndex | lib/src/analysis_reftypes.rs:44-57 | the loop with early return: the first position whose element satisfies the test, or None when no element does |
| AnalysisReftypes.FindRangeIdForReg | lib/src/analysis_reftypes.rs:42-60 | the result is tagged Real exactly when the register is real, and it names an existing range whenever the maps only list existing ranges |
| AnalysisReftypes.FindRangeIdForRegCorrect | lib/src/analysis_reftypes.rs:42-60 | the lookup succeeds iff some range listed for the register covers the point; on success it returns the first such range in list order; otherwise it fails, where the source panics |
| AnalysisReftypes.BacktrackingReftypeAnalysis.constructor | lib/src/analysis_reftypes.rs:98-103 | the new object holds exactly the given tables and maps |
| AnalysisReftypes.BacktrackingReftypeAnalysis.InsertReffyRanges | lib/src/analysis_reftypes.rs:78-83 | the new set is the old set plus `Virtual(ix)` for every range index listed for the vreg, so the set only grows |
| AnalysisReftypes.BacktrackingReftypeAnalysis.MarkReffy | lib/src/analysis_reftypes.rs:63-75 | requires the range to be unmarked; afterwards exactly that entry of the matching table has `isRef` set, and nothing else changes |
| Graphs.AddEdge | lib/src/analysis_reftypes.rs:148-157 | the edges are the old edges plus `src -> dst`; the keys gain `src`; entries stay non-empty |
| Graphs.AddEdgeDuplicate | lib/src/analysis_reftypes.rs:148-149 | inserting an edge that is already present leaves the map unchanged (set insertion) |
| AnalysisReftypes.MoveGraph | lib/src/analysis_reftypes.rs:135-158 | the build over the moves in order; every adjacency set is non-empty, and every key and every target names an existing range |
| AnalysisReftypes.MoveGraphDefined | lib/src/analysis_reftypes.rs:139-143 | the build succeeds iff every move of the reference class has both lookups succeed |
| AnalysisReftypes.MoveGraphEdges | lib/src/analysis_reftypes.rs:136-157 | `d` is in `succ[s]` iff some reference-class move has its source's lookup at the use point give `s` and its destination's lookup at the def point give `d` |
| AnalysisReftypes.MoveGraphIgnoresOtherClass | lib/src/analysis_reftypes.rs:139-141 | inserting a move whose destination is not of the reference class anywhere in the list leaves the graph unchanged |
| AnalysisReftypes.BuildSucc | lib/src/analysis_reftypes.rs:135-158 | the in-place build loop returns exactly `MoveGraph`, and returns None at the first failed lookup |
| AnalysisReftypes.Seeds | lib/src/analysis_reftypes.rs:161-168 | every seed is a virtual range, and an existing one when the maps are well formed |
| AnalysisReftypes.SeedsExact | lib/src/analysis_reftypes.rs:161-168 | a range is a seed iff it is one of the virtual ranges of some reftyped vreg |
| AnalysisReftypes.CollectReftypedRanges | lib/src/analysis_reftypes.rs:161-168 | the loop over the reftyped vregs computes exactly `Seeds` |
| Graphs.SeedsInReachSet | lib/src/analysis_reftypes.rs:173 | reflexivity: every seed is reached |
| Graphs.ReachSetClosed | lib/src/analysis_reftypes.rs:180-186 | the reachable set is closed under the edges |
| Graphs.ReachSetFanOut | lib/src/analysis_reftypes.rs:176-186 | fan-out: every successor of a seed is reached, however many successors it has |
| Graphs.ReachSetLeastClosed | lib/src/analysis_reftypes.rs:172-188 | every closed superset of the seeds contains the reachable set |
| Graphs.ReachSetCharacterized | lib/src/analysis_reftypes.rs:172-188 | a closed superset of the seeds with only reachable members is the reachable set |
| Graphs.ReachesStep | lib/src/analysis_reftypes.rs:180-186 | following one edge from a reached range reaches its target |
| Graphs.ReachedHasPredecessor | lib/src/analysis_reftypes.rs:172-188 | a reached range that is not a seed has a reached predecessor |
| Graphs.ReachSetNoIncoming | lib/src/analysis_reftypes.rs:172-188 | isolation: a range that is not a seed and has no incoming edge is never reached |
| Graphs.ReachSetNoEdges | lib/src/analysis_reftypes.rs:173 | with no edges the reachable set is exactly the seeds |
| Graphs.ReachSetIdempotent | lib/src/analysis_reftypes.rs:172-188 | searching again from the result adds nothing |
| Graphs.ReachSetMonotone | lib/src/analysis_reftypes.rs:172-188 | more seeds never reach fewer ranges |
| AnalysisReftypes.PushUnvisited | lib/src/analysis_reftypes.rs:180-186 | the stack below is kept; the entries pushed are, once each, exactly the successors of `src` that are not visited |
| AnalysisReftypes.PopStep | lib/src/analysis_reftypes.rs:178-187 | one pop keeps the search invariants (stack entries and visited ranges lie in the reachable set; every edge out of a visited range is covered) and strictly lowers the weighted stack measure |
| AnalysisReftypes.PopLowersWeight | lib/src/analysis_reftypes.rs:178-187 | replacing the popped entry by its pushed successors lowers the sum of `(N+1)^label` over the stack |
| AnalysisReftypes.SearchFrom | lib/src/analysis_reftypes.rs:175-187 | the search from one seed terminates; `visited` only grows and stays inside the reachable set; every edge out of a visited range is covered |
| AnalysisReftypes.ComputeVisited | lib/src/analysis_reftypes.rs:172-188 | soundness and completeness: with `visited` starting as the seeds, the result is exactly the set of ranges reachable from the seeds |
| AnalysisReftypes.ReachSetValid | lib/src/analysis_reftypes.rs:172-188 | in a graph of existing ranges, everything reached from existing seeds is an existing range |
| AnalysisReftypes.ReftypedRanges | lib/src/analysis_reftypes.rs:114-130 | the set the analysis marks: defined iff the graph builds; it contains the seeds, and holds only existing ranges |
| AnalysisReftypes.MarkedExactly | lib/src/analysis_reftypes.rs:191-193 | after marking, a range has `isRef` iff it is in the set or had it already; no other field and no other table changes |
| AnalysisReftypes.MarkedTwice | lib/src/analysis_reftypes.rs:191-193 | marking `t` after `s` equals marking `s + t` |
| AnalysisReftypes.MarkingAllowedWhenUnmarked | lib/src/analysis_reftypes.rs:66-71 | the marking precondition holds once every range to be marked is unmarked |
| AnalysisReftypes.MarkVisited | lib/src/analysis_reftypes.rs:191-193 | the marking loop leaves the tables equal to `Marked(old tables, visited)` |
| AnalysisReftypes.FindIgnoresMarks | lib/src/analysis_reftypes.rs:42-60 | the lookup does not depend on the `isRef` flags |
| AnalysisReftypes.MoveGraphIgnoresMarks | lib/src/analysis_reftypes.rs:135-158 | the graph does not depend on the `isRef` flags |
| AnalysisReftypes.SeedsIgnoreMarks | lib/src/analysis_reftypes.rs:161-168 | the seeds do not depend on the `isRef` flags |
| AnalysisReftypes.ReftypedIgnoresMarks | lib/src/analysis_reftypes.rs:107-194 | idempotence: the computed set does not depend on the existing `isRef` flags |
| AnalysisReftypes.ReftypedNoMoves | lib/src/analysis_reftypes.rs:135-188 | with no moves the marked set is exactly the seeds |
| AnalysisReftypes.MoveTargetsReftyped | lib/src/analysis_reftypes.rs:135-188 | a reference-class move whose source range is reftyped makes its destination range reftyped, wherever the move stands in the list |
| AnalysisReftypes.CoreReftypesAnalysis | lib/src/analysis_reftypes.rs:107-194 | `ok` iff every lookup succeeds; on success `isRef` is set on exactly the ranges reachable from the seeds and nothing else changes; on failure the tables are unchanged |
| AnalysisReftypes.DoReftypesAnalysis | lib/src/analysis_reftypes.rs:86-105 | the tables come back with `isRef` set on exactly the reftyped ranges, or unchanged when a lookup fails |
| ReftypesScenario.ChainGraph | lib/src/analysis_reftypes.rs:135-158 | the moves `v1 := v0` and `v2 := v1` build the graph `R0 -> R1 -> R2` |
| ReftypesScenario.FanOutReach | lib/src/analysis_reftypes.rs:176-186 | fan-out: in the graph `R0 -> {R1, R2}`, the search from R0 reaches exactly R0, R1 and R2 |
| ReftypesScenario.FanOutIsolated | lib/src/analysis_reftypes.rs:176-186 | edges are followed forwards only: in the same graph the search from R3 reaches only R3 |
| ReftypesScenario.ChainReftyped | lib/src/analysis_reftypes.rs:107-194 | transitivity: seeding v0 makes R0, R1 and R2 the reftyped ranges, which leaves out R3, the range of the register no move touches |
| ReftypesScenario.ChainMarksItsRanges | lib/src/analysis_reftypes.rs:191-193 | after marking, R0, R1 and R2 have `isRef` set and R3 does not |

## Left out

- The `debug!` logging calls (lines 67, 72, 80 and 144-147) write output only, so they are not modelled.
- The containers are modelled as Dafny `set`, `map` and `seq`. This covers `SparseSet`/`SparseSetU`, their inline capacities, the `SmallVec` stack and the hash map `Map` behind `succ`.
- A Dafny `set` has no iteration order. Each loop over one (the adjacency set, the seeds, the visited set) picks its elements in an unspecified order. Every contract holds for every order.
- `contains_pt` and the fragment structure live in `data_structures.rs`, which is not part of this model. They are modelled by their meaning: some fragment of the range contains the point, where a fragment is a closed interval of points and an instruction's use point comes before its def point.
- `RegClass`, `Reg`, `VirtualReg`, `RangeId`, `RealRange`, `VirtualRange`, `MoveInfoElem` and `RangeFrag` are reduced to the fields the analysis reads; the fields that line 136 skips with `..` are dropped. They come from `data_structures.rs`, which is not part of this model.
- The `ReftypeAnalysis` trait is modelled through its one implementation, `BacktrackingReftypeAnalysis`. Lifetimes and borrows are dropped: the object holds the two range tables as fields that it updates.
- FindRangeIdForReg: the source panics when no range covers the point. Here the lookup returns `None`, and the core returns `ok == false` and marks nothing.
- Out-of-bounds indexing of the maps, the range tables or the fragment table (lines 43-46 and 52-53) would also panic in the source. Preconditions exclude it: `MovesInBounds`, `VregsInBounds` and `WellFormed`, which also bounds the fragment indices of real ranges. Without `WellFormed`, the fragment predicate `FragIxsContainPt` treats an out-of-range fragment index as not covering the point.
- The `debug_assert!`s at lines 66, 71, 138 and 166 become preconditions, not runtime checks. `MarkReffy` requires the range to be unmarked. The core requires, through `MarkingAllowed`, that every range it will mark is unmarked.
- ReftypedIgnoresMarks: the computed set is the same on tables that already carry marks, but the core cannot be applied a second time to its own output. Its `MarkingAllowed` precondition fails there, just as a debug build of the source stops at the assertions on lines 66 and 71.
- The `assert!(r.is_none())` at line 155 holds by construction. The insert happens only in the branch where `src_range` has no entry yet, so it is not modelled separately.
