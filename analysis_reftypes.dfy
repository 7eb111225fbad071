/**
 The reftype analysis of the backtracking allocator: starting from the
 live ranges of the virtual registers the client declares reference-typed,
 find every real or virtual live range that a chain of reference-class
 moves can copy such a value into, and set `isRef` on exactly those.

 The functions over `RangeEnv` are the specification; the methods are the
 stages of `core_reftypes_analysis`, each proved against it.
 */
module AnalysisReftypes {
  import opened DataStructures
  import opened Graphs

  /** Everything the analysis reads: the real- and virtual-range tables,
      the shared fragment table and the register-to-ranges maps. */
  datatype RangeEnv = RangeEnv(
    rlrEnv: seq<RealRange>,
    vlrEnv: seq<VirtualRange>,
    fragEnv: seq<RangeFrag>,
    maps: RegToRangesMaps)

  /** Every range index listed for a register names an existing range, and
      every fragment index of a real range names an existing fragment. */
  predicate WellFormed(env: RangeEnv) {
    && (forall l, ix :: l in env.maps.rregToRlrs && ix in l ==> ix < |env.rlrEnv|)
    && (forall l, ix :: l in env.maps.vregToVlrs && ix in l ==> ix < |env.vlrEnv|)
    && (forall r, ix :: r in env.rlrEnv && ix in r.sortedFrags ==> ix < |env.fragEnv|)
  }

  predicate ValidId(env: RangeEnv, id: RangeId) {
    match id
    case Real(i) => i < |env.rlrEnv|
    case Virtual(i) => i < |env.vlrEnv|
  }

  function IsRef(env: RangeEnv, id: RangeId): bool
    requires ValidId(env, id)
  {
    match id
    case Real(i) => env.rlrEnv[i].isRef
    case Virtual(i) => env.vlrEnv[i].isRef
  }

  // ---------------------------------------------------------------------
  // Range lookup

  predicate RegInBounds(env: RangeEnv, reg: Reg) {
    if reg.isReal then reg.index < |env.maps.rregToRlrs| else reg.index < |env.maps.vregToVlrs|
  }

  /** The ranges the register takes part in, in the order they are searched. */
  function RangesOf(env: RangeEnv, reg: Reg): seq<nat>
    requires RegInBounds(env, reg)
  {
    if reg.isReal then env.maps.rregToRlrs[reg.index] else env.maps.vregToVlrs[reg.index]
  }

  /** Range `ix` of the register's kind has a fragment containing `pt`. */
  predicate Covers(env: RangeEnv, reg: Reg, pt: InstPoint, ix: nat) {
    if reg.isReal then
      ix < |env.rlrEnv| && FragIxsContainPt(env.rlrEnv[ix].sortedFrags, env.fragEnv, pt)
    else
      ix < |env.vlrEnv| && FragsContainPt(env.vlrEnv[ix].sortedFrags, pt)
  }

  function Tag(reg: Reg, ix: nat): RangeId {
    if reg.isReal then Real(ix) else Virtual(ix)
  }

  /** `k` is the first position of the register's range list that covers `pt`. */
  predicate IsFirstCover(env: RangeEnv, reg: Reg, pt: InstPoint, k: nat)
    requires RegInBounds(env, reg)
  {
    var l := RangesOf(env, reg);
    k < |l| && Covers(env, reg, pt, l[k]) && forall j :: 0 <= j < k ==> !Covers(env, reg, pt, l[j])
  }

  /** The position of the first element of `s` satisfying `p`, if any. */
  function FirstIndex<T>(s: seq<T>, p: T -> bool): (r: Option<nat>)
    ensures r.Some? ==> r.value < |s| && p(s[r.value]) && forall j :: 0 <= j < r.value ==> !p(s[j])
    ensures r.None? ==> forall j :: 0 <= j < |s| ==> !p(s[j])
    decreases |s|
  {
    if s == [] then None
    else if p(s[0]) then Some(0)
    else
      match FirstIndex(s[1..], p)
      case None => None
      case Some(k) => Some(k + 1)
  }

  /** `find_range_id_for_reg`: the first of the register's ranges whose
      fragments contain `pt`, tagged with the register's kind; `None` where
      the source panics because no range covers the point. */
  function FindRangeIdForReg(env: RangeEnv, pt: InstPoint, reg: Reg): (r: Option<RangeId>)
    requires RegInBounds(env, reg)
    ensures r.Some? ==> (r.value.Real? <==> reg.isReal)
    ensures r.Some? && WellFormed(env) ==> ValidId(env, r.value)
  {
    var l := RangesOf(env, reg);
    match FirstIndex(l, ix => Covers(env, reg, pt, ix))
    case None => None
    case Some(k) =>
      assert l[k] in l;
      Some(Tag(reg, l[k]))
  }

  /** The lookup finds a range exactly when one of the register's ranges
      covers the point, and then it is the first such range in the list. */
  lemma FindRangeIdForRegCorrect(env: RangeEnv, pt: InstPoint, reg: Reg)
    requires RegInBounds(env, reg)
    ensures FindRangeIdForReg(env, pt, reg).Some? <==>
      exists k :: 0 <= k < |RangesOf(env, reg)| && Covers(env, reg, pt, RangesOf(env, reg)[k])
    ensures FindRangeIdForReg(env, pt, reg).Some? ==>
      exists k: nat :: IsFirstCover(env, reg, pt, k) && FindRangeIdForReg(env, pt, reg).value == Tag(reg, RangesOf(env, reg)[k])
  {
    var l := RangesOf(env, reg);
    match FirstIndex(l, ix => Covers(env, reg, pt, ix))
    case None =>
    case Some(k) =>
      assert IsFirstCover(env, reg, pt, k);
  }

  // ---------------------------------------------------------------------
  // The move graph

  /** Every move that can contribute an edge names registers present in
      the register-to-ranges maps. */
  predicate MovesInBounds(env: RangeEnv, moves: seq<MoveInfoElem>, cls: RegClass) {
    forall m :: m in moves && m.dst.cls == cls ==> RegInBounds(env, m.src) && RegInBounds(env, m.dst)
  }

  /** Move `m` is of the reference class and copies range `s` into range `d`:
      `s` holds its source at the use point, `d` its destination at the def point. */
  predicate MoveEdge(env: RangeEnv, m: MoveInfoElem, cls: RegClass, s: RangeId, d: RangeId) {
    && m.dst.cls == cls
    && RegInBounds(env, m.src) && RegInBounds(env, m.dst)
    && FindRangeIdForReg(env, NewUse(m.iix), m.src) == Some(s)
    && FindRangeIdForReg(env, NewDef(m.iix), m.dst) == Some(d)
  }

  /** The lookups for move `m` succeed, or it is not looked at. */
  predicate Resolves(env: RangeEnv, m: MoveInfoElem, cls: RegClass) {
    m.dst.cls != cls ||
    (&& RegInBounds(env, m.src) && RegInBounds(env, m.dst)
     && FindRangeIdForReg(env, NewUse(m.iix), m.src).Some?
     && FindRangeIdForReg(env, NewDef(m.iix), m.dst).Some?)
  }

  ghost predicate GraphValid(env: RangeEnv, g: Graph) {
    && (forall s :: s in g ==> ValidId(env, s))
    && (forall s, d :: HasEdge(g, s, d) ==> ValidId(env, d))
  }

  /** The graph `succ` the build loop produces from the moves taken in order;
      `None` once a lookup fails. */
  function MoveGraph(env: RangeEnv, moves: seq<MoveInfoElem>, cls: RegClass): (r: Option<Graph>)
    requires MovesInBounds(env, moves, cls)
    ensures r.Some? ==> EntriesNonEmpty(r.value)
    ensures r.Some? && WellFormed(env) ==> GraphValid(env, r.value)
    decreases |moves|
  {
    if moves == [] then Some(map[])
    else
      var m := moves[|moves| - 1];
      match MoveGraph(env, moves[..|moves| - 1], cls)
      case None => None
      case Some(g) =>
        if m.dst.cls != cls then Some(g)
        else
          var s := FindRangeIdForReg(env, NewUse(m.iix), m.src);
          var d := FindRangeIdForReg(env, NewDef(m.iix), m.dst);
          if s.Some? && d.Some? then Some(AddEdge(g, s.value, d.value)) else None
  }

  lemma MovesInBoundsPrefix(env: RangeEnv, moves: seq<MoveInfoElem>, cls: RegClass, n: nat)
    requires MovesInBounds(env, moves, cls) && n <= |moves|
    ensures MovesInBounds(env, moves[..n], cls)
  {
    forall m | m in moves[..n] && m.dst.cls == cls
      ensures RegInBounds(env, m.src) && RegInBounds(env, m.dst)
    {
      var k :| 0 <= k < n && moves[..n][k] == m;
      assert moves[k] == m;
    }
  }

  /** Every move of `moves` resolves exactly when every move before the last
      one does and the last one does too. */
  lemma ResolvesSnoc(env: RangeEnv, moves: seq<MoveInfoElem>, cls: RegClass, n: nat)
    requires n + 1 == |moves|
    ensures (forall k :: 0 <= k < |moves| ==> Resolves(env, moves[k], cls)) <==>
      (forall k :: 0 <= k < n ==> Resolves(env, moves[..n][k], cls)) && Resolves(env, moves[n], cls)
  {
    assert forall k :: 0 <= k < n ==> moves[..n][k] == moves[k];
  }

  /** The build succeeds exactly when every reference-class move resolves. */
  lemma {:induction false} MoveGraphDefined(env: RangeEnv, moves: seq<MoveInfoElem>, cls: RegClass)
    requires MovesInBounds(env, moves, cls)
    ensures MoveGraph(env, moves, cls).Some? <==> forall k :: 0 <= k < |moves| ==> Resolves(env, moves[k], cls)
    decreases |moves|
  {
    if moves != [] {
      var n := |moves| - 1;
      MovesInBoundsPrefix(env, moves, cls, n);
      MoveGraphDefined(env, moves[..n], cls);
      ResolvesSnoc(env, moves, cls, n);
    }
  }

  /** The edges after the last move: those before it and the one it adds. */
  lemma LastMoveEdges(env: RangeEnv, moves: seq<MoveInfoElem>, cls: RegClass, n: nat)
    requires n + 1 == |moves| && MovesInBounds(env, moves, cls) && MoveGraph(env, moves, cls).Some?
    ensures MovesInBounds(env, moves[..n], cls) && MoveGraph(env, moves[..n], cls).Some?
    ensures forall s, d :: HasEdge(MoveGraph(env, moves, cls).value, s, d) <==>
      HasEdge(MoveGraph(env, moves[..n], cls).value, s, d) || MoveEdge(env, moves[n], cls, s, d)
  {
    MovesInBoundsPrefix(env, moves, cls, n);
  }

  /** Some element of `xs` satisfies `p` exactly when one before the last
      does or the last one does. */
  lemma ExistsSnoc<T>(xs: seq<T>, n: nat, p: T -> bool)
    requires n + 1 == |xs|
    ensures (exists k :: 0 <= k < |xs| && p(xs[k])) <==> (exists k :: 0 <= k < n && p(xs[..n][k])) || p(xs[n])
  {
    if k :| 0 <= k < |xs| && p(xs[k]) {
      if k < n {
        assert xs[..n][k] == xs[k];
      }
    }
    if k :| 0 <= k < n && p(xs[..n][k]) {
      assert xs[..n][k] == xs[k];
    }
  }

  /** Edge-set exactness: `d` is a successor of `s` exactly when some
      reference-class move copies range `s` into range `d`. */
  lemma {:induction false} MoveGraphEdges(env: RangeEnv, moves: seq<MoveInfoElem>, cls: RegClass)
    requires MovesInBounds(env, moves, cls) && MoveGraph(env, moves, cls).Some?
    ensures forall s, d :: HasEdge(MoveGraph(env, moves, cls).value, s, d) <==>
      exists k :: 0 <= k < |moves| && MoveEdge(env, moves[k], cls, s, d)
    decreases |moves|
  {
    if moves != [] {
      var n := |moves| - 1;
      LastMoveEdges(env, moves, cls, n);
      MoveGraphEdges(env, moves[..n], cls);
      var g := MoveGraph(env, moves, cls).value;
      var gp := MoveGraph(env, moves[..n], cls).value;
      forall s, d
        ensures HasEdge(g, s, d) <==> exists k :: 0 <= k < |moves| && MoveEdge(env, moves[k], cls, s, d)
      {
        ExistsSnoc(moves, n, m => MoveEdge(env, m, cls, s, d));
      }
    }
  }

  lemma MovesInBoundsInsert(env: RangeEnv, pre: seq<MoveInfoElem>, m: MoveInfoElem, post: seq<MoveInfoElem>, cls: RegClass)
    requires m.dst.cls != cls && MovesInBounds(env, pre + post, cls)
    ensures MovesInBounds(env, pre + [m] + post, cls)
  {
    assert forall x :: x in pre + [m] + post ==> x == m || x in pre + post;
  }

  /** Equal graphs stay equal when the same move is appended. */
  lemma MoveGraphSnoc(env: RangeEnv, a: seq<MoveInfoElem>, b: seq<MoveInfoElem>, x: MoveInfoElem, cls: RegClass)
    requires MovesInBounds(env, a, cls) && MovesInBounds(env, b, cls)
    requires MovesInBounds(env, a + [x], cls) && MovesInBounds(env, b + [x], cls)
    requires MoveGraph(env, a, cls) == MoveGraph(env, b, cls)
    ensures MoveGraph(env, a + [x], cls) == MoveGraph(env, b + [x], cls)
  {
    assert (a + [x])[..|a|] == a && (a + [x])[|a|] == x;
    assert (b + [x])[..|b|] == b && (b + [x])[|b|] == x;
  }

  /** Class filter: a move whose destination is not of the reference class
      contributes nothing, wherever it stands in the list. */
  lemma {:induction false} MoveGraphIgnoresOtherClass(
    env: RangeEnv, pre: seq<MoveInfoElem>, m: MoveInfoElem, post: seq<MoveInfoElem>, cls: RegClass)
    requires m.dst.cls != cls
    requires MovesInBounds(env, pre + post, cls)
    ensures MovesInBounds(env, pre + [m] + post, cls)
    ensures MoveGraph(env, pre + [m] + post, cls) == MoveGraph(env, pre + post, cls)
    decreases |post|
  {
    MovesInBoundsInsert(env, pre, m, post, cls);
    if post == [] {
      assert pre + [m] + post == pre + [m] && pre + post == pre;
      assert (pre + [m])[..|pre|] == pre && (pre + [m])[|pre|] == m;
    } else {
      var n := |post| - 1;
      var front := post[..n];
      var x := post[n];
      assert post == front + [x];
      assert pre + [m] + post == (pre + [m] + front) + [x];
      assert pre + post == (pre + front) + [x];
      assert ((pre + front) + [x])[..|pre + front|] == pre + front;
      MovesInBoundsPrefix(env, (pre + front) + [x], cls, |pre + front|);
      MoveGraphIgnoresOtherClass(env, pre, m, front, cls);
      MoveGraphSnoc(env, pre + [m] + front, pre + front, x, cls);
    }
  }

  // ---------------------------------------------------------------------
  // Seeds

  predicate VregsInBounds(env: RangeEnv, vregs: seq<VirtualReg>) {
    forall v :: v in vregs ==> v.index < |env.maps.vregToVlrs|
  }

  /** The virtual ranges of one virtual register. */
  function VregRanges(env: RangeEnv, v: VirtualReg): set<RangeId>
    requires v.index < |env.maps.vregToVlrs|
  {
    set ix | ix in env.maps.vregToVlrs[v.index] :: Virtual(ix)
  }

  /** The seed set: the ranges of the reftyped registers, gathered in order. */
  function Seeds(env: RangeEnv, vregs: seq<VirtualReg>): (r: set<RangeId>)
    requires VregsInBounds(env, vregs)
    ensures forall id :: id in r ==> id.Virtual?
    ensures WellFormed(env) ==> forall id :: id in r ==> ValidId(env, id)
    decreases |vregs|
  {
    if vregs == [] then {}
    else
      var front := vregs[..|vregs| - 1];
      assert forall v :: v in front ==> v in vregs;
      Seeds(env, front) + VregRanges(env, vregs[|vregs| - 1])
  }

  /** The seed set is the union of the ranges of the listed registers. */
  lemma {:induction false} SeedsExact(env: RangeEnv, vregs: seq<VirtualReg>, id: RangeId)
    requires VregsInBounds(env, vregs)
    ensures id in Seeds(env, vregs) <==> exists k :: 0 <= k < |vregs| && id in VregRanges(env, vregs[k])
    decreases |vregs|
  {
    if vregs != [] {
      var n := |vregs|;
      var front := vregs[..n - 1];
      assert forall v :: v in front ==> v in vregs;
      SeedsExact(env, front, id);
      assert forall k :: 0 <= k < n - 1 ==> front[k] == vregs[k];
      if k :| 0 <= k < n && id in VregRanges(env, vregs[k]) {
        if k < n - 1 {
          assert id in VregRanges(env, front[k]);
        }
      }
    }
  }

  // ---------------------------------------------------------------------
  // The whole analysis, as a specification

  lemma ReachSetValid(env: RangeEnv, g: Graph, seeds: set<RangeId>)
    requires GraphValid(env, g) && forall id :: id in seeds ==> ValidId(env, id)
    ensures forall id :: id in ReachSet(g, seeds) ==> ValidId(env, id)
  {
    forall x | x in ReachSet(g, seeds)
      ensures ValidId(env, x)
    {
      ReachesInNodes(g, seeds, x);
      if x in Targets(g) {
        var s, d :| s in g && d in g[s] && d == x;
        assert HasEdge(g, s, d);
      }
    }
  }

  /** The ranges the analysis marks: those reachable from the seeds in the
      move graph; `None` when the graph build hits a failed lookup. */
  ghost function ReftypedRanges(env: RangeEnv, moves: seq<MoveInfoElem>, cls: RegClass, vregs: seq<VirtualReg>)
    : (r: Option<set<RangeId>>)
    requires MovesInBounds(env, moves, cls) && VregsInBounds(env, vregs)
    ensures r.Some? <==> MoveGraph(env, moves, cls).Some?
    ensures r.Some? ==> Seeds(env, vregs) <= r.value
    ensures r.Some? && WellFormed(env) ==> forall id :: id in r.value ==> ValidId(env, id)
  {
    match MoveGraph(env, moves, cls)
    case None => None
    case Some(g) =>
      var seeds := Seeds(env, vregs);
      SeedsInReachSet(g, seeds);
      if WellFormed(env) then
        ReachSetValid(env, g, seeds);
        Some(ReachSet(g, seeds))
      else
        Some(ReachSet(g, seeds))
  }

  /** The ranges about to be marked are not marked yet (the debug assertion
      of `mark_reffy`, for every range the analysis will mark). */
  ghost predicate MarkingAllowed(env: RangeEnv, moves: seq<MoveInfoElem>, cls: RegClass, vregs: seq<VirtualReg>)
    requires MovesInBounds(env, moves, cls) && VregsInBounds(env, vregs)
  {
    var r := ReftypedRanges(env, moves, cls, vregs);
    r.Some? ==> forall id :: id in r.value ==> ValidId(env, id) && !IsRef(env, id)
  }

  /** Marking is allowed once the marked set is known to be unmarked. */
  lemma MarkingAllowedWhenUnmarked(env: RangeEnv, moves: seq<MoveInfoElem>, cls: RegClass, vregs: seq<VirtualReg>,
                                   r: set<RangeId>)
    requires MovesInBounds(env, moves, cls) && VregsInBounds(env, vregs)
    requires ReftypedRanges(env, moves, cls, vregs) == Some(r)
    requires forall id :: id in r ==> ValidId(env, id) && !IsRef(env, id)
    ensures MarkingAllowed(env, moves, cls, vregs)
  {
  }

  function RealMarked(rlrs: seq<RealRange>, ids: set<RangeId>): seq<RealRange> {
    seq(|rlrs|, i requires 0 <= i < |rlrs| => if Real(i) in ids then rlrs[i].(isRef := true) else rlrs[i])
  }

  function VirtualMarked(vlrs: seq<VirtualRange>, ids: set<RangeId>): seq<VirtualRange> {
    seq(|vlrs|, i requires 0 <= i < |vlrs| => if Virtual(i) in ids then vlrs[i].(isRef := true) else vlrs[i])
  }

  /** The tables with `isRef` set on the ranges in `ids` and nothing else
      changed. */
  function Marked(env: RangeEnv, ids: set<RangeId>): RangeEnv {
    env.(rlrEnv := RealMarked(env.rlrEnv, ids), vlrEnv := VirtualMarked(env.vlrEnv, ids))
  }

  /** Marking sets `isRef` on the ranges in `ids`, keeps it where it was
      set already, and changes no other field and no other table. */
  lemma MarkedExactly(env: RangeEnv, ids: set<RangeId>)
    ensures Marked(env, ids).fragEnv == env.fragEnv && Marked(env, ids).maps == env.maps
    ensures |Marked(env, ids).rlrEnv| == |env.rlrEnv| && |Marked(env, ids).vlrEnv| == |env.vlrEnv|
    ensures forall id :: ValidId(env, id) ==>
      ValidId(Marked(env, ids), id) && (IsRef(Marked(env, ids), id) <==> id in ids || IsRef(env, id))
    ensures forall i :: 0 <= i < |env.rlrEnv| ==>
      Marked(env, ids).rlrEnv[i].(isRef := env.rlrEnv[i].isRef) == env.rlrEnv[i]
    ensures forall i :: 0 <= i < |env.vlrEnv| ==>
      Marked(env, ids).vlrEnv[i].(isRef := env.vlrEnv[i].isRef) == env.vlrEnv[i]
  {
  }

  lemma MarkedTwice(env: RangeEnv, s: set<RangeId>, t: set<RangeId>)
    ensures Marked(Marked(env, s), t) == Marked(env, s + t)
  {
    assert RealMarked(RealMarked(env.rlrEnv, s), t) == RealMarked(env.rlrEnv, s + t);
    assert VirtualMarked(VirtualMarked(env.vlrEnv, s), t) == VirtualMarked(env.vlrEnv, s + t);
  }

  // ---------------------------------------------------------------------
  // Marks do not influence the analysis

  lemma FindIgnoresMarks(env: RangeEnv, ids: set<RangeId>, pt: InstPoint, reg: Reg)
    requires RegInBounds(env, reg)
    ensures RegInBounds(Marked(env, ids), reg)
    ensures FindRangeIdForReg(Marked(env, ids), pt, reg) == FindRangeIdForReg(env, pt, reg)
  {
    var env2 := Marked(env, ids);
    var l := RangesOf(env, reg);
    assert RangesOf(env2, reg) == l;
    assert forall ix :: Covers(env2, reg, pt, ix) == Covers(env, reg, pt, ix);
    var r1 := FindRangeIdForReg(env, pt, reg);
    var r2 := FindRangeIdForReg(env2, pt, reg);
    FindRangeIdForRegCorrect(env, pt, reg);
    FindRangeIdForRegCorrect(env2, pt, reg);
    if r1.Some? {
      var k1: nat :| IsFirstCover(env, reg, pt, k1) && r1.value == Tag(reg, l[k1]);
      var k2: nat :| IsFirstCover(env2, reg, pt, k2) && r2.value == Tag(reg, l[k2]);
      assert k1 == k2;
    }
  }

  lemma MovesInBoundsIgnoresMarks(env: RangeEnv, ids: set<RangeId>, moves: seq<MoveInfoElem>, cls: RegClass)
    requires MovesInBounds(env, moves, cls)
    ensures MovesInBounds(Marked(env, ids), moves, cls)
  {
    assert Marked(env, ids).maps == env.maps;
  }

  lemma {:induction false} MoveGraphIgnoresMarks(env: RangeEnv, ids: set<RangeId>, moves: seq<MoveInfoElem>, cls: RegClass)
    requires MovesInBounds(env, moves, cls)
    ensures MovesInBounds(Marked(env, ids), moves, cls)
    ensures MoveGraph(Marked(env, ids), moves, cls) == MoveGraph(env, moves, cls)
    decreases |moves|
  {
    MovesInBoundsIgnoresMarks(env, ids, moves, cls);
    if moves != [] {
      var n := |moves| - 1;
      var m := moves[n];
      MovesInBoundsPrefix(env, moves, cls, n);
      MoveGraphIgnoresMarks(env, ids, moves[..n], cls);
      if m.dst.cls == cls {
        FindIgnoresMarks(env, ids, NewUse(m.iix), m.src);
        FindIgnoresMarks(env, ids, NewDef(m.iix), m.dst);
      }
    }
  }

  lemma {:induction false} SeedsIgnoreMarks(env: RangeEnv, ids: set<RangeId>, vregs: seq<VirtualReg>)
    requires VregsInBounds(env, vregs)
    ensures VregsInBounds(Marked(env, ids), vregs)
    ensures Seeds(Marked(env, ids), vregs) == Seeds(env, vregs)
    decreases |vregs|
  {
    if vregs != [] {
      var front := vregs[..|vregs| - 1];
      assert forall v :: v in front ==> v in vregs;
      SeedsIgnoreMarks(env, ids, front);
    }
  }

  /** Idempotence: the computed set does not depend on the existing `isRef`
      flags. (The core itself still requires the ranges it marks to be
      unmarked, as the debug assertions of `mark_reffy` do.) */
  lemma ReftypedIgnoresMarks(env: RangeEnv, ids: set<RangeId>, moves: seq<MoveInfoElem>, cls: RegClass, vregs: seq<VirtualReg>)
    requires MovesInBounds(env, moves, cls) && VregsInBounds(env, vregs)
    ensures MovesInBounds(Marked(env, ids), moves, cls) && VregsInBounds(Marked(env, ids), vregs)
    ensures ReftypedRanges(Marked(env, ids), moves, cls, vregs) == ReftypedRanges(env, moves, cls, vregs)
  {
    MoveGraphIgnoresMarks(env, ids, moves, cls);
    SeedsIgnoreMarks(env, ids, vregs);
  }

  /** With no moves the analysis marks exactly the seeds. */
  lemma ReftypedNoMoves(env: RangeEnv, cls: RegClass, vregs: seq<VirtualReg>)
    requires VregsInBounds(env, vregs)
    ensures ReftypedRanges(env, [], cls, vregs) == Some(Seeds(env, vregs))
  {
    ReachSetNoEdges(Seeds(env, vregs));
  }

  /** A move whose source range is reftyped makes its destination range
      reftyped too, whatever the order of the moves. */
  lemma MoveTargetsReftyped(env: RangeEnv, moves: seq<MoveInfoElem>, cls: RegClass, vregs: seq<VirtualReg>,
                            k: nat, s: RangeId, d: RangeId)
    requires MovesInBounds(env, moves, cls) && VregsInBounds(env, vregs)
    requires ReftypedRanges(env, moves, cls, vregs).Some?
    requires k < |moves| && MoveEdge(env, moves[k], cls, s, d)
    requires s in ReftypedRanges(env, moves, cls, vregs).value
    ensures d in ReftypedRanges(env, moves, cls, vregs).value
  {
    var g := MoveGraph(env, moves, cls).value;
    MoveGraphEdges(env, moves, cls);
    assert HasEdge(g, s, d);
    ReachSetClosed(g, Seeds(env, vregs));
  }

  // ---------------------------------------------------------------------
  // The analysis object

  /** `BacktrackingReftypeAnalysis`: the range tables it may mark, and the
      fragment table and register maps it only reads. */
  class BacktrackingReftypeAnalysis {
    var rlrEnv: seq<RealRange>
    var vlrEnv: seq<VirtualRange>
    const fragEnv: seq<RangeFrag>
    const maps: RegToRangesMaps

    constructor (rlrEnv: seq<RealRange>, vlrEnv: seq<VirtualRange>, fragEnv: seq<RangeFrag>, maps: RegToRangesMaps)
      ensures Env() == RangeEnv(rlrEnv, vlrEnv, fragEnv, maps)
    {
      this.rlrEnv := rlrEnv;
      this.vlrEnv := vlrEnv;
      this.fragEnv := fragEnv;
      this.maps := maps;
    }

    function Env(): RangeEnv
      reads this
    {
      RangeEnv(rlrEnv, vlrEnv, fragEnv, maps)
    }

    /** `insert_reffy_ranges`: add every virtual range of `vreg` to `s`. */
    method InsertReffyRanges(vreg: VirtualReg, s: set<RangeId>) returns (s': set<RangeId>)
      requires vreg.index < |maps.vregToVlrs|
      ensures s' == s + VregRanges(Env(), vreg)
    {
      var ixs := maps.vregToVlrs[vreg.index];
      s' := s;
      for i := 0 to |ixs|
        invariant s' == s + set ix | ix in ixs[..i] :: Virtual(ix)
      {
        assert ixs[..i + 1] == ixs[..i] + [ixs[i]];
        s' := s' + {Virtual(ixs[i])};
      }
      assert ixs[..|ixs|] == ixs;
    }

    /** `mark_reffy`: set `isRef` on the one range `range` names. */
    method MarkReffy(range: RangeId)
      requires ValidId(Env(), range) && !IsRef(Env(), range)
      modifies this
      ensures Env() == Marked(old(Env()), {range})
    {
      match range
      case Real(i) =>
        rlrEnv := rlrEnv[i := rlrEnv[i].(isRef := true)];
      case Virtual(i) =>
        vlrEnv := vlrEnv[i := vlrEnv[i].(isRef := true)];
    }
  }

  // ---------------------------------------------------------------------
  // The stages of core_reftypes_analysis

  /** Stage 1: build `succ` from the moves of the reference class; `None`
      where the source panics on a failed lookup. */
  method BuildSucc(a: BacktrackingReftypeAnalysis, moves: seq<MoveInfoElem>, cls: RegClass) returns (succ: Option<Graph>)
    requires MovesInBounds(a.Env(), moves, cls)
    ensures succ == MoveGraph(a.Env(), moves, cls)
  {
    var env := a.Env();
    var g: Graph := map[];
    var i := 0;
    while i < |moves|
      invariant 0 <= i <= |moves|
      invariant MovesInBounds(env, moves[..i], cls)
      invariant MoveGraph(env, moves[..i], cls) == Some(g)
    {
      var m := moves[i];
      assert moves[..i + 1][..i] == moves[..i];
      MovesInBoundsPrefix(env, moves, cls, i + 1);
      if m.dst.cls == cls {
        var srcRange := FindRangeIdForReg(env, NewUse(m.iix), m.src);
        var dstRange := FindRangeIdForReg(env, NewDef(m.iix), m.dst);
        if srcRange.None? || dstRange.None? {
          assert !Resolves(env, moves[i], cls);
          MoveGraphDefined(env, moves, cls);
          return None;
        }
        if srcRange.value in g {
          g := g[srcRange.value := g[srcRange.value] + {dstRange.value}];
        } else {
          g := g[srcRange.value := {dstRange.value}];
        }
      }
      i := i + 1;
    }
    assert moves[..i] == moves;
    succ := Some(g);
  }

  /** Stage 2: the seed set, from the reftyped virtual registers. */
  method CollectReftypedRanges(a: BacktrackingReftypeAnalysis, vregs: seq<VirtualReg>, cls: RegClass)
    returns (seeds: set<RangeId>)
    requires forall v :: v in vregs ==> v.cls == cls
    requires VregsInBounds(a.Env(), vregs)
    ensures seeds == Seeds(a.Env(), vregs)
  {
    seeds := {};
    for i := 0 to |vregs|
      invariant VregsInBounds(a.Env(), vregs[..i])
      invariant seeds == Seeds(a.Env(), vregs[..i])
    {
      assert vregs[..i + 1][..i] == vregs[..i];
      assert forall v :: v in vregs[..i + 1] ==> v in vregs;
      seeds := a.InsertReffyRanges(vregs[i], seeds);
    }
    assert vregs[..|vregs|] == vregs;
  }

  /** Every edge out of a visited range leads to a visited range, or is
      still to be explored: its source is a seed not yet started or sits on
      the stack. */
  ghost predicate Pending(g: Graph, visited: set<RangeId>, remaining: set<RangeId>, stack: seq<RangeId>) {
    forall x, d :: x in visited && HasEdge(g, x, d) ==>
      d in visited || d in stack || x in remaining || x in stack
  }

  predicate Distinct(s: seq<RangeId>) {
    forall i, j :: 0 <= i < j < |s| ==> s[i] != s[j]
  }

  /** The inner loop over `succ[src]`: push, once each, the successors of
      `src` that are not visited. */
  method PushUnvisited(succ: Graph, src: RangeId, visited: set<RangeId>, stack: seq<RangeId>)
    returns (stack': seq<RangeId>)
    ensures |stack| <= |stack'| && stack'[..|stack|] == stack
    ensures forall d :: d in stack'[|stack|..] <==> HasEdge(succ, src, d) && d !in visited
    ensures Distinct(stack'[|stack|..])
  {
    stack' := stack;
    if src in succ {
      var dsts := succ[src];
      while dsts != {}
        invariant dsts <= succ[src]
        invariant |stack| <= |stack'| && stack'[..|stack|] == stack
        invariant forall d :: d in stack'[|stack|..] <==> d in succ[src] - dsts && d !in visited
        invariant Distinct(stack'[|stack|..])
        decreases dsts
      {
        var dst :| dst in dsts;
        dsts := dsts - {dst};
        if dst !in visited {
          assert (stack' + [dst])[|stack|..] == stack'[|stack|..] + [dst];
          stack' := stack' + [dst];
        }
      }
    }
  }

  lemma {:induction false} DistinctBound(s: seq<RangeId>, a: set<RangeId>)
    requires Distinct(s) && forall x :: x in s ==> x in a
    ensures |s| <= |a|
    decreases |s|
  {
    if s != [] {
      var n := |s|;
      var front := s[..n - 1];
      assert forall x :: x in front ==> x in a - {s[n - 1]} by {
        forall x | x in front
          ensures x in a - {s[n - 1]}
        {
          var i :| 0 <= i < n - 1 && front[i] == x;
          assert s[i] == x;
        }
      }
      DistinctBound(front, a - {s[n - 1]});
    }
  }

  /** The stack during the search from one seed: every entry is in `reach`,
      and its label is at least the number of ranges of `reach` still
      unvisited, one more once the entry itself is visited. */
  ghost predicate StackInv(reach: set<RangeId>, visited: set<RangeId>, stack: seq<RangeId>, labels: seq<nat>) {
    && |labels| == |stack|
    && forall i :: 0 <= i < |stack| ==>
         stack[i] in reach && labels[i] >= |reach - visited| + (if stack[i] in visited then 1 else 0)
  }

  /** The labels of the stack after one pop: the entries below keep theirs,
      each pushed entry gets the number of unvisited ranges. */
  function NextLabels(labels: seq<nat>, n: nat, k: nat, u: nat): seq<nat>
    requires n <= |labels|
  {
    labels[..n] + Repeat(u, k)
  }

  function Repeat(u: nat, k: nat): (r: seq<nat>)
    ensures |r| == k && forall i :: 0 <= i < k ==> r[i] == u
  {
    if k == 0 then [] else Repeat(u, k - 1) + [u]
  }

  lemma MulStep(k: nat, p: nat)
    requires k >= 1
    ensures (k - 1) * p + p == k * p
  {
  }

  lemma {:induction false} WeightRepeat(b: nat, below: seq<nat>, u: nat, k: nat)
    ensures Weight(b, below + Repeat(u, k)) == Weight(b, below) + k * Pow(b, u)
    decreases k
  {
    if k == 0 {
      assert below + Repeat(u, k) == below;
    } else {
      var front := below + Repeat(u, k - 1);
      WeightRepeat(b, below, u, k - 1);
      assert below + Repeat(u, k) == front + [u];
      WeightPush(b, front, u);
      MulStep(k, Pow(b, u));
    }
  }

  /** One pop keeps the stack invariant. */
  lemma PopKeepsStackInv(reach: set<RangeId>, visited: set<RangeId>, base: seq<RangeId>, src: RangeId,
                         labels: seq<nat>, pushed: seq<RangeId>)
    requires StackInv(reach, visited, base + [src], labels)
    requires forall d :: d in pushed ==> d in reach - (visited + {src})
    ensures StackInv(reach, visited + {src}, base + pushed,
                     NextLabels(labels, |base|, |pushed|, |reach - (visited + {src})|))
  {
    var v' := visited + {src};
    var u := |reach - v'|;
    var stack' := base + pushed;
    var labels' := NextLabels(labels, |base|, |pushed|, u);
    assert (base + [src])[|base|] == src;
    UnvisitedShrinks(reach, visited, src);
    forall i | 0 <= i < |stack'|
      ensures stack'[i] in reach && labels'[i] >= u + (if stack'[i] in v' then 1 else 0)
    {
      if i < |base| {
        assert stack'[i] == (base + [src])[i];
        assert labels'[i] == labels[i];
      } else {
        assert stack'[i] == pushed[i - |base|] && pushed[i - |base|] in pushed;
        assert labels'[i] == u;
      }
    }
  }

  /** One pop keeps `Pending`: the popped range's edges are now covered by
      what was pushed. */
  lemma PopKeepsPending(succ: Graph, visited: set<RangeId>, remaining: set<RangeId>,
                        base: seq<RangeId>, src: RangeId, pushed: seq<RangeId>)
    requires Pending(succ, visited, remaining, base + [src])
    requires forall d :: d in pushed <==> HasEdge(succ, src, d) && d !in visited + {src}
    ensures Pending(succ, visited + {src}, remaining, base + pushed)
  {
    var v' := visited + {src};
    forall x, d | x in v' && HasEdge(succ, x, d)
      ensures d in v' || d in base + pushed || x in remaining || x in base + pushed
    {
      if x == src {
        if d !in v' {
          assert d in pushed;
        }
      } else {
        assert d in base + [src] ==> d == src || d in base;
        assert x in base + [src] ==> x in base;
      }
    }
  }

  /** One pop lowers the weight of the stack. */
  lemma PopLowersWeight(reach: set<RangeId>, visited: set<RangeId>, src: RangeId, labels: seq<nat>,
                        n: nat, pushed: seq<RangeId>)
    requires n + 1 == |labels| && src in reach
    requires labels[n] >= |reach - visited| + (if src in visited then 1 else 0)
    requires Distinct(pushed) && forall d :: d in pushed ==> d in reach - (visited + {src})
    ensures Weight(|reach| + 1, NextLabels(labels, n, |pushed|, |reach - (visited + {src})|))
            < Weight(|reach| + 1, labels)
  {
    var v' := visited + {src};
    var u := |reach - v'|;
    var b := |reach| + 1;
    var top := labels[n];
    UnvisitedShrinks(reach, visited, src);
    assert labels == labels[..n] + [top];
    WeightPush(b, labels[..n], top);
    WeightRepeat(b, labels[..n], u, |pushed|);
    DistinctBound(pushed, reach - v');
    SubsetCard(reach - v', reach);
    PushesWeighLess(b, |pushed|, u, top);
  }

  lemma SplitAt(s: seq<RangeId>, n: nat)
    requires n <= |s|
    ensures s == s[..n] + s[n..]
    ensures n + 1 == |s| ==> s == s[..n] + [s[n]]
  {
  }

  lemma UnvisitedShrinks(reach: set<RangeId>, visited: set<RangeId>, x: RangeId)
    requires x in reach
    ensures |reach - (visited + {x})| + (if x in visited then 0 else 1) == |reach - visited|
  {
    if x !in visited {
      assert reach - visited == (reach - (visited + {x})) + {x};
    } else {
      assert reach - visited == reach - (visited + {x});
    }
  }

  /** One pop of the search keeps its invariants and lowers the weight of
      the stack: `stack` is the stack before the pop, `src` its top at
      index `n`, and `next` the stack once the unvisited successors of `src`
      have been pushed. */
  lemma PopStep(succ: Graph, reach: set<RangeId>, remaining: set<RangeId>, visited: set<RangeId>,
                stack: seq<RangeId>, labels: seq<nat>, n: nat, src: RangeId, next: seq<RangeId>)
    requires Closed(succ, reach) && visited <= reach
    requires n + 1 == |stack| && stack[n] == src
    requires StackInv(reach, visited, stack, labels)
    requires Pending(succ, visited, remaining, stack)
    requires n <= |next| && next[..n] == stack[..n]
    requires forall d :: d in next[n..] <==> HasEdge(succ, src, d) && d !in visited + {src}
    requires Distinct(next[n..])
    ensures visited + {src} <= reach
    ensures StackInv(reach, visited + {src}, next,
                     NextLabels(labels, n, |next| - n, |reach - (visited + {src})|))
    ensures Pending(succ, visited + {src}, remaining, next)
    ensures Weight(|reach| + 1, NextLabels(labels, n, |next| - n, |reach - (visited + {src})|))
            < Weight(|reach| + 1, labels)
  {
    var base := stack[..n];
    var pushed := next[n..];
    SplitAt(stack, n);
    SplitAt(next, n);
    assert next == base + pushed && |base| == n && |pushed| == |next| - n;
    assert stack == base + [src];
    assert src in reach by {
      assert stack[n] in reach;
    }
    assert forall d :: d in pushed ==> d in reach - (visited + {src});
    ghost var u := |reach - (visited + {src})|;
    assert NextLabels(labels, |base|, |pushed|, u) == NextLabels(labels, n, |next| - n, u);
    PopKeepsStackInv(reach, visited, base, src, labels, pushed);
    PopKeepsPending(succ, visited, remaining, base, src, pushed);
    PopLowersWeight(reach, visited, src, labels, n, pushed);
  }

  /** The search from one seed `start`: pop a range, visit it, push its
      unvisited successors, until the stack is empty. A range is added to
      `visited` when it is popped, so it may sit on the stack several times.
      `reach` is a closed set holding everything visited so far. Termination
      is by the weight of the stack, where each entry counts `|reach| + 1`
      to the power of its label: the number of unvisited ranges of `reach`
      when it was pushed (one more for the seed). */
  method SearchFrom(succ: Graph, ghost reach: set<RangeId>, ghost remaining: set<RangeId>,
                    visited: set<RangeId>, start: RangeId)
    returns (visited': set<RangeId>)
    requires Closed(succ, reach) && start in visited && visited <= reach
    requires Pending(succ, visited, remaining + {start}, [])
    ensures visited <= visited' <= reach
    ensures Pending(succ, visited', remaining, [])
  {
    visited' := visited;
    var stack := [start];
    ghost var labels: seq<nat> := [|reach - visited'| + 1];
    assert Pending(succ, visited', remaining, stack);
    while stack != []
      invariant visited <= visited' <= reach
      invariant StackInv(reach, visited', stack, labels)
      invariant Pending(succ, visited', remaining, stack)
      decreases Weight(|reach| + 1, labels)
    {
      var src := stack[|stack| - 1];
      var base := stack[..|stack| - 1];
      var next := PushUnvisited(succ, src, visited' + {src}, base);
      PopStep(succ, reach, remaining, visited', stack, labels, |base|, src, next);
      labels := NextLabels(labels, |base|, |next| - |base|, |reach - (visited' + {src})|);
      visited' := visited' + {src};
      stack := next;
    }
  }

  /** Stage 3: the closure. `visited` starts as a copy of the seeds and a
      search runs from each seed; the result is exactly the set of ranges
      reachable from the seeds. */
  method ComputeVisited(succ: Graph, seeds: set<RangeId>) returns (visited: set<RangeId>)
    ensures visited == ReachSet(succ, seeds)
  {
    ghost var reach := ReachSet(succ, seeds);
    ReachSetClosed(succ, seeds);
    SeedsInReachSet(succ, seeds);
    visited := seeds;
    var remaining := seeds;
    while remaining != {}
      invariant remaining <= seeds <= visited <= reach
      invariant Pending(succ, visited, remaining, [])
      decreases remaining
    {
      var start :| start in remaining;
      remaining := remaining - {start};
      visited := SearchFrom(succ, reach, remaining, visited, start);
    }
    assert Closed(succ, visited);
    ReachSetLeastClosed(succ, seeds, visited);
  }

  /** Stage 4: mark every visited range. */
  method MarkVisited(a: BacktrackingReftypeAnalysis, visited: set<RangeId>)
    requires forall id :: id in visited ==> ValidId(a.Env(), id) && !IsRef(a.Env(), id)
    modifies a
    ensures a.Env() == Marked(old(a.Env()), visited)
  {
    var rest := visited;
    assert Marked(a.Env(), {}) == a.Env();
    while rest != {}
      invariant rest <= visited
      invariant a.Env() == Marked(old(a.Env()), visited - rest)
      decreases rest
    {
      var r :| r in rest;
      a.MarkReffy(r);
      MarkedTwice(old(a.Env()), visited - rest, {r});
      assert visited - rest + {r} == visited - (rest - {r});
      rest := rest - {r};
    }
  }

  /** `core_reftypes_analysis`: on success the tables come out with `isRef`
      set on exactly the ranges reachable from the seeds and nothing else
      changed; on a failed lookup (a panic in the source) nothing is marked. */
  method CoreReftypesAnalysis(a: BacktrackingReftypeAnalysis, moves: seq<MoveInfoElem>, cls: RegClass,
                              vregs: seq<VirtualReg>) returns (ok: bool)
    requires WellFormed(a.Env())
    requires forall m :: m in moves ==> m.dst.cls == m.src.cls
    requires MovesInBounds(a.Env(), moves, cls)
    requires forall v :: v in vregs ==> v.cls == cls
    requires VregsInBounds(a.Env(), vregs)
    requires MarkingAllowed(a.Env(), moves, cls, vregs)
    modifies a
    ensures ok == ReftypedRanges(old(a.Env()), moves, cls, vregs).Some?
    ensures ok ==> a.Env() == Marked(old(a.Env()), ReftypedRanges(old(a.Env()), moves, cls, vregs).value)
    ensures !ok ==> a.Env() == old(a.Env())
  {
    var succ := BuildSucc(a, moves, cls);
    if succ.None? {
      return false;
    }
    var seeds := CollectReftypedRanges(a, vregs, cls);
    var visited := ComputeVisited(succ.value, seeds);
    MarkVisited(a, visited);
    ok := true;
  }

  /** `do_reftypes_analysis`: run the core over the given tables and hand
      back the tables with their `isRef` bits set. */
  method DoReftypesAnalysis(rlrEnv: seq<RealRange>, vlrEnv: seq<VirtualRange>, fragEnv: seq<RangeFrag>,
                            maps: RegToRangesMaps, moves: seq<MoveInfoElem>, cls: RegClass,
                            vregs: seq<VirtualReg>)
    returns (ok: bool, rlrOut: seq<RealRange>, vlrOut: seq<VirtualRange>)
    requires WellFormed(RangeEnv(rlrEnv, vlrEnv, fragEnv, maps))
    requires forall m :: m in moves ==> m.dst.cls == m.src.cls
    requires MovesInBounds(RangeEnv(rlrEnv, vlrEnv, fragEnv, maps), moves, cls)
    requires forall v :: v in vregs ==> v.cls == cls
    requires VregsInBounds(RangeEnv(rlrEnv, vlrEnv, fragEnv, maps), vregs)
    requires MarkingAllowed(RangeEnv(rlrEnv, vlrEnv, fragEnv, maps), moves, cls, vregs)
    ensures ok == ReftypedRanges(RangeEnv(rlrEnv, vlrEnv, fragEnv, maps), moves, cls, vregs).Some?
    ensures ok ==>
      var marks := ReftypedRanges(RangeEnv(rlrEnv, vlrEnv, fragEnv, maps), moves, cls, vregs).value;
      rlrOut == RealMarked(rlrEnv, marks) && vlrOut == VirtualMarked(vlrEnv, marks)
    ensures !ok ==> rlrOut == rlrEnv && vlrOut == vlrEnv
  {
    var analysis := new BacktrackingReftypeAnalysis(rlrEnv, vlrEnv, fragEnv, maps);
    ok := CoreReftypesAnalysis(analysis, moves, cls, vregs);
    rlrOut, vlrOut := analysis.rlrEnv, analysis.vlrEnv;
  }
}
