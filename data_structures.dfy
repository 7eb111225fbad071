/**
 The vocabulary the reftype analysis is written in: registers, program
 points, live-range fragments, the two kinds of live range and the unified
 range identity that the propagation graph uses as its vertex type.

 Only the parts of these types that the analysis reads or writes are kept.
 */
module DataStructures {

  datatype Option<T> = None | Some(value: T)

  /** Register classes; one of them is designated by the client as the class
      that can carry references. */
  datatype RegClass = I32 | F32 | I64 | F64 | V128

  /** A register: real (a fixed hardware register) or virtual, with its class
      and its index into the register-to-ranges tables. */
  datatype Reg = Reg(isReal: bool, cls: RegClass, index: nat)

  /** A register known to be virtual, as the client supplies reftyped ones. */
  datatype VirtualReg = VirtualReg(cls: RegClass, index: nat)

  /** The two sub-points of an instruction that this analysis looks at: the
      use point comes before the def point of the same instruction. */
  datatype Point = Use | Def

  datatype InstPoint = InstPoint(iix: nat, pt: Point)

  function NewUse(iix: nat): InstPoint { InstPoint(iix, Use) }

  function NewDef(iix: nat): InstPoint { InstPoint(iix, Def) }

  predicate PointLe(a: InstPoint, b: InstPoint) {
    a.iix < b.iix || (a.iix == b.iix && (a.pt == Use || b.pt == Def))
  }

  /** A fragment: the closed interval of program points [first, last]. */
  datatype RangeFrag = RangeFrag(first: InstPoint, last: InstPoint)

  predicate FragContainsPt(f: RangeFrag, pt: InstPoint) {
    PointLe(f.first, pt) && PointLe(pt, f.last)
  }

  /** A live range bound to a real register; its fragments are indices into
      the shared fragment table. */
  datatype RealRange = RealRange(rreg: nat, sortedFrags: seq<nat>, isRef: bool)

  /** A live range of a virtual register; it owns its fragments. */
  datatype VirtualRange = VirtualRange(vreg: nat, sortedFrags: seq<RangeFrag>, isRef: bool)

  /** `contains_pt` of a fragment-index list: some listed fragment of the
      table covers the point. */
  predicate FragIxsContainPt(ixs: seq<nat>, fragEnv: seq<RangeFrag>, pt: InstPoint) {
    exists k :: 0 <= k < |ixs| && ixs[k] < |fragEnv| && FragContainsPt(fragEnv[ixs[k]], pt)
  }

  /** `contains_pt` of an owned fragment list. */
  predicate FragsContainPt(frags: seq<RangeFrag>, pt: InstPoint) {
    exists k :: 0 <= k < |frags| && FragContainsPt(frags[k], pt)
  }

  /** For each real register, and for each virtual register, the indices of
      the live ranges it takes part in, in order. */
  datatype RegToRangesMaps = RegToRangesMaps(rregToRlrs: seq<seq<nat>>, vregToVlrs: seq<seq<nat>>)

  /** One move instruction `dst := src` at instruction `iix`. */
  datatype MoveInfoElem = MoveInfoElem(dst: Reg, src: Reg, iix: nat)

  /** The unified range identity: an index into the real-range table or into
      the virtual-range table. */
  datatype RangeId = Real(ix: nat) | Virtual(ix: nat)
}
