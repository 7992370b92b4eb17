// The zones of a resizer: which distribution strategy each side of the
// resizer uses, and where a zone is offered at all.
module ResizerModes {
  import opened Flags
  import RM = ResizeMethods

  datatype ResizerMode = None | ArrowBefore | Default | ArrowAfter

  /** Every mode except None, in declaration order. */
  function AllModes(): (r: seq<ResizerMode>)
    ensures forall m :: m in r <==> m != ResizerMode.None
    ensures |r| == 3
  {
    var r := [ArrowBefore, Default, ArrowAfter];
    assert forall m :: m in r <==> m == ArrowBefore || m == Default || m == ArrowAfter;
    r
  }

  datatype MethodPair = MethodPair(methodBefore: RM.ResizeMethod, methodAfter: RM.ResizeMethod)

  datatype MaybePair = NoPair | Pair(pair: MethodPair)

  /**
   * The strategies a mode uses before and after the resizer: Cascade on both
   * sides except that an arrow mode squeezes the side its arrow points to.
   */
  function GetResizeMethods(mode: ResizerMode): (r: MaybePair)
    ensures r.NoPair? <==> mode == ResizerMode.None
    ensures r.Pair? ==> r.pair.methodBefore in {RM.Cascade, RM.SqueezeExpand}
    ensures r.Pair? ==> r.pair.methodAfter in {RM.Cascade, RM.SqueezeExpand}
    ensures r.Pair? ==> (r.pair.methodBefore == RM.SqueezeExpand <==> mode == ArrowBefore)
    ensures r.Pair? ==> (r.pair.methodAfter == RM.SqueezeExpand <==> mode == ArrowAfter)
  {
    match mode
    case ArrowBefore => Pair(MethodPair(RM.SqueezeExpand, RM.Cascade))
    case Default => Pair(MethodPair(RM.Cascade, RM.Cascade))
    case ArrowAfter => Pair(MethodPair(RM.Cascade, RM.SqueezeExpand))
    case None => NoPair
  }

  /** Whether the zone is offered on the resizer at `indexInParent` of a stack of `totalChildren`. */
  function IsAccessible(mode: ResizerMode, indexInParent: int, totalChildren: int, currentFlags: ResizeFlags): (r: bool)
    ensures mode == Default ==> r
    ensures mode == ResizerMode.None ==> !r
    ensures r && mode == ArrowBefore ==> 0 <= indexInParent
    ensures r && mode == ArrowAfter ==> indexInParent < totalChildren
    ensures mode == ArrowBefore && indexInParent == 0 ==> (r <==> currentFlags.CanConsumeSpaceBeforeStack())
    ensures mode == ArrowAfter && indexInParent == totalChildren - 2 ==> (r <==> currentFlags.CanConsumeSpaceAfterStack())
  {
    match mode
    case Default => true
    case ArrowBefore => indexInParent > -1 && !(indexInParent == 0 && !currentFlags.CanConsumeSpaceBeforeStack())
    case ArrowAfter => indexInParent < totalChildren && !(indexInParent == totalChildren - 2 && !currentFlags.CanConsumeSpaceAfterStack())
    case None => false
  }

  function Mirror(mode: ResizerMode): ResizerMode {
    match mode
    case ArrowBefore => ArrowAfter
    case ArrowAfter => ArrowBefore
    case _ => mode
  }

  /** Mirroring a mode swaps its before and after strategies. */
  lemma MirroredModesSwapMethods(mode: ResizerMode)
    ensures GetResizeMethods(Mirror(mode)).NoPair? <==> GetResizeMethods(mode).NoPair?
    ensures GetResizeMethods(mode).Pair? ==>
              GetResizeMethods(Mirror(mode)).pair
              == MethodPair(GetResizeMethods(mode).pair.methodAfter, GetResizeMethods(mode).pair.methodBefore)
  {
  }

  /**
   * Default is offered everywhere and None nowhere. An arrow zone is offered
   * on every resizer with elements on both sides except where its arrow side
   * holds a single element at the stack's edge, which needs that edge of the
   * stack to be able to move.
   */
  lemma Accessibility(indexInParent: int, totalChildren: int, flags: ResizeFlags)
    ensures IsAccessible(Default, indexInParent, totalChildren, flags)
    ensures !IsAccessible(ResizerMode.None, indexInParent, totalChildren, flags)
    ensures IsAccessible(ArrowBefore, indexInParent, totalChildren, flags)
            <==> indexInParent >= 1 || (indexInParent == 0 && flags.CanConsumeSpaceBeforeStack())
    ensures IsAccessible(ArrowAfter, indexInParent, totalChildren, flags)
            <==> indexInParent < totalChildren
                 && (indexInParent != totalChildren - 2 || flags.CanConsumeSpaceAfterStack())
  {
  }

  /** The boundary case: ArrowBefore on the first resizer is offered exactly when the stack's start may move. */
  lemma ArrowBeforeAtFirstResizer(totalChildren: int, flags: ResizeFlags)
    ensures IsAccessible(ArrowBefore, 0, totalChildren, flags) <==> flags.disableResizeBefore
  {
  }
}
