// The keys and flags a resize gesture is looked up and executed with.
module Flags {

  /** The keyboard modifier held during a drag. */
  datatype ResizerModifier = None | Move | ShrinkGrow

  /**
   * The three-bit flag set. A set DisableResizeAfter bit also stands for
   * "the stack may consume space after itself", a set DisableResizeBefore
   * bit for "the stack may consume space before itself".
   */
  datatype ResizeFlags = ResizeFlags(disableResizeAfter: bool, disableResizeBefore: bool, hasTransition: bool) {

    /** The bitwise AND of two flag sets. */
    function Intersect(other: ResizeFlags): (r: ResizeFlags)
      ensures r.disableResizeAfter <==> disableResizeAfter && other.disableResizeAfter
      ensures r.disableResizeBefore <==> disableResizeBefore && other.disableResizeBefore
      ensures r.hasTransition <==> hasTransition && other.hasTransition
    {
      ResizeFlags(disableResizeAfter && other.disableResizeAfter,
                  disableResizeBefore && other.disableResizeBefore,
                  hasTransition && other.hasTransition)
    }

    function CanConsumeSpaceAfterStack(): bool {
      disableResizeAfter
    }

    function CanConsumeSpaceBeforeStack(): bool {
      disableResizeBefore
    }

    /** The flags as the enum's integer value. */
    function Bits(): (r: int)
      ensures 0 <= r < 8
      ensures disableResizeAfter <==> r % 2 == 1
      ensures disableResizeBefore <==> (r / 2) % 2 == 1
      ensures hasTransition <==> r / 4 == 1
    {
      (if disableResizeAfter then 1 else 0) + (if disableResizeBefore then 2 else 0) + (if hasTransition then 4 else 0)
    }
  }

  const NoFlags := ResizeFlags(false, false, false)

  /** Intersect is the bitwise AND of the enum's integer values. */
  lemma IntersectIsBitwiseAnd(f: ResizeFlags, g: ResizeFlags)
    ensures f.Intersect(g).Bits() == ((f.Bits() as bv3) & (g.Bits() as bv3)) as int
  {
  }

  /** Intersecting with the empty flag set clears every flag. */
  lemma IntersectNone(f: ResizeFlags)
    ensures f.Intersect(NoFlags) == NoFlags && NoFlags.Intersect(f) == NoFlags
  {
  }
}
