// How a gesture turns the raw drag amount into the movement of one resizer.
// A transformation is given the requested amount, the resizable space before
// the active resizer, the space before the resizer being moved, and the total
// resizable space of the stack.
module Transformations {

  datatype ResizeAmountTransformation =
    | MaintainResizeAmount
    | NegateResizeAmount
      /** -Scale(amount, original, total - current): the paired resizer after the active one. */
    | NegatedScaleBySpaceAfter
      /** -Scale(amount, total - original, current): the paired resizer before the active one. */
    | NegatedScaleBySpaceBefore

  /** Rescales `input` by currentSpace / originalSpace, leaving it alone when either space is zero. */
  function Scale(input: real, originalSpace: real, currentSpace: real): (r: real)
    ensures originalSpace == 0.0 || currentSpace == 0.0 ==> r == input
    ensures originalSpace != 0.0 && currentSpace != 0.0 ==> r * originalSpace == input * currentSpace
  {
    if originalSpace == 0.0 || currentSpace == 0.0 then input
    else input * currentSpace / originalSpace
  }

  /** The movement `t` asks of a resizer when the active one is asked to move by `amount`. */
  function Apply(t: ResizeAmountTransformation, amount: real, originalSpace: real, currentSpace: real, totalSpace: real): (r: real)
    ensures t == MaintainResizeAmount ==> r == amount
    ensures t == NegateResizeAmount ==> r == -amount
    ensures amount == 0.0 ==> r == 0.0
  {
    match t
    case MaintainResizeAmount => amount
    case NegateResizeAmount => -amount
    case NegatedScaleBySpaceAfter => -Scale(amount, originalSpace, totalSpace - currentSpace)
    case NegatedScaleBySpaceBefore => -Scale(amount, totalSpace - originalSpace, currentSpace)
  }

  /** With positive spaces, scaling keeps the sign of the amount. */
  lemma ScaleKeepsSign(input: real, originalSpace: real, currentSpace: real)
    requires 0.0 <= originalSpace && 0.0 <= currentSpace
    ensures input >= 0.0 ==> Scale(input, originalSpace, currentSpace) >= 0.0
    ensures input <= 0.0 ==> Scale(input, originalSpace, currentSpace) <= 0.0
  {
    if originalSpace != 0.0 && currentSpace != 0.0 {
      assert 0.0 < originalSpace;
      var r := Scale(input, originalSpace, currentSpace);
      assert r == (input * currentSpace) / originalSpace;
    }
  }

  /**
   * Every transformation keeps the amount or moves the resizer the other way;
   * for spaces taken from one stack (0 <= original, current <= total) the
   * moved amount is never of the same sign as a negated one.
   */
  lemma TransformDirection(t: ResizeAmountTransformation, amount: real, originalSpace: real, currentSpace: real, totalSpace: real)
    requires 0.0 <= originalSpace <= totalSpace && 0.0 <= currentSpace <= totalSpace
    ensures t == MaintainResizeAmount ==> Apply(t, amount, originalSpace, currentSpace, totalSpace) == amount
    ensures t != MaintainResizeAmount && amount >= 0.0 ==> Apply(t, amount, originalSpace, currentSpace, totalSpace) <= 0.0
    ensures t != MaintainResizeAmount && amount <= 0.0 ==> Apply(t, amount, originalSpace, currentSpace, totalSpace) >= 0.0
  {
    match t
    case NegatedScaleBySpaceAfter => ScaleKeepsSign(amount, originalSpace, totalSpace - currentSpace);
    case NegatedScaleBySpaceBefore => ScaleKeepsSign(amount, totalSpace - originalSpace, currentSpace);
    case _ =>
  }
}
