// One resizer movement as the gesture executes it: the drag amount is
// transformed, the element list is split at the resizer into the slice
// before it (read backwards) and the slice after it (read forwards), and the
// mode's strategies shrink one side and grow the other by what was taken.
// Resizable space is read from `spaces`, the cumulative resizable space
// before and including each element, as the host computed it.
module Resizes {
  import opened Sizes
  import opened Harness
  import opened ListSlices
  import opened ResizeMethods
  import opened Flags
  import opened Transformations
  import opened ResizerModes

  /** One side of a resizer: whether it is resized, the elements it visits and its resizable space. */
  datatype Side = Side(resized: bool, items: seq<int>, space: real)

  predicate SideFits(side: Side, n: int) {
    side.resized ==> side.items != [] && InRange(side.items, n)
  }

  /** A strategy run on one side: unchanged sizes, and the whole amount, when the side is not resized. */
  function SideOutcome(m: ResizeMethod, s: seq<real>, mins: seq<real>, side: Side, amount: real, expand: real)
    : (r: (seq<real>, real))
    requires |s| == |mins| && SideFits(side, |s|)
    ensures |r.0| == |s|
    ensures !side.resized ==> r == (s, amount)
  {
    if side.resized then MethodOutcome(m, s, mins, side.items, amount, side.space, expand) else (s, amount)
  }

  /**
   * Moving a resizer by `change`: the side the resizer moves into shrinks
   * first, then the other side grows by what was actually taken (by the whole
   * change when the shrinking side is not resized). Returns the sizes and the
   * movement actually made.
   */
  function Shifted(p: MethodPair, s: seq<real>, mins: seq<real>, before: Side, after: Side, change: real, expand: real)
    : (r: (seq<real>, real))
    requires |s| == |mins| && SideFits(before, |s|) && SideFits(after, |s|)
    ensures |r.0| == |s|
  {
    if change > 0.0 then
      var shrunk := SideOutcome(p.methodAfter, s, mins, after, -change, expand);
      var moved := -shrunk.1;
      (SideOutcome(p.methodBefore, shrunk.0, mins, before, moved, expand).0, moved)
    else if change < 0.0 then
      var shrunk := SideOutcome(p.methodBefore, s, mins, before, change, expand);
      var moved := shrunk.1;
      (SideOutcome(p.methodAfter, shrunk.0, mins, after, -moved, expand).0, moved)
    else (s, change)
  }

  /** The shared body of both movement revisions: runs the strategies of `p` on the two sides. */
  method Shift(h: Stack, p: MethodPair, before: Side, after: Side, change: real, expand: real) returns (moved: real)
    requires h.Valid() && SideFits(before, h.sizes.Length) && SideFits(after, h.sizes.Length)
    modifies h.sizes
    ensures (h.sizes[..], moved) == Shifted(p, old(h.sizes[..]), h.minimums, before, after, change, expand)
  {
    moved := change;
    if change > 0.0 {
      if after.resized {
        var applied := RunMethod(p.methodAfter, h, after.items, -moved, after.space, expand);
        moved := -applied;
      }
      if before.resized {
        var ignored := RunMethod(p.methodBefore, h, before.items, moved, before.space, expand);
      }
    } else if change < 0.0 {
      if before.resized {
        moved := RunMethod(p.methodBefore, h, before.items, moved, before.space, expand);
      }
      if after.resized {
        var ignored := RunMethod(p.methodAfter, h, after.items, -moved, after.space, expand);
      }
    }
  }

  /** What a movement reports as the change in stack size, by the flags it runs under. */
  function StackChange(moved: real, flags: ResizeFlags): (r: real)
    ensures flags.disableResizeAfter ==> r == moved
    ensures flags.disableResizeBefore && !flags.disableResizeAfter ==> r == -moved
    ensures !flags.disableResizeAfter && !flags.disableResizeBefore ==> r == 0.0
  {
    if flags.disableResizeAfter then moved
    else if flags.disableResizeBefore then -moved
    else 0.0
  }

  /** The resizable space before the resizer after element `index`, read from the host's cumulative table. */
  function SpaceBeforeResizer(spaces: seq<real>, index: int): (r: real)
    requires index < |spaces|
    ensures index < 0 ==> r == 0.0
    ensures 0 <= index ==> r == spaces[index]
  {
    if index < 0 then 0.0 else spaces[index]
  }

  /** Read from a table that matches the sizes, the space before a resizer is the resizable space of the elements up to it. */
  lemma SpaceBeforeIsPrefix(s: seq<real>, mins: seq<real>, spaces: seq<real>, index: int)
    requires |s| == |mins| && SpacesMatch(s, mins, spaces) && -1 <= index < |spaces|
    ensures SpaceBeforeResizer(spaces, index) == Prefix(s, mins, index + 1)
  {
  }

  function SpaceAfterResizer(spaces: seq<real>, index: int): (r: real)
    requires 0 < |spaces| && index < |spaces|
    ensures SpaceBeforeResizer(spaces, index) + r == spaces[|spaces| - 1]
  {
    spaces[|spaces| - 1] - SpaceBeforeResizer(spaces, index)
  }

  /** Whether the elements after the resizer are resized: allowed by the flags, and the slice after it is not empty. */
  function ResizeAfterIndex(index: int, count: int, flags: ResizeFlags): (r: bool)
    ensures r <==> !flags.disableResizeAfter && CreateForwardsSlice(count, index + 1).Items().Some?
  {
    index < count - 1 && !flags.disableResizeAfter
  }

  /** Whether the elements before the resizer are resized: allowed by the flags, and the slice before it is not empty. */
  function ResizeBeforeIndex(index: int, flags: ResizeFlags): (r: bool)
    ensures r <==> !flags.disableResizeBefore && CreateBackwardsSlice(index).Items().Some?
  {
    index > -1 && !flags.disableResizeBefore
  }

  /** The side before the resizer: elements index down to 0. */
  function BeforeSide(spaces: seq<real>, index: int, flags: ResizeFlags): (side: Side)
    requires -1 <= index < |spaces|
    ensures SideFits(side, |spaces|)
    ensures side.resized <==> ResizeBeforeIndex(index, flags)
    ensures side.space == SpaceBeforeResizer(spaces, index)
  {
    var resized := ResizeBeforeIndex(index, flags);
    Side(resized, if resized then CreateBackwardsSlice(index).Items().value else [], SpaceBeforeResizer(spaces, index))
  }

  /** The side after the resizer: elements index + 1 up to the last. */
  function AfterSide(spaces: seq<real>, index: int, flags: ResizeFlags): (side: Side)
    requires 0 < |spaces| && -1 <= index < |spaces|
    ensures SideFits(side, |spaces|)
    ensures side.resized <==> ResizeAfterIndex(index, |spaces|, flags)
    ensures side.space == SpaceAfterResizer(spaces, index)
  {
    var resized := ResizeAfterIndex(index, |spaces|, flags);
    Side(resized, if resized then CreateForwardsSlice(|spaces|, index + 1).Items().value else [], SpaceAfterResizer(spaces, index))
  }

  /** The host's cumulative table agrees with the sizes: entry k is the resizable space of elements 0..k. */
  predicate SpacesMatch(s: seq<real>, mins: seq<real>, spaces: seq<real>)
    requires |s| == |mins|
  {
    |spaces| == |s| && forall k :: 0 <= k < |s| ==> spaces[k] == Prefix(s, mins, k + 1)
  }

  /** A movement of the resizer `indexOffset` places from the active one. */
  datatype Resize = Resize(indexOffset: int, transformation: ResizeAmountTransformation, mode: ResizerMode) {

    /** The active resizer's `amount`, transformed for the resizer after element `index`. */
    function TransformedChange(amount: real, index: int, activeIndex: int, spaces: seq<real>): (r: real)
      requires 0 < |spaces| && index < |spaces| && activeIndex < |spaces|
      ensures transformation == MaintainResizeAmount ==> r == amount
      ensures transformation == NegateResizeAmount ==> r == -amount
      ensures amount == 0.0 ==> r == 0.0
    {
      Apply(transformation, amount, SpaceBeforeResizer(spaces, activeIndex), SpaceBeforeResizer(spaces, index), spaces[|spaces| - 1])
    }

    /**
     * Whether the side the resizer moves into has strictly more resizable
     * space than the move needs (or is not resized at all).
     */
    function HasSpaceForResize(amount: real, index: int, activeIndex: int, spaces: seq<real>, flags: ResizeFlags): (r: bool)
      requires 0 < |spaces| && -1 <= index < |spaces| && activeIndex < |spaces|
      ensures var change := TransformedChange(amount, index, activeIndex, spaces);
              r <==> if change > 0.0 then !ResizeAfterIndex(index, |spaces|, flags) || SpaceAfterResizer(spaces, index) > change
                     else !ResizeBeforeIndex(index, flags) || SpaceBeforeResizer(spaces, index) > -change
    {
      var spaceBeforeResizer := SpaceBeforeResizer(spaces, index);
      var spaceAfterResizer := spaces[|spaces| - 1] - spaceBeforeResizer;
      var desiredResizerPositionChange := TransformedChange(amount, index, activeIndex, spaces);
      if desiredResizerPositionChange > 0.0 then
        !ResizeAfterIndex(index, |spaces|, flags) || spaceAfterResizer > desiredResizerPositionChange
      else
        !ResizeBeforeIndex(index, flags) || spaceBeforeResizer > -desiredResizerPositionChange
    }

    /** The sizes after the movement and the stack-size change it reports. */
    function Outcome(s: seq<real>, mins: seq<real>, amount: real, index: int, activeIndex: int,
                     spaces: seq<real>, expand: real, flags: ResizeFlags): (r: (seq<real>, real))
      requires |s| == |mins| == |spaces| && 0 < |spaces| && -1 <= index < |spaces| && activeIndex < |spaces|
      ensures |r.0| == |s|
    {
      match GetResizeMethods(mode)
      case NoPair => (s, 0.0)
      case Pair(p) =>
        var (t, moved) := Shifted(p, s, mins, BeforeSide(spaces, index, flags), AfterSide(spaces, index, flags),
                                  TransformedChange(amount, index, activeIndex, spaces), expand);
        (t, StackChange(moved, flags))
    }

    /** The movement itself, on the harness's sizes. */
    method Execute(h: Stack, amount: real, index: int, activeIndex: int, spaces: seq<real>, spaceToExpandInto: real,
                   flags: ResizeFlags) returns (stackChange: real)
      requires h.Valid() && |spaces| == h.sizes.Length && 0 < |spaces|
      requires -1 <= index < |spaces| && activeIndex < |spaces|
      modifies h.sizes
      ensures (h.sizes[..], stackChange)
              == Outcome(old(h.sizes[..]), h.minimums, amount, index, activeIndex, spaces, spaceToExpandInto, flags)
    {
      var resizerPositionChange := TransformedChange(amount, index, activeIndex, spaces);
      var methods := GetResizeMethods(mode);
      if methods.NoPair? {
        return 0.0;
      }
      var before := BeforeSide(spaces, index, flags);
      var after := AfterSide(spaces, index, flags);
      var moved := Shift(h, methods.pair, before, after, resizerPositionChange, spaceToExpandInto);
      stackChange := StackChange(moved, flags);
    }
  }

  // ---------------------------------------------------------------------
  // What a movement guarantees.

  /** A resized side of a consistent state: its elements are distinct and its recorded space is its true resizable space. */
  predicate SideHolds(side: Side, s: seq<real>, mins: seq<real>)
    requires |s| == |mins| && SideFits(side, |s|)
  {
    side.resized ==> Distinct(side.items) && side.space == SumSpaces(s, mins, side.items)
  }

  /**
   * One strategy run on a resized side: the state stays consistent, only the
   * side changes, a growth is applied in full and a shrink up to the side's
   * space, and the side's resizable space and the stack's size both change by
   * exactly the amount applied.
   */
  lemma SideStep(m: ResizeMethod, s: seq<real>, mins: seq<real>, side: Side, others: seq<int>, amount: real, expand: real)
    requires |s| == |mins| && SideFits(side, |s|) && side.resized && SideHolds(side, s, mins)
    requires AtLeastMinimums(s, mins) && InRange(others, |s|) && Disjoint(side.items, others)
    requires m == Cascade || m == SqueezeExpand
    ensures 0.0 <= side.space
    ensures var (t, applied) := MethodOutcome(m, s, mins, side.items, amount, side.space, expand);
            && AtLeastMinimums(t, mins)
            && SameOutside(s, t, side.items)
            && applied == (if amount >= 0.0 then amount else -Min(-amount, side.space))
            && Sum(t) == Sum(s) + applied
            && SumSpaces(t, mins, side.items) == side.space + applied
            && SumSpaces(t, mins, others) == SumSpaces(s, mins, others)
  {
    var (t, applied) := MethodOutcome(m, s, mins, side.items, amount, side.space, expand);
    SumSpacesNonNegative(s, mins, side.items);
    StrategyIsSafe(m, s, mins, side.items, amount, side.space, expand);
    StrategyConservesSpace(m, s, mins, side.items, amount, side.space, expand);
    SumDifference(s, t, mins, side.items);
    forall i | 0 <= i < |others|
      ensures s[others[i]] == t[others[i]]
    {
      assert others[i] !in side.items;
    }
    SumSpacesFrame(s, t, mins, others);
  }

  /** The common requirements of the shifting lemmas. */
  predicate ShiftReady(p: MethodPair, s: seq<real>, mins: seq<real>, before: Side, after: Side)
  {
    && |s| == |mins| && SideFits(before, |s|) && SideFits(after, |s|)
    && AtLeastMinimums(s, mins) && SideHolds(before, s, mins) && SideHolds(after, s, mins)
    && Disjoint(before.items, after.items)
    && p.methodBefore in {Cascade, SqueezeExpand} && p.methodAfter in {Cascade, SqueezeExpand}
  }

  /** What `Shifted` promises of a movement that already made `moved` out of the requested change. */
  predicate ShiftedWell(s: seq<real>, mins: seq<real>, before: Side, after: Side, t: seq<real>, moved: real)
    requires |s| == |mins| == |t| && SideFits(before, |s|) && SideFits(after, |s|)
  {
    && AtLeastMinimums(t, mins)
    && SameOutside(s, t, before.items + after.items)
    && (before.resized ==> SumSpaces(t, mins, before.items) == before.space + moved)
    && (after.resized ==> SumSpaces(t, mins, after.items) == after.space - moved)
    && Sum(t) == Sum(s) + (if before.resized then 0.0 else -moved) + (if after.resized then 0.0 else moved)
  }

  /** A resizer moving towards the end of the stack: the side after shrinks first. */
  lemma ShiftedForward(p: MethodPair, s: seq<real>, mins: seq<real>, before: Side, after: Side, change: real, expand: real)
    requires ShiftReady(p, s, mins, before, after) && change > 0.0
    ensures var (t, moved) := Shifted(p, s, mins, before, after, change, expand);
            && moved == (if after.resized then Min(change, after.space) else change)
            && ShiftedWell(s, mins, before, after, t, moved)
  {
    var (s1, applied) := SideOutcome(p.methodAfter, s, mins, after, -change, expand);
    if after.resized {
      SideStep(p.methodAfter, s, mins, after, if before.resized then before.items else [], -change, expand);
    }
    if before.resized {
      SideStep(p.methodBefore, s1, mins, before, if after.resized then after.items else [], -applied, expand);
    }
  }

  /** A resizer moving towards the start of the stack: the side before shrinks first. */
  lemma ShiftedBackward(p: MethodPair, s: seq<real>, mins: seq<real>, before: Side, after: Side, change: real, expand: real)
    requires ShiftReady(p, s, mins, before, after) && change < 0.0
    ensures var (t, moved) := Shifted(p, s, mins, before, after, change, expand);
            && moved == (if before.resized then -Min(-change, before.space) else change)
            && ShiftedWell(s, mins, before, after, t, moved)
  {
    var (s1, moved) := SideOutcome(p.methodBefore, s, mins, before, change, expand);
    if before.resized {
      SideStep(p.methodBefore, s, mins, before, if after.resized then after.items else [], change, expand);
    }
    if after.resized {
      SideStep(p.methodAfter, s1, mins, after, if before.resized then before.items else [], -moved, expand);
    }
  }

  /**
   * Moving a resizer between two disjoint sides of a consistent state keeps
   * it consistent and touches only the two sides. The resizer moves by the
   * whole change unless the side it moves into runs out of resizable space;
   * the side before the resizer gains exactly that movement in resizable
   * space and the side after loses it; the stack's size changes only by what
   * a side that is not resized did not give or take.
   */
  lemma ShiftedEffect(p: MethodPair, s: seq<real>, mins: seq<real>, before: Side, after: Side, change: real, expand: real)
    requires ShiftReady(p, s, mins, before, after)
    ensures var (t, moved) := Shifted(p, s, mins, before, after, change, expand);
            && moved == (if change > 0.0 && after.resized then Min(change, after.space)
                         else if change < 0.0 && before.resized then -Min(-change, before.space)
                         else change)
            && ShiftedWell(s, mins, before, after, t, moved)
  {
    if change > 0.0 {
      ShiftedForward(p, s, mins, before, after, change, expand);
    } else if change < 0.0 {
      ShiftedBackward(p, s, mins, before, after, change, expand);
    }
  }

  /**
   * With a cumulative table that agrees with the sizes, the two sides a
   * movement builds are disjoint, visit each of their elements once, and
   * carry their true resizable space.
   */
  lemma SidesHold(s: seq<real>, mins: seq<real>, spaces: seq<real>, index: int, flags: ResizeFlags)
    requires |s| == |mins| && 0 < |s| && -1 <= index < |s| && SpacesMatch(s, mins, spaces)
    ensures SideHolds(BeforeSide(spaces, index, flags), s, mins)
    ensures SideHolds(AfterSide(spaces, index, flags), s, mins)
    ensures Disjoint(BeforeSide(spaces, index, flags).items, AfterSide(spaces, index, flags).items)
  {
    var before := BeforeSide(spaces, index, flags);
    var after := AfterSide(spaces, index, flags);
    SliceSpaces(s, mins, index);
    assert before.resized ==> forall i :: 0 <= i < |before.items| ==> before.items[i] == index - i;
    assert after.resized ==> forall i :: 0 <= i < |after.items| ==> after.items[i] == index + 1 + i;
  }

  /**
   * A movement of a consistent stack keeps every element at or above its
   * minimum, and the stack-size change it reports is exactly how much the
   * stack grew, whenever the flags disable at most one side and every side
   * they leave enabled holds at least one element.
   */
  lemma MovementReportsStackChange(r: Resize, s: seq<real>, mins: seq<real>, amount: real, index: int, activeIndex: int,
                                   spaces: seq<real>, expand: real, flags: ResizeFlags)
    requires |s| == |mins| && 0 < |s| && -1 <= index < |s| && activeIndex < |s|
    requires AtLeastMinimums(s, mins) && SpacesMatch(s, mins, spaces)
    requires !(flags.disableResizeAfter && flags.disableResizeBefore)
    requires !flags.disableResizeBefore ==> 0 <= index
    requires !flags.disableResizeAfter ==> index < |s| - 1
    ensures var (t, reported) := r.Outcome(s, mins, amount, index, activeIndex, spaces, expand, flags);
            AtLeastMinimums(t, mins) && Sum(t) == Sum(s) + reported
  {
    var methods := GetResizeMethods(r.mode);
    if methods.Pair? {
      SidesHold(s, mins, spaces, index, flags);
      ShiftedEffect(methods.pair, s, mins, BeforeSide(spaces, index, flags), AfterSide(spaces, index, flags),
                    r.TransformedChange(amount, index, activeIndex, spaces), expand);
    }
  }

  /**
   * A flagless movement of the resizer before the first element has no side
   * before it: a positive change shrinks the elements after it, and still
   * nothing is reported.
   */
  lemma LeadingEdgeMovementReportsNothing()
    ensures var o := Resize(0, MaintainResizeAmount, ResizerMode.Default).Outcome([2.0, 2.0], [1.0, 1.0], 0.5, -1, -1, [1.0, 2.0], 0.0, NoFlags);
            o.1 == 0.0 && Sum(o.0) == Sum([2.0, 2.0]) - 0.5
  {
    var after := AfterSide([1.0, 2.0], -1, NoFlags);
    assert after.items == [0, 1] && after.space == 2.0;
    assert ClampedSize(2.0, 1.0, -0.5) == 1.5;
    assert [2.0, 2.0][0 := 1.5] == [1.5, 2.0];
    assert CascadeShrunk([2.0, 2.0], [1.0, 1.0], [0, 1], 0.5) == ([1.5, 2.0], 0.0);
    assert Sum([1.5, 2.0]) == 3.5 && Sum([2.0, 2.0]) == 4.0;
  }

  /**
   * Without flags, a movement of a resizer between two elements moves the
   * resizer itself: the elements before it gain exactly the resizable space
   * the elements after it lose, the stack keeps its size and reports no
   * change. The resizer moves by the whole transformed change unless the side
   * it moves into runs out of space, and by the whole change whenever
   * HasSpaceForResize holds.
   */
  lemma MovementMovesResizer(r: Resize, s: seq<real>, mins: seq<real>, amount: real, index: int, activeIndex: int,
                             spaces: seq<real>, expand: real)
    requires |s| == |mins| && 0 <= index < |s| - 1 && activeIndex < |s|
    requires AtLeastMinimums(s, mins) && SpacesMatch(s, mins, spaces) && r.mode != ResizerMode.None
    ensures var (t, reported) := r.Outcome(s, mins, amount, index, activeIndex, spaces, expand, NoFlags);
            var change := r.TransformedChange(amount, index, activeIndex, spaces);
            var moved := if change > 0.0 then Min(change, SpaceAfterResizer(spaces, index))
                         else if change < 0.0 then -Min(-change, SpaceBeforeResizer(spaces, index))
                         else 0.0;
            && reported == 0.0
            && AtLeastMinimums(t, mins)
            && Sum(t) == Sum(s)
            && Prefix(t, mins, index + 1) == Prefix(s, mins, index + 1) + moved
            && (r.HasSpaceForResize(amount, index, activeIndex, spaces, NoFlags) ==> moved == change)
  {
    var methods := GetResizeMethods(r.mode);
    var before := BeforeSide(spaces, index, NoFlags);
    var after := AfterSide(spaces, index, NoFlags);
    SidesHold(s, mins, spaces, index, NoFlags);
    ShiftedEffect(methods.pair, s, mins, before, after, r.TransformedChange(amount, index, activeIndex, spaces), expand);
    var t := r.Outcome(s, mins, amount, index, activeIndex, spaces, expand, NoFlags).0;
    SliceSpaces(t, mins, index);
  }

  /** A resizer without strategies, or a change that transforms to zero, changes nothing and reports nothing. */
  lemma MovementIdle(r: Resize, s: seq<real>, mins: seq<real>, amount: real, index: int, activeIndex: int,
                     spaces: seq<real>, expand: real, flags: ResizeFlags)
    requires |s| == |mins| == |spaces| && 0 < |s| && -1 <= index < |s| && activeIndex < |s|
    requires r.mode == ResizerMode.None || r.TransformedChange(amount, index, activeIndex, spaces) == 0.0
    ensures r.Outcome(s, mins, amount, index, activeIndex, spaces, expand, flags) == (s, 0.0)
  {
  }

  /**
   * Moving a resizer never pushes an element below its minimum size and
   * changes only elements of the two sides, whatever space figures the
   * sides carry.
   */
  lemma ShiftedSafe(p: MethodPair, s: seq<real>, mins: seq<real>, before: Side, after: Side, change: real, expand: real)
    requires |s| == |mins| && SideFits(before, |s|) && SideFits(after, |s|) && AtLeastMinimums(s, mins)
    ensures var (t, _) := Shifted(p, s, mins, before, after, change, expand);
            AtLeastMinimums(t, mins) && SameOutside(s, t, before.items + after.items)
  {
    var first := if change > 0.0 then after else before;
    var second := if change > 0.0 then before else after;
    if change != 0.0 {
      var m1 := if change > 0.0 then p.methodAfter else p.methodBefore;
      var m2 := if change > 0.0 then p.methodBefore else p.methodAfter;
      var (s1, applied) := SideOutcome(m1, s, mins, first, if change > 0.0 then -change else change, expand);
      if first.resized {
        StrategyIsSafe(m1, s, mins, first.items, if change > 0.0 then -change else change, first.space, expand);
      }
      var moved := if change > 0.0 then -applied else applied;
      if second.resized {
        StrategyIsSafe(m2, s1, mins, second.items, if change > 0.0 then moved else -moved, second.space, expand);
      }
    }
  }

  /** A movement never pushes an element below its minimum size, whatever the cumulative table says. */
  lemma MovementKeepsMinimums(r: Resize, s: seq<real>, mins: seq<real>, amount: real, index: int, activeIndex: int,
                              spaces: seq<real>, expand: real, flags: ResizeFlags)
    requires |s| == |mins| == |spaces| && 0 < |s| && -1 <= index < |s| && activeIndex < |s|
    requires AtLeastMinimums(s, mins)
    ensures AtLeastMinimums(r.Outcome(s, mins, amount, index, activeIndex, spaces, expand, flags).0, mins)
  {
    var methods := GetResizeMethods(r.mode);
    if methods.Pair? {
      ShiftedSafe(methods.pair, s, mins, BeforeSide(spaces, index, flags), AfterSide(spaces, index, flags),
                  r.TransformedChange(amount, index, activeIndex, spaces), expand);
    }
  }
}
