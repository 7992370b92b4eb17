// One resizer movement over a prebuilt resize summary: the same movement as
// a Resize, but the sides are the slices of enabled elements the summary
// hands out and the space figures come from the summary's cumulative entries.
module ResizerMovements {
  import opened Sizes
  import opened Harness
  import opened Flags
  import opened Transformations
  import opened ResizerModes
  import opened ElementSlices
  import opened ResizeInfos
  import opened ResizeMethods
  import opened Resizes

  // ---------------------------------------------------------------------
  // The resizable space an enumeration visits.

  /** The summary describes the sizes `s`: element k is enabled as the harness says, with size s[k] and minimum mins[k]. */
  predicate Describes(es: seq<Element>, en: seq<bool>, s: seq<real>, mins: seq<real>) {
    |es| == |en| == |s| == |mins| && forall k :: 0 <= k < |es| ==> es[k] == Element(en[k], s[k], mins[k])
  }

  lemma {:induction false} ResizableSpaceConcat(a: seq<Element>, b: seq<Element>)
    ensures ResizableSpace(a + b) == ResizableSpace(a) + ResizableSpace(b)
    decreases |b|
  {
    if b == [] {
      assert a + b == a;
    } else {
      assert (a + b)[..|a + b| - 1] == a + b[..|b| - 1];
      ResizableSpaceConcat(a, b[..|b| - 1]);
    }
  }

  lemma ResizableSpaceSplit(es: seq<Element>, lo: int, mid: int, hi: int)
    requires 0 <= lo <= mid <= hi <= |es|
    ensures ResizableSpace(es[lo..hi]) == ResizableSpace(es[lo..mid]) + ResizableSpace(es[mid..hi])
  {
    assert es[lo..hi] == es[lo..mid] + es[mid..hi];
    ResizableSpaceConcat(es[lo..mid], es[mid..hi]);
  }

  /** A run of disabled elements has no resizable space. */
  lemma {:induction false} DisabledRunHasNoSpace(xs: seq<Element>)
    requires forall k :: 0 <= k < |xs| ==> !xs[k].enabled
    ensures ResizableSpace(xs) == 0.0
  {
    if xs != [] {
      DisabledRunHasNoSpace(xs[..|xs| - 1]);
    }
  }

  lemma {:induction false} NoneEnabled(en: seq<bool>)
    requires EnabledCount(en) == 0
    ensures forall k :: 0 <= k < |en| ==> !en[k]
  {
    if en != [] {
      NoneEnabled(en[1..]);
      assert forall k :: 1 <= k < |en| ==> en[k] == en[1..][k - 1];
    }
  }

  /** A range of the summary that holds no enabled element has no resizable space. */
  lemma EmptyRangeHasNoSpace(es: seq<Element>, lo: int, hi: int)
    requires 0 <= lo <= hi <= |es| && EnabledCount(EnabledFlags(es)[lo..hi]) == 0
    ensures ResizableSpace(es[lo..hi]) == 0.0
  {
    NoneEnabled(EnabledFlags(es)[lo..hi]);
    assert forall k :: 0 <= k < hi - lo ==> es[lo..hi][k].enabled == EnabledFlags(es)[lo..hi][k];
    DisabledRunHasNoSpace(es[lo..hi]);
  }

  lemma {:induction false} SumSpacesSnoc(s: seq<real>, mins: seq<real>, w: seq<int>, j: int)
    requires |s| == |mins| && InRange(w, |s|) && 0 <= j < |s|
    ensures InRange(w + [j], |s|)
    ensures SumSpaces(s, mins, w + [j]) == SumSpaces(s, mins, w) + (s[j] - mins[j])
  {
    if w != [] {
      assert (w + [j])[1..] == w[1..] + [j];
      SumSpacesSnoc(s, mins, w[1..], j);
    }
  }

  /** The resizable space of the one element at j. */
  lemma SingleSpace(es: seq<Element>, en: seq<bool>, s: seq<real>, mins: seq<real>, j: int)
    requires Describes(es, en, s, mins) && 0 <= j < |es| && en[j]
    ensures ResizableSpace(es[j..j + 1]) == s[j] - mins[j]
  {
    assert es[j..j + 1][..0] == [];
  }

  /**
   * One step of a backward walk: it appends the nearest enabled element at or
   * below the one after the element yielded last (or `start`).
   */
  lemma BackwardWalkStep(en: seq<bool>, start: int, c: nat)
    requires -1 <= start < |en| && 0 < c && Walk(en, start, -1, c).Some?
    ensures Walk(en, start, -1, c - 1).Some?
    ensures var w := Walk(en, start, -1, c - 1).value;
            var from := if c == 1 then start else w[c - 2] - 1;
            && -1 <= from <= start && NextEnabled(en, from, -1).Some?
            && Walk(en, start, -1, c).value == w + [NextEnabled(en, from, -1).value]
  {
    WalkPrefix(en, start, -1, c - 1, c);
    WalkSound(en, start, -1, c - 1);
  }

  /**
   * One step of a forward walk: it appends the nearest enabled element at or
   * above the one after the element yielded last (or `start`).
   */
  lemma ForwardWalkStep(en: seq<bool>, start: int, c: nat)
    requires 0 <= start <= |en| && 0 < c && Walk(en, start, 1, c).Some?
    ensures Walk(en, start, 1, c - 1).Some?
    ensures var w := Walk(en, start, 1, c - 1).value;
            var from := if c == 1 then start else w[c - 2] + 1;
            && start <= from <= |en| && NextEnabled(en, from, 1).Some?
            && Walk(en, start, 1, c).value == w + [NextEnabled(en, from, 1).value]
  {
    WalkPrefix(en, start, 1, c - 1, c);
    WalkSound(en, start, 1, c - 1);
  }

  /** Walking down from `from`, every element skipped before the next enabled one is disabled. */
  lemma SkipsDisabledBelow(en: seq<bool>, from: int)
    requires -1 <= from < |en| && NextEnabled(en, from, -1).Some?
    ensures var j := NextEnabled(en, from, -1).value;
            EnabledCount(en[j + 1..from + 1]) == 0
  {
    NextEnabledBackward(en, from);
    var j := NextEnabled(en, from, -1).value;
    assert en[j..from + 1] == [en[j]] + en[j + 1..from + 1];
    EnabledCountConcat([en[j]], en[j + 1..from + 1]);
  }

  /** Walking up from `from`, every element skipped before the next enabled one is disabled. */
  lemma SkipsDisabledAbove(en: seq<bool>, from: int)
    requires 0 <= from <= |en| && NextEnabled(en, from, 1).Some?
    ensures var j := NextEnabled(en, from, 1).value;
            EnabledCount(en[from..j]) == 0
  {
    NextEnabledForward(en, from);
    var j := NextEnabled(en, from, 1).value;
    assert en[from..j + 1] == en[from..j] + [en[j]];
    EnabledCountConcat(en[from..j], [en[j]]);
  }

  /**
   * Adding the enabled element j to a backward enumeration that covers
   * `top..start`, across only disabled elements, makes it cover `j..start`.
   */
  lemma BackwardSpaceStep(es: seq<Element>, en: seq<bool>, s: seq<real>, mins: seq<real>, w: seq<int>, j: int, top: int, start: int)
    requires Describes(es, en, s, mins) && InRange(w, |s|) && 0 <= j < top <= start + 1 <= |es| && en[j]
    requires EnabledCount(en[j + 1..top]) == 0
    requires SumSpaces(s, mins, w) == ResizableSpace(es[top..start + 1])
    ensures InRange(w + [j], |s|) && SumSpaces(s, mins, w + [j]) == ResizableSpace(es[j..start + 1])
  {
    assert ResizableSpace(es[j + 1..top]) == 0.0 by {
      assert EnabledFlags(es)[j + 1..top] == en[j + 1..top];
      EmptyRangeHasNoSpace(es, j + 1, top);
    }
    SingleSpace(es, en, s, mins, j);
    SumSpacesSnoc(s, mins, w, j);
    ResizableSpaceSplit(es, j, j + 1, start + 1);
    ResizableSpaceSplit(es, j + 1, top, start + 1);
  }

  /**
   * Adding the enabled element j to a forward enumeration that covers
   * `start..bottom`, across only disabled elements, makes it cover `start..j`.
   */
  lemma ForwardSpaceStep(es: seq<Element>, en: seq<bool>, s: seq<real>, mins: seq<real>, w: seq<int>, j: int, bottom: int, start: int)
    requires Describes(es, en, s, mins) && InRange(w, |s|) && 0 <= start <= bottom <= j < |es| && en[j]
    requires EnabledCount(en[bottom..j]) == 0
    requires SumSpaces(s, mins, w) == ResizableSpace(es[start..bottom])
    ensures InRange(w + [j], |s|) && SumSpaces(s, mins, w + [j]) == ResizableSpace(es[start..j + 1])
  {
    assert ResizableSpace(es[bottom..j]) == 0.0 by {
      assert EnabledFlags(es)[bottom..j] == en[bottom..j];
      EmptyRangeHasNoSpace(es, bottom, j);
    }
    SingleSpace(es, en, s, mins, j);
    SumSpacesSnoc(s, mins, w, j);
    ResizableSpaceSplit(es, start, bottom, j + 1);
    ResizableSpaceSplit(es, bottom, j, j + 1);
  }

  /**
   * A backward walk from `start` that has yielded c elements has visited
   * exactly the resizable space from the last element it yielded up to `start`.
   */
  lemma {:induction false} BackwardWalkSpace(es: seq<Element>, en: seq<bool>, s: seq<real>, mins: seq<real>, start: int, c: nat)
    requires Describes(es, en, s, mins) && -1 <= start < |es| && 0 < c && Walk(en, start, -1, c).Some?
    ensures var w := Walk(en, start, -1, c).value;
            && InRange(w, |s|) && 0 <= w[c - 1] <= start
            && SumSpaces(s, mins, w) == ResizableSpace(es[w[c - 1]..start + 1])
  {
    BackwardWalkStep(en, start, c);
    WalkSound(en, start, -1, c - 1);
    var w := Walk(en, start, -1, c - 1).value;
    var from := if c == 1 then start else w[c - 2] - 1;
    var j := NextEnabled(en, from, -1).value;
    SkipsDisabledBelow(en, from);
    WalkSound(en, start, -1, c);
    if c > 1 {
      BackwardWalkSpace(es, en, s, mins, start, c - 1);
    } else {
      assert es[from + 1..start + 1] == [];
    }
    BackwardSpaceStep(es, en, s, mins, w, j, from + 1, start);
  }

  /**
   * A forward walk from `start` that has yielded c elements has visited
   * exactly the resizable space from `start` up to the last element it yielded.
   */
  lemma {:induction false} ForwardWalkSpace(es: seq<Element>, en: seq<bool>, s: seq<real>, mins: seq<real>, start: int, c: nat)
    requires Describes(es, en, s, mins) && 0 <= start <= |es| && 0 < c && Walk(en, start, 1, c).Some?
    ensures var w := Walk(en, start, 1, c).value;
            && InRange(w, |s|) && start <= w[c - 1] < |es|
            && SumSpaces(s, mins, w) == ResizableSpace(es[start..w[c - 1] + 1])
  {
    ForwardWalkStep(en, start, c);
    WalkSound(en, start, 1, c - 1);
    var w := Walk(en, start, 1, c - 1).value;
    var from := if c == 1 then start else w[c - 2] + 1;
    var j := NextEnabled(en, from, 1).value;
    SkipsDisabledAbove(en, from);
    WalkSound(en, start, 1, c);
    if c > 1 {
      ForwardWalkSpace(es, en, s, mins, start, c - 1);
    } else {
      assert es[start..from] == [];
    }
    ForwardSpaceStep(es, en, s, mins, w, j, from, start);
    var ww := Walk(en, start, 1, c).value;
    assert ww[c - 1] == j by {
      assert ww == w + [j] && |w| == c - 1;
    }
    assert SumSpaces(s, mins, ww) == ResizableSpace(es[start..j + 1]);
  }

  lemma DescribedFlags(es: seq<Element>, en: seq<bool>, s: seq<real>, mins: seq<real>)
    requires Describes(es, en, s, mins)
    ensures EnabledFlags(es) == en
  {
  }

  /** Below the last element a complete backward walk yields, nothing is enabled and no space is left. */
  lemma SpaceBelowLast(es: seq<Element>, en: seq<bool>, last: int, start: int)
    requires |es| == |en| && EnabledFlags(es) == en && 0 <= last <= start < |en|
    requires EnabledCount(en[last..start + 1]) == EnabledCount(en[..start + 1])
    ensures ResizableSpace(es[..start + 1]) == ResizableSpace(es[last..start + 1])
  {
    EnabledCountSplit(en, 0, last, start + 1);
    assert en[0..start + 1] == en[..start + 1];
    EmptyRangeHasNoSpace(es, 0, last);
    ResizableSpaceSplit(es, 0, last, start + 1);
    assert es[0..start + 1] == es[..start + 1];
  }

  /** Above the last element a complete forward walk yields, nothing is enabled and no space is left. */
  lemma SpaceAboveLast(es: seq<Element>, en: seq<bool>, start: int, last: int)
    requires |es| == |en| && EnabledFlags(es) == en && 0 <= start <= last < |en|
    requires EnabledCount(en[start..last + 1]) == EnabledCount(en[start..])
    ensures ResizableSpace(es[start..]) == ResizableSpace(es[start..last + 1])
  {
    EnabledCountSplit(en, start, last + 1, |en|);
    assert en[start..|en|] == en[start..];
    EmptyRangeHasNoSpace(es, last + 1, |es|);
    ResizableSpaceSplit(es, start, last + 1, |es|);
    assert es[start..|es|] == es[start..];
  }

  /** Walking backwards over every enabled element from `start` down visits all their resizable space. */
  lemma FullBackwardWalkSpace(es: seq<Element>, en: seq<bool>, s: seq<real>, mins: seq<real>, start: int)
    requires Describes(es, en, s, mins) && -1 <= start < |es|
    ensures Walk(en, start, -1, EnabledCount(en[..start + 1])).Some?
    ensures var w := Walk(en, start, -1, EnabledCount(en[..start + 1])).value;
            InRange(w, |s|) && SumSpaces(s, mins, w) == ResizableSpace(es[..start + 1])
  {
    var c := EnabledCount(en[..start + 1]);
    WalkBackward(en, start, c);
    WalkSound(en, start, -1, c);
    DescribedFlags(es, en, s, mins);
    if c == 0 {
      assert en[0..start + 1] == en[..start + 1] && es[0..start + 1] == es[..start + 1];
      EmptyRangeHasNoSpace(es, 0, start + 1);
    } else {
      BackwardWalkSpace(es, en, s, mins, start, c);
      SpaceBelowLast(es, en, Walk(en, start, -1, c).value[c - 1], start);
    }
  }

  /** Walking forwards over every enabled element from `start` on visits all their resizable space. */
  lemma FullForwardWalkSpace(es: seq<Element>, en: seq<bool>, s: seq<real>, mins: seq<real>, start: int)
    requires Describes(es, en, s, mins) && 0 <= start <= |es|
    ensures Walk(en, start, 1, EnabledCount(en[start..])).Some?
    ensures var w := Walk(en, start, 1, EnabledCount(en[start..])).value;
            InRange(w, |s|) && SumSpaces(s, mins, w) == ResizableSpace(es[start..])
  {
    var c := EnabledCount(en[start..]);
    WalkForward(en, start, c);
    WalkSound(en, start, 1, c);
    DescribedFlags(es, en, s, mins);
    if c == 0 {
      assert en[start..|en|] == en[start..] && es[start..|es|] == es[start..];
      EmptyRangeHasNoSpace(es, start, |es|);
    } else {
      ForwardWalkSpace(es, en, s, mins, start, c);
      SpaceAboveLast(es, en, start, Walk(en, start, 1, c).value[c - 1]);
    }
  }

  // ---------------------------------------------------------------------
  // The movement.

  /** A complete summary of the harness's whole stack, with the active resizer inside the stack. */
  ghost predicate Ready(info: ResizeInfo)
    reads info, info.infos, info.harness
  {
    && info.Built() && 0 < info.count && info.count == info.harness.sizes.Length
    && EnabledFlags(info.elements) == info.harness.enabled
    && info.activeResizerIndex < info.count
  }

  /** The elements before the resizer at `index`, as its slice enumerates them; resized only when there is one. */
  function BeforeSideOf(info: ResizeInfo, index: int): (side: Side)
    reads info, info.infos, info.harness
    requires Ready(info) && -1 <= index < info.count
    ensures SideFits(side, info.count)
    ensures side.resized <==> side.items != [] && ResizeBeforeIndex(index, info.flags)
    ensures side.space == info.SpaceBeforeResizer(index)
    ensures InRange(side.items, info.count) && forall i :: 0 <= i < |side.items| ==> info.harness.enabled[side.items[i]]
  {
    var slice := info.GetElementsBefore(index);
    ElementsBeforeYieldEnabled(info, index);
    WalkSound(info.harness.enabled, slice.startingIndex, slice.Step(), slice.Yields());
    var items := Walk(info.harness.enabled, slice.startingIndex, slice.Step(), slice.Yields()).value;
    Side(items != [] && ResizeBeforeIndex(index, info.flags), items, info.SpaceBeforeResizer(index))
  }

  /** The elements after the resizer at `index`, as its slice enumerates them; resized only when there is one. */
  function AfterSideOf(info: ResizeInfo, index: int): (side: Side)
    reads info, info.infos, info.harness
    requires Ready(info) && -1 <= index < info.count
    ensures SideFits(side, info.count)
    ensures side.resized <==> side.items != [] && ResizeAfterIndex(index, info.count, info.flags)
    ensures side.space == info.SpaceAfterResizer(index)
    ensures InRange(side.items, info.count) && forall i :: 0 <= i < |side.items| ==> info.harness.enabled[side.items[i]]
  {
    var slice := info.GetElementsAfter(index);
    ElementsAfterYieldEnabled(info, index);
    WalkSound(info.harness.enabled, slice.startingIndex, slice.Step(), slice.Yields());
    var items := Walk(info.harness.enabled, slice.startingIndex, slice.Step(), slice.Yields()).value;
    Side(items != [] && ResizeAfterIndex(index, info.count, info.flags), items, info.SpaceAfterResizer(index))
  }

  /** Enumerates the slice before the resizer at `index` into the side `BeforeSideOf` describes. */
  method EnumerateBefore(info: ResizeInfo, index: int) returns (side: Side)
    requires Ready(info) && -1 <= index < info.count
    ensures side == BeforeSideOf(info, index)
  {
    ElementsBeforeYieldEnabled(info, index);
    var items, _ := Enumerate(info.GetElementsBefore(index), info.harness.enabled);
    side := Side(items != [] && ResizeBeforeIndex(index, info.flags), items, info.SpaceBeforeResizer(index));
  }

  /** Enumerates the slice after the resizer at `index` into the side `AfterSideOf` describes. */
  method EnumerateAfter(info: ResizeInfo, index: int) returns (side: Side)
    requires Ready(info) && -1 <= index < info.count
    ensures side == AfterSideOf(info, index)
  {
    ElementsAfterYieldEnabled(info, index);
    var items, _ := Enumerate(info.GetElementsAfter(index), info.harness.enabled);
    side := Side(items != [] && ResizeAfterIndex(index, info.count, info.flags), items, info.SpaceAfterResizer(index));
  }

  /** A movement of the resizer `indexOffset` places from the active one, read from a summary. */
  datatype ResizerMovement = ResizerMovement(indexOffset: int, transformation: ResizeAmountTransformation, mode: ResizerMode) {

    /** The active resizer's requested change, transformed for the resizer at `index`. */
    function TransformResize(info: ResizeInfo, index: int): (r: real)
      reads info, info.infos, info.harness
      requires Ready(info) && -1 <= index < info.count
      ensures transformation == MaintainResizeAmount ==> r == info.activeResizerRequestedChange
      ensures transformation == NegateResizeAmount ==> r == -info.activeResizerRequestedChange
      ensures info.activeResizerRequestedChange == 0.0 ==> r == 0.0
    {
      Apply(transformation, info.activeResizerRequestedChange, info.SpaceBeforeResizer(info.activeResizerIndex),
            info.SpaceBeforeResizer(index), info.TotalResizeSpace())
    }

    /**
     * Whether the side the resizer moves into has strictly more resizable
     * space than the move needs (or is not resized at all), measured on the
     * summarised elements.
     */
    function HasSpaceForResize(info: ResizeInfo, index: int): (r: bool)
      reads info, info.infos, info.harness
      requires Ready(info) && -1 <= index < info.count
      ensures var change := TransformResize(info, index);
              var before := ResizableSpace(info.elements[..index + 1]);
              r <==> if change > 0.0 then !ResizeAfterIndex(index, info.count, info.flags)
                                          || ResizableSpace(info.elements) - before > change
                     else !ResizeBeforeIndex(index, info.flags) || before > -change
    {
      assert index < 0 ==> info.elements[..index + 1] == info.elements[..0];
      var desiredResizerPositionChange := TransformResize(info, index);
      if desiredResizerPositionChange > 0.0 then
        !ResizeAfterIndex(index, info.count, info.flags) || info.SpaceAfterResizer(index) > desiredResizerPositionChange
      else
        !ResizeBeforeIndex(index, info.flags) || info.SpaceBeforeResizer(index) > -desiredResizerPositionChange
    }

    /** The sizes after the movement, starting from `s`, and the stack-size change it reports. */
    function Outcome(info: ResizeInfo, s: seq<real>, index: int): (r: (seq<real>, real))
      reads info, info.infos, info.harness
      requires Ready(info) && |s| == info.count && -1 <= index < info.count
      ensures |r.0| == |s|
    {
      match GetResizeMethods(mode)
      case NoPair => (s, 0.0)
      case Pair(p) =>
        var shifted := Shifted(p, s, info.harness.minimums, BeforeSideOf(info, index), AfterSideOf(info, index),
                               TransformResize(info, index), 0.0);
        (shifted.0, StackChange(shifted.1, info.flags))
    }

    /** The movement itself, on the harness's sizes. */
    method Execute(info: ResizeInfo, index: int) returns (stackChange: real)
      requires Ready(info) && -1 <= index < info.count
      modifies info.harness.sizes
      ensures (info.harness.sizes[..], stackChange) == old(Outcome(info, info.harness.sizes[..], index))
    {
      var methods := GetResizeMethods(mode);
      if methods.NoPair? {
        return 0.0;
      }
      stackChange := ExecutePair(info, index, methods.pair);
    }

    /** The movement for a mode that has a pair of strategies: enumerate both sides, then shift the resizer. */
    method ExecutePair(info: ResizeInfo, index: int, p: MethodPair) returns (stackChange: real)
      requires Ready(info) && -1 <= index < info.count && GetResizeMethods(mode) == Pair(p)
      modifies info.harness.sizes
      ensures (info.harness.sizes[..], stackChange) == old(Outcome(info, info.harness.sizes[..], index))
    {
      var resizerPositionChange := TransformResize(info, index);
      var before := EnumerateBefore(info, index);
      var after := EnumerateAfter(info, index);
      var moved := Shift(info.harness, p, before, after, resizerPositionChange, 0.0);
      stackChange := StackChange(moved, info.flags);
    }
  }

  // ---------------------------------------------------------------------
  // What a movement guarantees.

  /**
   * A movement never pushes an element below its minimum size and never
   * touches a disabled element, however stale the summary is.
   */
  lemma MovementKeepsMinimums(m: ResizerMovement, info: ResizeInfo, s: seq<real>, index: int)
    requires Ready(info) && |s| == info.count && -1 <= index < info.count
    requires AtLeastMinimums(s, info.harness.minimums)
    ensures var t := m.Outcome(info, s, index).0;
            && AtLeastMinimums(t, info.harness.minimums)
            && forall k :: 0 <= k < |s| && !info.harness.enabled[k] ==> t[k] == s[k]
  {
    var methods := GetResizeMethods(m.mode);
    if methods.Pair? {
      var before := BeforeSideOf(info, index);
      var after := AfterSideOf(info, index);
      ShiftedSafe(methods.pair, s, info.harness.minimums, before, after, m.TransformResize(info, index), 0.0);
      var t := m.Outcome(info, s, index).0;
      forall k | 0 <= k < |s| && !info.harness.enabled[k]
        ensures t[k] == s[k]
      {
        assert k !in before.items + after.items;
      }
    }
  }

  /** With a summary of the current sizes, the side before a resizer carries the true resizable space of its elements. */
  lemma BeforeSideHolds(info: ResizeInfo, s: seq<real>, index: int)
    requires Ready(info) && -1 <= index < info.count
    requires Describes(info.elements, info.harness.enabled, s, info.harness.minimums)
    ensures SideHolds(BeforeSideOf(info, index), s, info.harness.minimums)
    ensures forall i :: 0 <= i < |BeforeSideOf(info, index).items| ==> BeforeSideOf(info, index).items[i] <= index
  {
    var es := info.elements;
    var en := info.harness.enabled;
    ElementsBeforeYieldEnabled(info, index);
    WalkSound(en, index, -1, info.GetElementsBefore(index).Yields());
    FullBackwardWalkSpace(es, en, s, info.harness.minimums, index);
    assert index < 0 ==> es[..index + 1] == es[..0];
  }

  /** Whatever sizes `t` a summary `es` describes, the side before a resizer visits elements holding all of its space before the resizer. */
  lemma BeforeSideSpans(info: ResizeInfo, index: int, t: seq<real>, es: seq<Element>)
    requires Ready(info) && -1 <= index < info.count
    requires Describes(es, info.harness.enabled, t, info.harness.minimums)
    ensures InRange(BeforeSideOf(info, index).items, |t|)
    ensures SumSpaces(t, info.harness.minimums, BeforeSideOf(info, index).items) == ResizableSpace(es[..index + 1])
  {
    ElementsBeforeYieldEnabled(info, index);
    FullBackwardWalkSpace(es, info.harness.enabled, t, info.harness.minimums, index);
  }

  /** Whatever sizes `t` a summary `es` describes, the side after a resizer visits elements holding all of its space after the resizer. */
  lemma AfterSideSpans(info: ResizeInfo, index: int, t: seq<real>, es: seq<Element>)
    requires Ready(info) && -1 <= index < info.count
    requires Describes(es, info.harness.enabled, t, info.harness.minimums)
    ensures InRange(AfterSideOf(info, index).items, |t|)
    ensures SumSpaces(t, info.harness.minimums, AfterSideOf(info, index).items) == ResizableSpace(es[index + 1..])
  {
    ElementsAfterYieldEnabled(info, index);
    FullForwardWalkSpace(es, info.harness.enabled, t, info.harness.minimums, index + 1);
  }

  /** With a summary of the current sizes, the side after a resizer carries the true resizable space of its elements. */
  lemma AfterSideHolds(info: ResizeInfo, s: seq<real>, index: int)
    requires Ready(info) && -1 <= index < info.count
    requires Describes(info.elements, info.harness.enabled, s, info.harness.minimums)
    ensures SideHolds(AfterSideOf(info, index), s, info.harness.minimums)
    ensures forall i :: 0 <= i < |AfterSideOf(info, index).items| ==> index < AfterSideOf(info, index).items[i]
  {
    var es := info.elements;
    var en := info.harness.enabled;
    ElementsAfterYieldEnabled(info, index);
    WalkSound(en, index + 1, 1, info.GetElementsAfter(index).Yields());
    FullForwardWalkSpace(es, en, s, info.harness.minimums, index + 1);
    SpaceAfterSplit(es, index);
  }

  /** The resizable space after position `index` is the total less the space up to it. */
  lemma SpaceAfterSplit(es: seq<Element>, index: int)
    requires -1 <= index < |es|
    ensures ResizableSpace(es) - ResizableSpace(es[..index + 1]) == ResizableSpace(es[index + 1..])
  {
    assert index < 0 ==> es[..index + 1] == es[..0];
    ResizableSpaceSplit(es, 0, index + 1, |es|);
    assert es[0..index + 1] == es[..index + 1] && es[index + 1..|es|] == es[index + 1..] && es[0..|es|] == es;
  }

  /**
   * With a summary that describes the current sizes, the two sides a
   * movement enumerates are disjoint, visit each element once, and carry the
   * true resizable space of the elements they visit.
   */
  lemma SidesOfHold(info: ResizeInfo, s: seq<real>, index: int)
    requires Ready(info) && -1 <= index < info.count
    requires Describes(info.elements, info.harness.enabled, s, info.harness.minimums)
    ensures SideHolds(BeforeSideOf(info, index), s, info.harness.minimums)
    ensures SideHolds(AfterSideOf(info, index), s, info.harness.minimums)
    ensures Disjoint(BeforeSideOf(info, index).items, AfterSideOf(info, index).items)
  {
    BeforeSideHolds(info, s, index);
    AfterSideHolds(info, s, index);
  }

  /**
   * A movement over a summary of the current sizes changes the stack's size
   * by exactly what it reports, whenever the flags disable at most one side
   * and every side they leave enabled holds an enabled element; without flags
   * the resizer itself moves, the elements before it gaining exactly the
   * space the elements after it lose, and it moves by the whole transformed
   * change whenever HasSpaceForResize holds.
   */
  lemma MovementReportsStackChange(m: ResizerMovement, info: ResizeInfo, s: seq<real>, index: int)
    requires Ready(info) && -1 <= index < info.count
    requires Describes(info.elements, info.harness.enabled, s, info.harness.minimums)
    requires AtLeastMinimums(s, info.harness.minimums)
    requires !(info.flags.disableResizeAfter && info.flags.disableResizeBefore)
    requires ResizeBeforeIndex(index, info.flags) ==> EnabledCount(info.harness.enabled[..index + 1]) > 0
    requires ResizeAfterIndex(index, info.count, info.flags) ==> EnabledCount(info.harness.enabled[index + 1..]) > 0
    requires !info.flags.disableResizeBefore ==> ResizeBeforeIndex(index, info.flags)
    requires !info.flags.disableResizeAfter ==> ResizeAfterIndex(index, info.count, info.flags)
    ensures var (t, reported) := m.Outcome(info, s, index);
            && AtLeastMinimums(t, info.harness.minimums)
            && Sum(t) == Sum(s) + reported
  {
    var methods := GetResizeMethods(m.mode);
    if methods.Pair? {
      ElementsBeforeYieldEnabled(info, index);
      ElementsAfterYieldEnabled(info, index);
      SidesOfHold(info, s, index);
      ShiftedEffect(methods.pair, s, info.harness.minimums, BeforeSideOf(info, index), AfterSideOf(info, index),
                    m.TransformResize(info, index), 0.0);
    }
  }

  /** How far a resizer moves for a requested change: the change, cut to the space of the side it moves into. */
  function ResizerShift(change: real, spaceBefore: real, spaceAfter: real): real {
    if change > 0.0 then Min(change, spaceAfter)
    else if change < 0.0 then -Min(-change, spaceBefore)
    else 0.0
  }

  /**
   * Without flags, and with an enabled element on each side, a movement over
   * a summary of the current sizes moves the resizer: the stack keeps its
   * size and no change is reported, and a summary `es` of the new sizes
   * shows the space before the resizer grown, and the space after it shrunk,
   * by the transformed change, cut to the space of the side the resizer
   * moves into; by the whole change whenever HasSpaceForResize holds.
   */
  lemma MovementMovesResizer(m: ResizerMovement, info: ResizeInfo, s: seq<real>, index: int, es: seq<Element>)
    requires Ready(info) && 0 <= index < info.count - 1 && m.mode != ResizerMode.None && info.flags == NoFlags
    requires Describes(info.elements, info.harness.enabled, s, info.harness.minimums)
    requires AtLeastMinimums(s, info.harness.minimums)
    requires EnabledCount(info.harness.enabled[..index + 1]) > 0 && EnabledCount(info.harness.enabled[index + 1..]) > 0
    requires Describes(es, info.harness.enabled, m.Outcome(info, s, index).0, info.harness.minimums)
    ensures var (t, reported) := m.Outcome(info, s, index);
            var change := m.TransformResize(info, index);
            var moved := ResizerShift(change, info.SpaceBeforeResizer(index), info.SpaceAfterResizer(index));
            && reported == 0.0
            && AtLeastMinimums(t, info.harness.minimums)
            && Sum(t) == Sum(s)
            && ResizableSpace(es[..index + 1]) == ResizableSpace(info.elements[..index + 1]) + moved
            && ResizableSpace(es[index + 1..]) == ResizableSpace(info.elements[index + 1..]) - moved
            && (m.HasSpaceForResize(info, index) ==> moved == change)
  {
    var t := m.Outcome(info, s, index).0;
    MovedSides(m, info, s, index);
    BeforeSideSpans(info, index, t, es);
    AfterSideSpans(info, index, t, es);
    SpaceAfterSplit(info.elements, index);
  }

  /** A side holding an enabled element is never empty. */
  lemma SidesOccupied(info: ResizeInfo, index: int)
    requires Ready(info) && -1 <= index < info.count
    ensures EnabledCount(info.harness.enabled[..index + 1]) > 0 ==> BeforeSideOf(info, index).items != []
    ensures EnabledCount(info.harness.enabled[index + 1..]) > 0 ==> AfterSideOf(info, index).items != []
  {
    ElementsBeforeYieldEnabled(info, index);
    ElementsAfterYieldEnabled(info, index);
    WalkSound(info.harness.enabled, index, -1, EnabledCount(info.harness.enabled[..index + 1]));
    WalkSound(info.harness.enabled, index + 1, 1, EnabledCount(info.harness.enabled[index + 1..]));
  }

  /** A movement without flags, with an enabled element on each side: how the two sides' resizable space changes. */
  lemma MovedSides(m: ResizerMovement, info: ResizeInfo, s: seq<real>, index: int)
    requires Ready(info) && -1 <= index < info.count && m.mode != ResizerMode.None && info.flags == NoFlags
    requires Describes(info.elements, info.harness.enabled, s, info.harness.minimums)
    requires AtLeastMinimums(s, info.harness.minimums)
    requires EnabledCount(info.harness.enabled[..index + 1]) > 0 && EnabledCount(info.harness.enabled[index + 1..]) > 0
    ensures var before := BeforeSideOf(info, index);
            var after := AfterSideOf(info, index);
            var (t, reported) := m.Outcome(info, s, index);
            var moved := ResizerShift(m.TransformResize(info, index), before.space, after.space);
            && reported == 0.0
            && AtLeastMinimums(t, info.harness.minimums)
            && Sum(t) == Sum(s)
            && SumSpaces(t, info.harness.minimums, before.items) == before.space + moved
            && SumSpaces(t, info.harness.minimums, after.items) == after.space - moved
  {
    var methods := GetResizeMethods(m.mode);
    SidesOccupied(info, index);
    SidesOfHold(info, s, index);
    ShiftedEffect(methods.pair, s, info.harness.minimums, BeforeSideOf(info, index), AfterSideOf(info, index),
                  m.TransformResize(info, index), 0.0);
  }

  /**
   * A summary with no requested change fails `IsValid`, and every movement
   * read from it changes nothing and reports nothing.
   */
  lemma UnrequestedMovementIsIdle(m: ResizerMovement, info: ResizeInfo, s: seq<real>, index: int)
    requires Ready(info) && |s| == info.count && -1 <= index < info.count
    requires info.activeResizerRequestedChange == 0.0
    ensures !info.IsValid()
    ensures m.Outcome(info, s, index) == (s, 0.0)
  {
    MovementIdle(m, info, s, index);
  }

  /** A movement whose mode does nothing, or whose transformed change is zero, leaves the sizes alone and reports nothing. */
  lemma MovementIdle(m: ResizerMovement, info: ResizeInfo, s: seq<real>, index: int)
    requires Ready(info) && |s| == info.count && -1 <= index < info.count
    requires m.mode == ResizerMode.None || m.TransformResize(info, index) == 0.0
    ensures m.Outcome(info, s, index) == (s, 0.0)
  {
  }
}
