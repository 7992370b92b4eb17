// Resize gestures: what dragging a resizer does for each zone and keyboard
// modifier. A gesture is a list of resizer movements, each relative to the
// active resizer, and the flags it may pass on to them; the nine gestures are
// registered in a table keyed by zone and modifier.
module ResizeGestures {
  import opened Sizes
  import opened Harness
  import opened Flags
  import opened Transformations
  import opened ResizerModes
  import opened Resizes

  datatype GestureKey = GestureKey(mode: ResizerMode, modifier: ResizerModifier)

  datatype ResizeGesture = ResizeGesture(resizes: seq<Resize>, mode: ResizerMode, modifier: ResizerModifier, flags: ResizeFlags) {
    function Key(): GestureKey {
      GestureKey(mode, modifier)
    }
  }

  const DisableAfterOnly := ResizeFlags(true, false, false)
  const DisableBeforeOnly := ResizeFlags(false, true, false)
  const DisableBoth := ResizeFlags(true, true, false)

  /** The gesture looked up for an unknown zone: it moves nothing. */
  const EmptyGesture := ResizeGesture([], ResizerMode.None, ResizerModifier.None, NoFlags)

  /** The nine gestures, one per zone other than None and per modifier. */
  function AllGestures(): (r: seq<ResizeGesture>)
    ensures |r| == 9
  {
    [
      ResizeGesture([Resize(0, MaintainResizeAmount, Default)], Default, ResizerModifier.None, DisableBoth),
      ResizeGesture([Resize(-1, MaintainResizeAmount, Default), Resize(0, MaintainResizeAmount, Default)],
                    Default, Move, NoFlags),
      ResizeGesture([Resize(-1, NegateResizeAmount, Default), Resize(0, MaintainResizeAmount, Default)],
                    Default, ShrinkGrow, NoFlags),
      ResizeGesture([Resize(0, MaintainResizeAmount, ArrowBefore)], ArrowBefore, ResizerModifier.None, DisableAfterOnly),
      ResizeGesture([Resize(0, MaintainResizeAmount, ArrowBefore), Resize(1, MaintainResizeAmount, ArrowAfter)],
                    ArrowBefore, Move, NoFlags),
      ResizeGesture([Resize(0, MaintainResizeAmount, ArrowBefore), Resize(1, NegatedScaleBySpaceAfter, ArrowAfter)],
                    ArrowBefore, ShrinkGrow, NoFlags),
      ResizeGesture([Resize(0, MaintainResizeAmount, ArrowAfter)], ArrowAfter, ResizerModifier.None, DisableBeforeOnly),
      ResizeGesture([Resize(-1, MaintainResizeAmount, ArrowBefore), Resize(0, MaintainResizeAmount, ArrowAfter)],
                    ArrowAfter, Move, NoFlags),
      ResizeGesture([Resize(-1, NegatedScaleBySpaceBefore, ArrowBefore), Resize(0, MaintainResizeAmount, ArrowAfter)],
                    ArrowAfter, ShrinkGrow, NoFlags)
    ]
  }

  /** No two of the gestures share a key. */
  predicate KeysDistinct(gs: seq<ResizeGesture>) {
    forall i, j :: 0 <= i < j < |gs| ==> gs[i].Key() != gs[j].Key()
  }

  /**
   * The table the gestures are registered into, one after another; None when
   * a key is registered twice (the registration throws).
   */
  function Registered(gs: seq<ResizeGesture>): (r: Option<map<GestureKey, ResizeGesture>>)
    ensures r.Some? <==> KeysDistinct(gs)
    ensures r.Some? ==> forall g :: g in gs ==> g.Key() in r.value && r.value[g.Key()] == g
    ensures r.Some? ==> forall k :: k in r.value ==> exists g :: g in gs && g.Key() == k
  {
    if gs == [] then Some(map[])
    else
      var last := gs[|gs| - 1];
      var init := gs[..|gs| - 1];
      assert gs == init + [last];
      match Registered(init)
      case None => Option.None
      case Some(table) =>
        if last.Key() in table then Option.None
        else Some(table[last.Key() := last])
  }

  /** The registration loop run once for the whole gesture list. */
  method RegisterGestures(gs: seq<ResizeGesture>) returns (table: map<GestureKey, ResizeGesture>, ok: bool)
    ensures ok <==> Registered(gs).Some?
    ensures ok ==> Registered(gs) == Some(table)
  {
    table := map[];
    var i := 0;
    while i < |gs|
      invariant 0 <= i <= |gs|
      invariant Registered(gs[..i]) == Some(table)
    {
      assert gs[..i + 1][..i] == gs[..i];
      if gs[i].Key() in table {
        var g :| g in gs[..i] && g.Key() == gs[i].Key();
        var j :| 0 <= j < i && gs[..i][j] == g;
        assert gs[..i + 1][j].Key() == gs[..i + 1][i].Key();
        RegistrationFailureIsFinal(gs, i + 1);
        return table, false;
      }
      table := table[gs[i].Key() := gs[i]];
      i := i + 1;
    }
    assert gs[..i] == gs;
    return table, true;
  }

  /** Once a prefix of the list fails to register, so does the whole list. */
  lemma RegistrationFailureIsFinal(gs: seq<ResizeGesture>, n: int)
    requires 0 <= n <= |gs| && !KeysDistinct(gs[..n])
    ensures Registered(gs).None?
  {
    var i, j :| 0 <= i < j < n && gs[..n][i].Key() == gs[..n][j].Key();
    assert gs[i].Key() == gs[j].Key();
  }

  /** The position a key takes in the table of gestures: three modifiers per zone. */
  function KeyIndex(key: GestureKey): int {
    3 * (if key.mode == Default then 0 else if key.mode == ArrowBefore then 1 else if key.mode == ArrowAfter then 2 else 3)
    + (if key.modifier == ResizerModifier.None then 0 else if key.modifier == Move then 1 else 2)
  }

  /** The gesture at position i of the list is registered under the key of position i. */
  lemma GestureAtItsIndex(i: int)
    requires 0 <= i < 9
    ensures KeyIndex(AllGestures()[i].Key()) == i && AllGestures()[i].mode != ResizerMode.None
  {
    var g := AllGestures()[i];
    if i == 0 { assert g.Key() == GestureKey(Default, ResizerModifier.None); }
    else if i == 1 { assert g.Key() == GestureKey(Default, Move); }
    else if i == 2 { assert g.Key() == GestureKey(Default, ShrinkGrow); }
    else if i == 3 { assert g.Key() == GestureKey(ArrowBefore, ResizerModifier.None); }
    else if i == 4 { assert g.Key() == GestureKey(ArrowBefore, Move); }
    else if i == 5 { assert g.Key() == GestureKey(ArrowBefore, ShrinkGrow); }
    else if i == 6 { assert g.Key() == GestureKey(ArrowAfter, ResizerModifier.None); }
    else if i == 7 { assert g.Key() == GestureKey(ArrowAfter, Move); }
    else { assert g.Key() == GestureKey(ArrowAfter, ShrinkGrow); }
  }

  /** Every gesture has its own key. */
  lemma AllGesturesKeysDistinct()
    ensures KeysDistinct(AllGestures())
  {
    var gs := AllGestures();
    forall i, j | 0 <= i < j < |gs|
      ensures gs[i].Key() != gs[j].Key()
    {
      GestureAtItsIndex(i);
      GestureAtItsIndex(j);
    }
  }

  /** Registering the nine gestures succeeds and yields a table keyed by every zone other than None, with every modifier. */
  lemma GestureTableComplete()
    ensures Registered(AllGestures()).Some?
    ensures var table := Registered(AllGestures()).value;
            && (forall key :: key in table <==> key.mode != ResizerMode.None)
            && (forall key :: key in table ==> table[key].Key() == key && table[key] in AllGestures())
  {
    var gs := AllGestures();
    AllGesturesKeysDistinct();
    var table := Registered(gs).value;
    forall key: GestureKey | key.mode != ResizerMode.None
      ensures key in table
    {
      var k := KeyIndex(key);
      GestureAtItsIndex(k);
      assert gs[k].Key() == key;
      assert gs[k] in gs;
    }
    forall key | key in table
      ensures key.mode != ResizerMode.None
    {
      var g :| g in gs && g.Key() == key;
      var k :| 0 <= k < |gs| && gs[k] == g;
      GestureAtItsIndex(k);
    }
  }

  /** The registered table. */
  function GestureDictionary(): (table: map<GestureKey, ResizeGesture>)
    ensures forall key :: key in table <==> key.mode != ResizerMode.None
    ensures forall key :: key in table ==> table[key].Key() == key && table[key] in AllGestures()
  {
    GestureTableComplete();
    Registered(AllGestures()).value
  }

  /** The gesture for a zone and modifier, either of which may be missing. */
  function TryGetGesture(mode: Option<ResizerMode>, modifier: Option<ResizerModifier>): (r: Option<ResizeGesture>)
    ensures var key := GestureKey(if mode.Some? then mode.value else ResizerMode.None,
                                  if modifier.Some? then modifier.value else ResizerModifier.None);
            && (r.Some? <==> key.mode != ResizerMode.None)
            && (r.Some? ==> r.value.Key() == key && r.value in AllGestures())
  {
    var key := GestureKey(if mode.Some? then mode.value else ResizerMode.None,
                          if modifier.Some? then modifier.value else ResizerModifier.None);
    var table := GestureDictionary();
    if key in table then Some(table[key]) else Option.None
  }

  /** The gesture for a zone and modifier, or the empty gesture when there is none. */
  function GetGesture(mode: Option<ResizerMode>, modifier: Option<ResizerModifier>): (r: ResizeGesture)
    ensures r == EmptyGesture || r in AllGestures()
    ensures r.mode == if mode.Some? then mode.value else ResizerMode.None
    ensures r.mode != ResizerMode.None ==> r.modifier == if modifier.Some? then modifier.value else ResizerModifier.None
    ensures r.mode == ResizerMode.None ==> r.resizes == [] && r.flags == NoFlags
  {
    match TryGetGesture(mode, modifier)
    case Some(gesture) => gesture
    case None => EmptyGesture
  }

  /** A movement paired with the index of the resizer it moves. */
  datatype Step = Step(index: int, resize: Resize)

  /** The movements of `resizes` whose resizer exists in a list of `count` elements, in order. */
  function AccessibleResizes(resizes: seq<Resize>, count: int, index: int): (r: seq<Step>)
    ensures |r| <= |resizes| && StepsFit(r, count)
    ensures forall st :: st in r <==> st.resize in resizes && st.index == index + st.resize.indexOffset && -1 <= st.index < count
  {
    if resizes == [] then []
    else
      var indexOfCurrentResize := index + resizes[0].indexOffset;
      var rest := AccessibleResizes(resizes[1..], count, index);
      assert forall x :: x in resizes <==> x == resizes[0] || x in resizes[1..];
      if indexOfCurrentResize < -1 || indexOfCurrentResize >= count then rest
      else [Step(indexOfCurrentResize, resizes[0])] + rest
  }

  predicate StepsFit(steps: seq<Step>, n: int) {
    forall i :: 0 <= i < |steps| ==> -1 <= steps[i].index < n
  }

  /**
   * Running movements one after another on the same cumulative table: the
   * final sizes and the sum of the stack-size changes they report, added to
   * `reported`.
   */
  function Executed(steps: seq<Step>, s: seq<real>, mins: seq<real>, amount: real, activeIndex: int,
                    spaces: seq<real>, expand: real, flags: ResizeFlags, reported: real): (r: (seq<real>, real))
    requires |s| == |mins| == |spaces| && StepsFit(steps, |s|)
    requires steps != [] ==> 0 < |s| && activeIndex < |s|
    ensures |r.0| == |s|
  {
    if steps == [] then (s, reported)
    else
      var (t, change) := steps[0].resize.Outcome(s, mins, amount, steps[0].index, activeIndex, spaces, expand, flags);
      Executed(steps[1..], t, mins, amount, activeIndex, spaces, expand, flags, reported + change)
  }

  /**
   * A drag of the active resizer by `resizeAmount`: every accessible movement
   * of the gesture runs in turn under the gesture's flags restricted to the
   * stack's, and the stack-size changes they report are summed.
   */
  method Execute(gesture: ResizeGesture, h: Stack, activeResizerIndex: int, resizeAmount: real, spaceBeforeResizers: seq<real>,
                 spaceToExpandInto: real, currentResizeFlags: ResizeFlags) returns (changeInStackSize: real)
    requires h.Valid() && |spaceBeforeResizers| == h.sizes.Length
    requires AccessibleResizes(gesture.resizes, h.sizes.Length, activeResizerIndex) != [] ==>
               0 < h.sizes.Length && activeResizerIndex < h.sizes.Length
    modifies h.sizes
    ensures (h.sizes[..], changeInStackSize)
            == Executed(AccessibleResizes(gesture.resizes, h.sizes.Length, activeResizerIndex), old(h.sizes[..]), h.minimums,
                        resizeAmount, activeResizerIndex, spaceBeforeResizers, spaceToExpandInto,
                        gesture.flags.Intersect(currentResizeFlags), 0.0)
  {
    var steps := AccessibleResizes(gesture.resizes, h.sizes.Length, activeResizerIndex);
    var flags := gesture.flags.Intersect(currentResizeFlags);
    changeInStackSize := 0.0;
    var i := 0;
    while i < |steps|
      invariant 0 <= i <= |steps|
      invariant Executed(steps[i..], h.sizes[..], h.minimums, resizeAmount, activeResizerIndex, spaceBeforeResizers,
                         spaceToExpandInto, flags, changeInStackSize)
                == Executed(steps, old(h.sizes[..]), h.minimums, resizeAmount, activeResizerIndex, spaceBeforeResizers,
                            spaceToExpandInto, flags, 0.0)
    {
      assert steps[i..][1..] == steps[i + 1..];
      ghost var previous := h.sizes[..];
      var change := steps[i].resize.Execute(h, resizeAmount, steps[i].index, activeResizerIndex, spaceBeforeResizers,
                                            spaceToExpandInto, flags);
      assert Executed(steps[i..], previous, h.minimums, resizeAmount, activeResizerIndex, spaceBeforeResizers,
                      spaceToExpandInto, flags, changeInStackSize)
             == Executed(steps[i + 1..], h.sizes[..], h.minimums, resizeAmount, activeResizerIndex, spaceBeforeResizers,
                         spaceToExpandInto, flags, changeInStackSize + change);
      changeInStackSize := changeInStackSize + change;
      i := i + 1;
    }
  }

  // ---------------------------------------------------------------------
  // What the gestures guarantee.

  /**
   * The shape of the nine gestures: each moves its own resizer by the
   * requested amount in its own zone; without a modifier that is all it does
   * and it passes on flags, with a modifier it also moves the neighbouring
   * resizer on one side and passes on no flags.
   */
  lemma GestureShape(g: ResizeGesture)
    requires g in AllGestures()
    ensures Resize(0, MaintainResizeAmount, g.mode) in g.resizes
    ensures g.modifier == ResizerModifier.None ==> g.resizes == [Resize(0, MaintainResizeAmount, g.mode)] && g.flags != NoFlags
    ensures g.modifier != ResizerModifier.None ==>
              && g.flags == NoFlags && |g.resizes| == 2
              && g.resizes[1].indexOffset == g.resizes[0].indexOffset + 1
              && g.resizes[0].mode != ResizerMode.None && g.resizes[1].mode != ResizerMode.None
  {
    var k :| 0 <= k < 9 && AllGestures()[k] == g;
    GestureAtItsIndex(k);
    if k == 0 { assert g.resizes[0] == Resize(0, MaintainResizeAmount, g.mode); }
    else if k == 1 { assert g.resizes[1] == Resize(0, MaintainResizeAmount, g.mode); }
    else if k == 2 { assert g.resizes[1] == Resize(0, MaintainResizeAmount, g.mode); }
    else if k == 3 { assert g.resizes[0] == Resize(0, MaintainResizeAmount, g.mode); }
    else if k == 4 { assert g.resizes[0] == Resize(0, MaintainResizeAmount, g.mode); }
    else if k == 5 { assert g.resizes[0] == Resize(0, MaintainResizeAmount, g.mode); }
    else if k == 6 { assert g.resizes[0] == Resize(0, MaintainResizeAmount, g.mode); }
    else if k == 7 { assert g.resizes[1] == Resize(0, MaintainResizeAmount, g.mode); }
    else { assert g.resizes[1] == Resize(0, MaintainResizeAmount, g.mode); }
  }

  /** No sequence of movements pushes an element below its minimum size. */
  lemma {:induction false} ExecutedKeepsMinimums(steps: seq<Step>, s: seq<real>, mins: seq<real>, amount: real, activeIndex: int,
                                                 spaces: seq<real>, expand: real, flags: ResizeFlags, reported: real)
    requires |s| == |mins| == |spaces| && StepsFit(steps, |s|)
    requires steps != [] ==> 0 < |s| && activeIndex < |s|
    requires AtLeastMinimums(s, mins)
    ensures AtLeastMinimums(Executed(steps, s, mins, amount, activeIndex, spaces, expand, flags, reported).0, mins)
  {
    if steps != [] {
      var (t, change) := steps[0].resize.Outcome(s, mins, amount, steps[0].index, activeIndex, spaces, expand, flags);
      MovementKeepsMinimums(steps[0].resize, s, mins, amount, steps[0].index, activeIndex, spaces, expand, flags);
      ExecutedKeepsMinimums(steps[1..], t, mins, amount, activeIndex, spaces, expand, flags, reported + change);
    }
  }

  /** Movements run without flags report no change in the stack's size. */
  lemma {:induction false} ExecutedWithoutFlags(steps: seq<Step>, s: seq<real>, mins: seq<real>, amount: real, activeIndex: int,
                                                spaces: seq<real>, expand: real, reported: real)
    requires |s| == |mins| == |spaces| && StepsFit(steps, |s|)
    requires steps != [] ==> 0 < |s| && activeIndex < |s|
    ensures Executed(steps, s, mins, amount, activeIndex, spaces, expand, NoFlags, reported).1 == reported
  {
    if steps != [] {
      var (t, change) := steps[0].resize.Outcome(s, mins, amount, steps[0].index, activeIndex, spaces, expand, NoFlags);
      assert change == 0.0;
      ExecutedWithoutFlags(steps[1..], t, mins, amount, activeIndex, spaces, expand, reported + change);
    }
  }

  /**
   * Dragging with any gesture keeps every element at or above its minimum
   * size, and a gesture with a modifier (Move or ShrinkGrow) reports no change
   * in the stack's size.
   */
  lemma GestureKeepsMinimums(gesture: ResizeGesture, s: seq<real>, mins: seq<real>, activeIndex: int, amount: real,
                             spaces: seq<real>, expand: real, current: ResizeFlags)
    requires gesture in AllGestures() || gesture == EmptyGesture
    requires |s| == |mins| == |spaces| && AtLeastMinimums(s, mins)
    requires AccessibleResizes(gesture.resizes, |s|, activeIndex) != [] ==> 0 < |s| && activeIndex < |s|
    ensures var (t, reported) := Executed(AccessibleResizes(gesture.resizes, |s|, activeIndex), s, mins, amount, activeIndex,
                                          spaces, expand, gesture.flags.Intersect(current), 0.0);
            && AtLeastMinimums(t, mins)
            && (gesture.modifier != ResizerModifier.None ==> reported == 0.0)
  {
    var steps := AccessibleResizes(gesture.resizes, |s|, activeIndex);
    ExecutedKeepsMinimums(steps, s, mins, amount, activeIndex, spaces, expand, gesture.flags.Intersect(current), 0.0);
    if gesture.modifier != ResizerModifier.None {
      GestureShape(gesture);
      IntersectNone(current);
      ExecutedWithoutFlags(steps, s, mins, amount, activeIndex, spaces, expand, 0.0);
    }
  }

  /**
   * A gesture without a modifier, dragged at an existing resizer of a
   * consistent stack, changes the stack's size by exactly what it reports,
   * whenever the flags it runs under disable at most one side and every side
   * they leave enabled holds at least one element.
   */
  lemma SingleMovementReportsStackChange(gesture: ResizeGesture, s: seq<real>, mins: seq<real>, activeIndex: int, amount: real,
                                         spaces: seq<real>, expand: real, current: ResizeFlags)
    requires gesture in AllGestures() && gesture.modifier == ResizerModifier.None
    requires |s| == |mins| && 0 <= activeIndex < |s| && AtLeastMinimums(s, mins) && SpacesMatch(s, mins, spaces)
    requires var flags := gesture.flags.Intersect(current);
             && !(flags.disableResizeAfter && flags.disableResizeBefore)
             && (!flags.disableResizeAfter ==> activeIndex < |s| - 1)
    ensures var (t, reported) := Executed(AccessibleResizes(gesture.resizes, |s|, activeIndex), s, mins, amount, activeIndex,
                                          spaces, expand, gesture.flags.Intersect(current), 0.0);
            && AtLeastMinimums(t, mins)
            && Sum(t) == Sum(s) + reported
  {
    GestureShape(gesture);
    var flags := gesture.flags.Intersect(current);
    var r := Resize(0, MaintainResizeAmount, gesture.mode);
    var steps := AccessibleResizes(gesture.resizes, |s|, activeIndex);
    assert steps == [Step(activeIndex, r)];
    MovementReportsStackChange(r, s, mins, amount, activeIndex, activeIndex, spaces, expand, flags);
    var o := r.Outcome(s, mins, amount, activeIndex, activeIndex, spaces, expand, flags);
    assert Executed(steps, s, mins, amount, activeIndex, spaces, expand, flags, 0.0)
           == Executed([], o.0, mins, amount, activeIndex, spaces, expand, flags, 0.0 + o.1);
  }
}
