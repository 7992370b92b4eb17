// The per-layout summary a resizer movement reads: for each element, the
// cumulative resizable space and minimum size of the enabled elements up to
// and including it, and the number of disabled elements before it. The
// summary lives in a caller-supplied buffer of fixed capacity and is filled
// one element at a time.
module ResizeInfos {
  import opened Sizes
  import opened Harness
  import opened Flags
  import opened ElementSlices

  datatype ResizeElementInfo = ResizeElementInfo(resizableSpaceBefore: real, minimumSpaceBefore: real, disabledElementsBefore: int)

  /** What the harness reported about an element when it was added. */
  datatype Element = Element(enabled: bool, size: real, minimum: real)

  function EnabledFlags(es: seq<Element>): (r: seq<bool>)
    ensures |r| == |es| && forall k :: 0 <= k < |es| ==> r[k] == es[k].enabled
  {
    seq(|es|, k requires 0 <= k < |es| => es[k].enabled)
  }

  /** Disabled elements among `es`. */
  function DisabledCount(es: seq<Element>): nat {
    |es| - EnabledCount(EnabledFlags(es))
  }

  /** Total resizable space (size above minimum) of the enabled elements among `es`. */
  function ResizableSpace(es: seq<Element>): real {
    if es == [] then 0.0
    else
      var e := es[|es| - 1];
      ResizableSpace(es[..|es| - 1]) + (if e.enabled then e.size - e.minimum else 0.0)
  }

  /** Total minimum size of the enabled elements among `es`. */
  function MinimumSpace(es: seq<Element>): real {
    if es == [] then 0.0
    else
      var e := es[|es| - 1];
      MinimumSpace(es[..|es| - 1]) + (if e.enabled then e.minimum else 0.0)
  }

  /** Total size of the enabled elements among `es`. */
  function EnabledSize(es: seq<Element>): real {
    if es == [] then 0.0
    else
      var e := es[|es| - 1];
      EnabledSize(es[..|es| - 1]) + (if e.enabled then e.size else 0.0)
  }

  /** The summary entry of element k of `es`. */
  function InfoAt(es: seq<Element>, k: int): ResizeElementInfo
    requires 0 <= k < |es|
  {
    ResizeElementInfo(ResizableSpace(es[..k + 1]), MinimumSpace(es[..k + 1]), DisabledCount(es[..k]))
  }

  /** Appending an element adds one to the disabled count exactly when it is disabled. */
  lemma DisabledCountSnoc(es: seq<Element>, e: Element)
    ensures DisabledCount(es + [e]) == DisabledCount(es) + (if e.enabled then 0 else 1)
  {
    assert EnabledFlags(es + [e]) == EnabledFlags(es) + [e.enabled];
    EnabledCountConcat(EnabledFlags(es), [e.enabled]);
    assert EnabledCount([e.enabled]) == (if e.enabled then 1 else 0) by {
      assert [e.enabled][1..] == [];
    }
  }

  /** The total of the enabled elements' sizes is their resizable space plus their minimum sizes. */
  lemma {:induction false} EnabledSizeSplits(es: seq<Element>)
    ensures EnabledSize(es) == ResizableSpace(es) + MinimumSpace(es)
  {
    if es != [] {
      EnabledSizeSplits(es[..|es| - 1]);
    }
  }

  /**
   * Appending an element leaves every earlier summary entry as it was, and
   * the new entry extends the totals of the elements before it.
   */
  lemma AppendKeepsInfos(es: seq<Element>, e: Element)
    ensures forall k :: 0 <= k < |es| ==> InfoAt(es + [e], k) == InfoAt(es, k)
    ensures InfoAt(es + [e], |es|)
            == ResizeElementInfo(ResizableSpace(es) + (if e.enabled then e.size - e.minimum else 0.0),
                                 MinimumSpace(es) + (if e.enabled then e.minimum else 0.0),
                                 DisabledCount(es))
  {
    forall k | 0 <= k < |es|
      ensures InfoAt(es + [e], k) == InfoAt(es, k)
    {
      AppendKeepsInfo(es, e, k);
    }
    AppendedInfo(es, e);
  }

  /** Appending an element leaves the summary entry of an earlier element k as it was. */
  lemma AppendKeepsInfo(es: seq<Element>, e: Element, k: int)
    requires 0 <= k < |es|
    ensures InfoAt(es + [e], k) == InfoAt(es, k)
  {
    var es' := es + [e];
    assert es'[..k + 1] == es[..k + 1];
    assert es'[..k] == es[..k];
  }

  /** The entry of an appended element extends the totals of the elements before it. */
  lemma AppendedInfo(es: seq<Element>, e: Element)
    ensures InfoAt(es + [e], |es|)
            == ResizeElementInfo(ResizableSpace(es) + (if e.enabled then e.size - e.minimum else 0.0),
                                 MinimumSpace(es) + (if e.enabled then e.minimum else 0.0),
                                 DisabledCount(es))
  {
    var es' := es + [e];
    assert es'[..|es| + 1] == es';
    assert es'[..|es|] == es;
    assert ResizableSpace(es') == ResizableSpace(es) + (if e.enabled then e.size - e.minimum else 0.0);
    assert MinimumSpace(es') == MinimumSpace(es) + (if e.enabled then e.minimum else 0.0);
  }

  /** The element an addition records: the harness's view of element k. */
  function ElementOf(h: Stack, k: int): Element
    reads h, h.sizes
    requires h.Valid() && 0 <= k < h.sizes.Length
  {
    Element(h.enabled[k], h.sizes[k], h.minimums[k])
  }

  class ResizeInfo {
    const infos: array<ResizeElementInfo>
    const harness: Stack
    var count: int
    var disabledCount: int
    const activeResizerRequestedChange: real
    const activeResizerIndex: int
    var flags: ResizeFlags
    /** The elements added so far, as the harness reported them. */
    ghost var elements: seq<Element>

    ghost predicate Valid()
      reads this, infos, harness
    {
      && harness.Valid()
      && 0 <= count <= infos.Length
      && |elements| == count
      && disabledCount == DisabledCount(elements)
      && forall k :: 0 <= k < count ==> infos[k] == InfoAt(elements, k)
    }

    /** Every element of the buffer has been written. */
    ghost predicate Built()
      reads this, infos, harness
    {
      Valid() && count == infos.Length
    }

    constructor (infos: array<ResizeElementInfo>, harness: Stack, requestedChange: real, activeIndex: int)
      requires harness.Valid()
      ensures Valid() && elements == [] && flags == NoFlags
      ensures this.infos == infos && this.harness == harness
      ensures activeResizerRequestedChange == requestedChange && activeResizerIndex == activeIndex
    {
      this.infos := infos;
      this.harness := harness;
      count := 0;
      disabledCount := 0;
      activeResizerRequestedChange := requestedChange;
      activeResizerIndex := activeIndex;
      flags := NoFlags;
      elements := [];
    }

    /**
     * Records element `element` of the harness in the next free slot; fails,
     * changing nothing, when the buffer is at capacity.
     */
    method AddElement(element: int) returns (ok: bool)
      requires Valid() && 0 <= element < harness.sizes.Length
      modifies this, infos
      ensures Valid() && flags == old(flags)
      ensures ok <==> old(count) < infos.Length
      ensures !ok ==> elements == old(elements) && count == old(count) && infos[..] == old(infos[..])
      ensures ok ==> elements == old(elements) + [ElementOf(harness, element)] && count == old(count) + 1
      ensures ok ==> infos[..] == old(infos[..])[old(count) := InfoAt(elements, old(count))]
    {
      if count >= infos.Length {
        return false;
      }
      var enabled := harness.enabled[element];
      var resizableBefore := if count == 0 then 0.0 else infos[count - 1].resizableSpaceBefore;
      var minimumBefore := if count == 0 then 0.0 else infos[count - 1].minimumSpaceBefore;
      infos[count] := ResizeElementInfo(
        resizableBefore + (if enabled then harness.GetResizableSpace(element) else 0.0),
        minimumBefore + (if enabled then harness.minimums[element] else 0.0),
        disabledCount);
      var e := ElementOf(harness, element);
      AppendKeepsInfos(elements, e);
      DisabledCountSnoc(elements, e);
      assert count > 0 ==> elements[..count] == elements;
      disabledCount := disabledCount + (if enabled then 0 else 1);
      count := count + 1;
      elements := elements + [e];
      return true;
    }

    /** The number of disabled elements before the resizer after element `resizerIndex - 1`. */
    function DisabledElementsBefore(resizerIndex: int): (r: int)
      reads this, infos, harness
      requires Valid()
      ensures r == DisabledCount(elements[..if resizerIndex < 0 then 0 else if resizerIndex < count then resizerIndex else count])
    {
      if resizerIndex < 0 then 0
      else if resizerIndex < count then infos[resizerIndex].disabledElementsBefore
      else assert elements[..count] == elements; disabledCount
    }

    /**
     * The lookup as the buffer is read directly: the index is clamped to the
     * buffer's last slot, whose entry counts the disabled elements before the
     * last element only.
     */
    function DisabledElementsBeforeAsWritten(resizerIndex: int): (r: int)
      reads this, infos, harness
      requires resizerIndex < 0 || infos.Length > 0
      ensures Valid() && resizerIndex < count ==> r == DisabledElementsBefore(resizerIndex)
    {
      if resizerIndex < 0 then 0
      else infos[if resizerIndex < infos.Length - 1 then resizerIndex else infos.Length - 1].disabledElementsBefore
    }

    /** Resizable space of the enabled elements up to and including element `resizerIndex`. */
    function SpaceBeforeResizer(resizerIndex: int): (r: real)
      reads this, infos, harness
      requires Valid() && resizerIndex < infos.Length
      ensures resizerIndex < count ==> r == ResizableSpace(elements[..if resizerIndex < 0 then 0 else resizerIndex + 1])
    {
      if resizerIndex < 0 then 0.0 else infos[resizerIndex].resizableSpaceBefore
    }

    /** Resizable space of all enabled elements. */
    function TotalResizeSpace(): (r: real)
      reads this, infos, harness
      requires Valid() && infos.Length > 0
      ensures Built() ==> r == ResizableSpace(elements)
    {
      assert Built() ==> elements[..count] == elements;
      infos[infos.Length - 1].resizableSpaceBefore
    }

    /** Resizable space of the enabled elements after element `resizerIndex`. */
    function SpaceAfterResizer(resizerIndex: int): (r: real)
      reads this, infos, harness
      requires Valid() && resizerIndex < infos.Length && infos.Length > 0
      ensures SpaceBeforeResizer(resizerIndex) + r == TotalResizeSpace()
    {
      TotalResizeSpace() - SpaceBeforeResizer(resizerIndex)
    }

    /** Total size of all enabled elements. */
    function TotalSpace(): (r: real)
      reads this, infos, harness
      requires Valid() && infos.Length > 0
      ensures Built() ==> r == EnabledSize(elements)
    {
      assert Built() ==> elements[..count] == elements;
      EnabledSizeSplits(elements);
      infos[infos.Length - 1].minimumSpaceBefore + TotalResizeSpace()
    }

    /** A movement is only worth running for a non-zero request on a non-empty summary. */
    predicate IsValid()
      reads this, infos
      ensures IsValid() ==> infos.Length > 0
      ensures activeResizerRequestedChange == 0.0 ==> !IsValid()
    {
      activeResizerRequestedChange != 0.0 && infos.Length > 0
    }

    /** The enabled elements from `index` down to the first, walked backwards. */
    function GetElementsBefore(index: int): (slice: ResizableElementSlice)
      reads this, infos, harness
      requires Valid()
      ensures slice.startingIndex == index && slice.reverse
    {
      ResizableElementSlice(index, index + 1 - DisabledElementsBefore(index + 1), true)
    }

    /** The enabled elements from `index + 1` to the last, walked forwards. */
    function GetElementsAfter(index: int): (slice: ResizableElementSlice)
      reads this, infos, harness
      requires Valid()
      ensures slice.startingIndex == index + 1 && !slice.reverse
    {
      var totalElementsAfter := count - (index + 1);
      var disabledElementsAfter := disabledCount - DisabledElementsBefore(index + 1);
      ResizableElementSlice(index + 1, totalElementsAfter - disabledElementsAfter, false)
    }
  }

  /**
   * Filling a buffer with the given elements of the harness, in order: fails
   * when the buffer is too small for them.
   */
  method Build(elements: seq<int>, harness: Stack, infos: array<ResizeElementInfo>, requestedChange: real, activeIndex: int)
    returns (info: ResizeInfo, ok: bool)
    requires harness.Valid() && InRange(elements, harness.sizes.Length)
    modifies infos
    ensures fresh(info) && info.Valid() && info.infos == infos && info.harness == harness
    ensures info.activeResizerRequestedChange == requestedChange && info.activeResizerIndex == activeIndex
    ensures ok <==> |elements| <= infos.Length
    ensures ok ==> |info.elements| == |elements|
    ensures ok ==> forall i :: 0 <= i < |elements| ==> info.elements[i] == ElementOf(harness, elements[i])
  {
    info := new ResizeInfo(infos, harness, requestedChange, activeIndex);
    var i := 0;
    while i < |elements|
      invariant 0 <= i <= |elements| && i <= infos.Length
      invariant info.Valid() && info.infos == infos && info.harness == harness && info.count == i
      invariant info.activeResizerRequestedChange == requestedChange && info.activeResizerIndex == activeIndex
      invariant forall j :: 0 <= j < i ==> info.elements[j] == ElementOf(harness, elements[j])
      modifies info, infos
    {
      var added := info.AddElement(elements[i]);
      if !added {
        return info, false;
      }
      i := i + 1;
    }
    return info, true;
  }

  /** Flags of a prefix of the elements are the prefix of their flags. */
  lemma FlagsPrefix(es: seq<Element>, m: int)
    requires 0 <= m <= |es|
    ensures EnabledFlags(es[..m]) == EnabledFlags(es)[..m]
  {
  }

  /**
   * The slice before a resizer yields exactly the enabled elements from
   * `index` down to the first, and enumerating it never leaves the list.
   */
  lemma ElementsBeforeYieldEnabled(info: ResizeInfo, index: int)
    requires info.Valid() && -1 <= index < info.count
    ensures var slice := info.GetElementsBefore(index);
            var en := EnabledFlags(info.elements);
            && slice.Yields() == EnabledCount(en[..index + 1])
            && Walk(en, slice.startingIndex, slice.Step(), slice.Yields()).Some?
  {
    var en := EnabledFlags(info.elements);
    FlagsPrefix(info.elements, index + 1);
    WalkBackward(en, index, EnabledCount(en[..index + 1]));
  }

  /**
   * The slice after a resizer yields exactly the enabled elements from
   * `index + 1` to the last, and enumerating it never leaves the list.
   */
  lemma ElementsAfterYieldEnabled(info: ResizeInfo, index: int)
    requires info.Valid() && -1 <= index < info.count
    ensures var slice := info.GetElementsAfter(index);
            var en := EnabledFlags(info.elements);
            && slice.Yields() == EnabledCount(en[index + 1..])
            && Walk(en, slice.startingIndex, slice.Step(), slice.Yields()).Some?
  {
    var en := EnabledFlags(info.elements);
    FlagsPrefix(info.elements, index + 1);
    assert info.elements[..info.count] == info.elements;
    EnabledCountSplit(en, 0, index + 1, info.count);
    assert en[0..index + 1] == en[..index + 1] && en[index + 1..info.count] == en[index + 1..] && en[0..info.count] == en;
    WalkForward(en, index + 1, EnabledCount(en[index + 1..]));
  }

  /**
   * The slices on the two sides of a resizer claim exactly the enabled
   * elements on their side, and together every enabled element once.
   */
  lemma SlicesPartitionEnabled(info: ResizeInfo, index: int)
    requires info.Valid() && -1 <= index < info.count
    ensures var en := EnabledFlags(info.elements);
            && info.GetElementsBefore(index).length == EnabledCount(en[..index + 1])
            && info.GetElementsAfter(index).length == EnabledCount(en[index + 1..])
            && info.GetElementsBefore(index).length + info.GetElementsAfter(index).length == EnabledCount(en)
  {
    var en := EnabledFlags(info.elements);
    ElementsBeforeYieldEnabled(info, index);
    ElementsAfterYieldEnabled(info, index);
    FlagsPrefix(info.elements, index + 1);
    EnabledCountSplit(en, 0, index + 1, info.count);
    assert en[0..index + 1] == en[..index + 1] && en[index + 1..info.count] == en[index + 1..] && en[0..info.count] == en;
  }

  /**
   * While every enabled element is at or above its minimum size, the
   * resizable space recorded in the summary never decreases from one element
   * to the next.
   */
  lemma {:induction false} ResizableSpaceBeforeGrows(es: seq<Element>, i: int, j: int)
    requires forall k :: 0 <= k < |es| && es[k].enabled ==> es[k].minimum <= es[k].size
    requires 0 <= i <= j < |es|
    ensures InfoAt(es, i).resizableSpaceBefore <= InfoAt(es, j).resizableSpaceBefore
    decreases j
  {
    if i < j {
      ResizableSpaceBeforeGrows(es, i, j - 1);
      assert es[..j + 1][..j] == es[..j];
      assert ResizableSpace(es[..j + 1]) == ResizableSpace(es[..j]) + (if es[j].enabled then es[j].size - es[j].minimum else 0.0);
    }
  }

  /**
   * With the lookup as written, the slice before the last resizer of a full
   * buffer whose last element is disabled claims one element more than the
   * list holds, so its enumeration runs off the front of the list.
   */
  lemma AsWrittenLastSliceOverruns(info: ResizeInfo)
    requires info.Built() && info.count > 0 && !info.elements[info.count - 1].enabled
    ensures info.DisabledElementsBeforeAsWritten(info.count) == info.DisabledElementsBefore(info.count) - 1
    ensures var last := info.count - 1;
            var asWritten := ResizableElementSlice(last, last + 1 - info.DisabledElementsBeforeAsWritten(info.count), true);
            Walk(EnabledFlags(info.elements), last, -1, asWritten.Yields()).None?
  {
    var es := info.elements;
    var last := info.count - 1;
    assert es == es[..last] + [es[last]];
    DisabledCountSnoc(es[..last], es[last]);
    var en := EnabledFlags(es);
    assert en[..last + 1] == en;
    WalkBackward(en, last, last + 1 - info.DisabledElementsBeforeAsWritten(info.count));
  }
}
