// A contiguous slice of the element list, read forwards or backwards. The
// list itself is left implicit: a slice yields the indices it reads, in the
// order it reads them.
module ListSlices {
  import opened Sizes

  datatype ListSlice = ListSlice(startingIndex: int, endIndex: int, reverse: bool) {

    /** Number of elements in the inclusive range startingIndex..endIndex. */
    function Length(): (r: int)
      ensures r > 0 <==> startingIndex <= endIndex
    {
      1 + endIndex - startingIndex
    }

    /**
     * The indices the slice reads, in iteration order; `None` stands for the
     * IndexOutOfRangeException thrown when the range is empty.
     */
    function Items(): (r: Option<seq<int>>)
      ensures r.Some? <==> startingIndex <= endIndex
      ensures r.Some? ==> |r.value| == Length()
      ensures r.Some? ==> forall k :: k in r.value <==> startingIndex <= k <= endIndex
      ensures r.Some? && !reverse ==> forall i :: 0 < i < |r.value| ==> r.value[i - 1] < r.value[i]
      ensures r.Some? && reverse ==> forall i :: 0 < i < |r.value| ==> r.value[i - 1] > r.value[i]
    {
      if startingIndex > endIndex then None
      else
        var items := if reverse then ItemsBackwards() else ItemsForwards();
        RangeCovered(items, startingIndex, endIndex, reverse);
        Some(items)
    }

    function ItemsForwards(): seq<int>
      requires startingIndex <= endIndex
    {
      seq(Length(), i => startingIndex + i)
    }

    function ItemsBackwards(): seq<int>
      requires startingIndex <= endIndex
    {
      seq(Length(), i => endIndex - i)
    }
  }

  lemma RangeCovered(items: seq<int>, start: int, end: int, reverse: bool)
    requires |items| == 1 + end - start
    requires forall i :: 0 <= i < |items| ==> items[i] == if reverse then end - i else start + i
    ensures forall k :: k in items <==> start <= k <= end
  {
    forall k | start <= k <= end
      ensures k in items
    {
      assert items[if reverse then end - k else k - start] == k;
    }
  }

  /** The slice of elements 0..index, read from index down to 0. */
  function CreateBackwardsSlice(index: int): (r: ListSlice)
    ensures r.startingIndex == 0 && r.endIndex == index && r.reverse
  {
    ListSlice(0, index, true)
  }

  /** The slice of elements index..count-1, read upwards. */
  function CreateForwardsSlice(count: int, index: int): (r: ListSlice)
    ensures r.startingIndex == index && r.endIndex == count - 1 && !r.reverse
  {
    ListSlice(index, count - 1, false)
  }

  /** Reading a range backwards yields the forward reading reversed. */
  lemma BackwardsReversesForwards(start: int, end: int)
    requires start <= end
    ensures var f := ListSlice(start, end, false).Items().value;
            var b := ListSlice(start, end, true).Items().value;
            |f| == |b| && forall i :: 0 <= i < |b| ==> b[i] == f[|f| - 1 - i]
  {
  }

  /**
   * For a resizer between elements index and index+1 of a list of `count`
   * elements, the slice before it and the slice after it together read every
   * element of the list exactly once, and only elements of the list.
   */
  lemma SlicesPartitionList(count: int, index: int)
    requires 0 <= index < count - 1
    ensures var b := CreateBackwardsSlice(index).Items();
            var f := CreateForwardsSlice(count, index + 1).Items();
            && b.Some? && f.Some?
            && |b.value| + |f.value| == count
            && InRange(b.value, count) && InRange(f.value, count)
            && Distinct(b.value) && Distinct(f.value) && Disjoint(b.value, f.value)
            && forall k :: 0 <= k < count <==> k in b.value || k in f.value
  {
    var b := CreateBackwardsSlice(index).Items().value;
    var f := CreateForwardsSlice(count, index + 1).Items().value;
    assert forall i :: 0 <= i < |b| ==> b[i] == index - i;
    assert forall i :: 0 <= i < |f| ==> f[i] == index + 1 + i;
  }

  /** The resizable space of an ascending run of elements is a difference of prefix sums. */
  lemma {:induction false} AscendingSpaces(s: seq<real>, mins: seq<real>, lo: int, hi: int)
    requires |s| == |mins| && 0 <= lo <= hi <= |s|
    ensures InRange(seq(hi - lo, i => lo + i), |s|)
    ensures SumSpaces(s, mins, seq(hi - lo, i => lo + i)) == Prefix(s, mins, hi) - Prefix(s, mins, lo)
    decreases hi - lo
  {
    var items := seq(hi - lo, i => lo + i);
    if lo < hi {
      AscendingSpaces(s, mins, lo + 1, hi);
      assert items[1..] == seq(hi - (lo + 1), i => lo + 1 + i);
    }
  }

  /** The resizable space of a descending run of elements is a difference of prefix sums. */
  lemma {:induction false} DescendingSpaces(s: seq<real>, mins: seq<real>, lo: int, hi: int)
    requires |s| == |mins| && 0 <= lo <= hi <= |s|
    ensures InRange(seq(hi - lo, i => hi - 1 - i), |s|)
    ensures SumSpaces(s, mins, seq(hi - lo, i => hi - 1 - i)) == Prefix(s, mins, hi) - Prefix(s, mins, lo)
    decreases hi - lo
  {
    var items := seq(hi - lo, i => hi - 1 - i);
    if lo < hi {
      DescendingSpaces(s, mins, lo, hi - 1);
      assert items[1..] == seq(hi - 1 - lo, i => hi - 1 - 1 - i);
    }
  }

  /**
   * The slice before the resizer at `index` holds the resizable space before
   * it, and the slice after holds the rest of the stack's resizable space.
   */
  lemma SliceSpaces(s: seq<real>, mins: seq<real>, index: int)
    requires |s| == |mins| && -1 <= index < |s|
    ensures index >= 0 ==>
              var b := CreateBackwardsSlice(index).Items().value;
              InRange(b, |s|) && SumSpaces(s, mins, b) == Prefix(s, mins, index + 1)
    ensures index < |s| - 1 ==>
              var f := CreateForwardsSlice(|s|, index + 1).Items().value;
              InRange(f, |s|) && SumSpaces(s, mins, f) == Prefix(s, mins, |s|) - Prefix(s, mins, index + 1)
  {
    if index >= 0 {
      SliceSpacesBefore(s, mins, index);
    }
    if index < |s| - 1 {
      SliceSpacesAfter(s, mins, index);
    }
  }

  lemma SliceSpacesBefore(s: seq<real>, mins: seq<real>, index: int)
    requires |s| == |mins| && 0 <= index < |s|
    ensures var b := CreateBackwardsSlice(index).Items().value;
            InRange(b, |s|) && SumSpaces(s, mins, b) == Prefix(s, mins, index + 1)
  {
    DescendingSpaces(s, mins, 0, index + 1);
    assert CreateBackwardsSlice(index).Items().value == seq(index + 1, i => index + 1 - 1 - i);
  }

  lemma SliceSpacesAfter(s: seq<real>, mins: seq<real>, index: int)
    requires |s| == |mins| && -1 <= index < |s| - 1
    ensures var f := CreateForwardsSlice(|s|, index + 1).Items().value;
            InRange(f, |s|) && SumSpaces(s, mins, f) == Prefix(s, mins, |s|) - Prefix(s, mins, index + 1)
  {
    AscendingSpaces(s, mins, index + 1, |s|);
    assert CreateForwardsSlice(|s|, index + 1).Items().value == seq(|s| - (index + 1), i => index + 1 + i);
  }
}
