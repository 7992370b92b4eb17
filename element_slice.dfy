// A slice of the element list that visits enabled elements only: it starts at
// an index, walks forwards or backwards, skips disabled elements and stops
// after it has yielded `length` enabled ones. Elements are their indices; the
// harness's enabled flags are the sequence `enabled`.
module ElementSlices {
  import opened Sizes

  /** Number of enabled elements among the flags `en`. */
  function EnabledCount(en: seq<bool>): (r: nat)
    ensures r <= |en|
  {
    if en == [] then 0 else (if en[0] then 1 else 0) + EnabledCount(en[1..])
  }

  lemma {:induction false} EnabledCountConcat(a: seq<bool>, b: seq<bool>)
    ensures EnabledCount(a + b) == EnabledCount(a) + EnabledCount(b)
  {
    if a == [] {
      assert a + b == b;
    } else {
      assert (a + b)[1..] == a[1..] + b;
      EnabledCountConcat(a[1..], b);
    }
  }

  /** Splitting a range of flags at `mid` splits its enabled count. */
  lemma EnabledCountSplit(en: seq<bool>, lo: int, mid: int, hi: int)
    requires 0 <= lo <= mid <= hi <= |en|
    ensures EnabledCount(en[lo..hi]) == EnabledCount(en[lo..mid]) + EnabledCount(en[mid..hi])
  {
    assert en[lo..hi] == en[lo..mid] + en[mid..hi];
    EnabledCountConcat(en[lo..mid], en[mid..hi]);
  }

  /**
   * The first enabled index reached from `from` walking in direction `step`,
   * or None when the walk leaves the list first (the list read then throws).
   */
  function NextEnabled(en: seq<bool>, from: int, step: int): (r: Option<int>)
    requires step == 1 || step == -1
    ensures r.Some? ==> 0 <= r.value < |en| && en[r.value]
    ensures r.Some? && step == 1 ==> from <= r.value
    ensures r.Some? && step == -1 ==> r.value <= from
    decreases if step == 1 then |en| - from else from + 1
  {
    if from < 0 || from >= |en| then None
    else if en[from] then Some(from)
    else NextEnabled(en, from + step, step)
  }

  /**
   * What an enumeration yields: the first `count` enabled indices reached from
   * `start` in direction `step`, each walk resuming one step past the index
   * yielded last; None when the walk leaves the list before it has them all.
   */
  function Walk(en: seq<bool>, start: int, step: int, count: nat): (r: Option<seq<int>>)
    requires step == 1 || step == -1
    ensures r.Some? ==> |r.value| == count
  {
    if count == 0 then Some([])
    else match Walk(en, start, step, count - 1)
      case None => None
      case Some(w) =>
        var from := if w == [] then start else w[|w| - 1] + step;
        match NextEnabled(en, from, step)
        case None => None
        case Some(j) => Some(w + [j])
  }

  /**
   * Every element a walk yields is an enabled element of the list, yielded at
   * most once, in walking order from `start` on.
   */
  lemma {:induction false} WalkSound(en: seq<bool>, start: int, step: int, count: nat)
    requires step == 1 || step == -1
    requires Walk(en, start, step, count).Some?
    ensures var w := Walk(en, start, step, count).value;
            && InRange(w, |en|)
            && (forall i :: 0 <= i < count ==> en[w[i]])
            && (step == 1 ==> forall i, j :: 0 <= i < j < count ==> w[i] < w[j])
            && (step == -1 ==> forall i, j :: 0 <= i < j < count ==> w[i] > w[j])
            && (count > 0 && step == 1 ==> start <= w[0])
            && (count > 0 && step == -1 ==> w[0] <= start)
  {
    if count > 0 {
      WalkSound(en, start, step, count - 1);
    }
  }

  /** A walk that yields `c2` elements yields the first `c1` of them on the way. */
  lemma {:induction false} WalkPrefix(en: seq<bool>, start: int, step: int, c1: nat, c2: nat)
    requires step == 1 || step == -1
    requires c1 <= c2 && Walk(en, start, step, c2).Some?
    ensures Walk(en, start, step, c1).Some?
    ensures Walk(en, start, step, c1).value == Walk(en, start, step, c2).value[..c1]
    decreases c2
  {
    if c1 < c2 {
      WalkPrefix(en, start, step, c1, c2 - 1);
    }
  }

  lemma {:induction false} NextEnabledForward(en: seq<bool>, from: int)
    requires 0 <= from <= |en|
    ensures NextEnabled(en, from, 1).Some? <==> EnabledCount(en[from..]) >= 1
    ensures NextEnabled(en, from, 1).Some? ==>
              EnabledCount(en[from..NextEnabled(en, from, 1).value + 1]) == 1
    decreases |en| - from
  {
    if from < |en| {
      assert en[from..][1..] == en[from + 1..];
      if en[from] {
        assert en[from..from + 1] == [true];
      } else {
        NextEnabledForward(en, from + 1);
        if NextEnabled(en, from, 1).Some? {
          var j := NextEnabled(en, from, 1).value;
          assert en[from..j + 1][1..] == en[from + 1..j + 1];
        }
      }
    }
  }

  lemma {:induction false} NextEnabledBackward(en: seq<bool>, from: int)
    requires -1 <= from < |en|
    ensures NextEnabled(en, from, -1).Some? <==> EnabledCount(en[..from + 1]) >= 1
    ensures NextEnabled(en, from, -1).Some? ==>
              EnabledCount(en[NextEnabled(en, from, -1).value..from + 1]) == 1
    decreases from + 1
  {
    if 0 <= from {
      assert en[..from + 1] == en[..from] + [en[from]];
      EnabledCountConcat(en[..from], [en[from]]);
      if en[from] {
        assert en[from..from + 1] == [true];
      } else {
        NextEnabledBackward(en, from - 1);
        if NextEnabled(en, from, -1).Some? {
          var j := NextEnabled(en, from, -1).value;
          assert en[j..from + 1] == en[j..from] + [en[from]];
          EnabledCountConcat(en[j..from], [en[from]]);
        }
      }
    } else {
      assert en[..from + 1] == [];
    }
  }

  /** A walk that has yielded `w` yields one more element exactly when the next enabled one is in the list. */
  lemma WalkUnfold(en: seq<bool>, start: int, step: int, count: nat, w: seq<int>)
    requires (step == 1 || step == -1) && 0 < count
    requires Walk(en, start, step, count - 1) == Some(w)
    ensures var from := if w == [] then start else w[|w| - 1] + step;
            Walk(en, start, step, count)
            == if NextEnabled(en, from, step).Some? then Some(w + [NextEnabled(en, from, step).value]) else None
  {
  }

  /** A walk that has yielded `w` yields `w` and `index` next, or fails, as stepping from its last element finds `index` in the list or not. */
  lemma WalkStep(en: seq<bool>, start: int, step: int, w: seq<int>, index: int)
    requires (step == 1 || step == -1) && Walk(en, start, step, |w|) == Some(w)
    requires var from := if w == [] then start else w[|w| - 1] + step;
             && (0 <= index < |en| ==> NextEnabled(en, from, step) == Some(index))
             && (!(0 <= index < |en|) ==> NextEnabled(en, from, step) == None)
    ensures 0 <= index < |en| ==> en[index] && Walk(en, start, step, |w| + 1) == Some(w + [index])
    ensures !(0 <= index < |en|) ==> Walk(en, start, step, |w| + 1) == None
  {
    WalkUnfold(en, start, step, |w| + 1, w);
  }

  /**
   * A forward walk from `start` yields `count` elements exactly when the list
   * holds at least `count` enabled elements from `start` on; otherwise it
   * runs off the end of the list.
   */
  lemma {:induction false} WalkForward(en: seq<bool>, start: int, count: nat)
    requires 0 <= start <= |en|
    ensures Walk(en, start, 1, count).Some? <==> count <= EnabledCount(en[start..])
    ensures Walk(en, start, 1, count).Some? && count > 0 ==>
              var last := Walk(en, start, 1, count).value[count - 1];
              start <= last < |en| && EnabledCount(en[start..last + 1]) == count
  {
    if count > 0 {
      WalkForward(en, start, count - 1);
      if Walk(en, start, 1, count - 1).Some? {
        var w := Walk(en, start, 1, count - 1).value;
        var from := if w == [] then start else w[|w| - 1] + 1;
        assert start <= from <= |en| && EnabledCount(en[start..from]) == count - 1 by {
          if w == [] { assert en[start..from] == []; }
        }
        WalkForwardStep(en, start, count, w, from);
      }
    }
  }

  /** One more step of a forward walk that has yielded `count - 1` elements, the last of them just before `from`. */
  lemma WalkForwardStep(en: seq<bool>, start: int, count: nat, w: seq<int>, from: int)
    requires 0 <= start <= from <= |en| && 0 < count
    requires Walk(en, start, 1, count - 1) == Some(w)
    requires from == if w == [] then start else w[|w| - 1] + 1
    requires EnabledCount(en[start..from]) == count - 1
    ensures Walk(en, start, 1, count).Some? <==> count <= EnabledCount(en[start..])
    ensures Walk(en, start, 1, count).Some? ==>
              var last := Walk(en, start, 1, count).value[count - 1];
              start <= last < |en| && EnabledCount(en[start..last + 1]) == count
  {
    WalkUnfold(en, start, 1, count, w);
    assert en[start..] == en[start..from] + en[from..];
    EnabledCountConcat(en[start..from], en[from..]);
    NextEnabledForward(en, from);
    if NextEnabled(en, from, 1).Some? {
      var j := NextEnabled(en, from, 1).value;
      var ww := w + [j];
      assert ww[count - 1] == j;
      EnabledCountSplit(en, start, from, j + 1);
    }
  }

  /**
   * A backward walk from `start` yields `count` elements exactly when the list
   * holds at least `count` enabled elements at or below `start`; otherwise it
   * runs off the front of the list.
   */
  lemma {:induction false} WalkBackward(en: seq<bool>, start: int, count: nat)
    requires -1 <= start < |en|
    ensures Walk(en, start, -1, count).Some? <==> count <= EnabledCount(en[..start + 1])
    ensures Walk(en, start, -1, count).Some? && count > 0 ==>
              var last := Walk(en, start, -1, count).value[count - 1];
              0 <= last <= start && EnabledCount(en[last..start + 1]) == count
  {
    if count > 0 {
      WalkBackward(en, start, count - 1);
      if Walk(en, start, -1, count - 1).Some? {
        var w := Walk(en, start, -1, count - 1).value;
        var from := if w == [] then start else w[|w| - 1] - 1;
        assert -1 <= from <= start && EnabledCount(en[from + 1..start + 1]) == count - 1 by {
          if w == [] { assert en[from + 1..start + 1] == []; }
        }
        WalkBackwardStep(en, start, count, w, from);
      }
    }
  }

  /** One more step of a backward walk that has yielded `count - 1` elements, the last of them just after `from`. */
  lemma WalkBackwardStep(en: seq<bool>, start: int, count: nat, w: seq<int>, from: int)
    requires -1 <= from <= start < |en| && 0 < count
    requires Walk(en, start, -1, count - 1) == Some(w)
    requires from == if w == [] then start else w[|w| - 1] - 1
    requires EnabledCount(en[from + 1..start + 1]) == count - 1
    ensures Walk(en, start, -1, count).Some? <==> count <= EnabledCount(en[..start + 1])
    ensures Walk(en, start, -1, count).Some? ==>
              var last := Walk(en, start, -1, count).value[count - 1];
              0 <= last <= start && EnabledCount(en[last..start + 1]) == count
  {
    assert en[..start + 1] == en[..from + 1] + en[from + 1..start + 1];
    EnabledCountConcat(en[..from + 1], en[from + 1..start + 1]);
    WalkUnfold(en, start, -1, count, w);
    NextEnabledBackward(en, from);
    if NextEnabled(en, from, -1).Some? {
      var j := NextEnabled(en, from, -1).value;
      var ww := w + [j];
      assert ww[count - 1] == j;
      EnabledCountSplit(en, j, from + 1, start + 1);
    }
  }

  /** The slice view itself: where it starts, how many enabled elements it yields, which way it walks. */
  datatype ResizableElementSlice = ResizableElementSlice(startingIndex: int, length: int, reverse: bool) {
    function Step(): int {
      if reverse then -1 else 1
    }

    /** The number of elements a complete enumeration yields. */
    function Yields(): nat {
      if length < 0 then 0 else length
    }
  }

  datatype MoveResult = Moved | Finished | OutOfRange

  /** Steps from `from` past disabled elements: stops at the next enabled one, or at the first position outside the list. */
  method SkipDisabled(enabled: seq<bool>, from: int, step: int) returns (index: int)
    requires step == 1 || step == -1
    ensures 0 <= index < |enabled| ==> NextEnabled(enabled, from, step) == Some(index)
    ensures !(0 <= index < |enabled|) ==> NextEnabled(enabled, from, step) == None
  {
    index := from;
    while 0 <= index < |enabled| && !enabled[index]
      invariant NextEnabled(enabled, index, step) == NextEnabled(enabled, from, step)
      decreases if step == 1 then |enabled| - index else index + 1
    {
      index := index + step;
    }
  }

  /** The slice's enumerator: its position and the number of elements it has returned. */
  class Enumerator {
    const enabled: seq<bool>
    const elementCount: int
    const increment: int
    const startingIndex: int
    var currentIndex: int
    var returnedElementCount: int
    ghost var yielded: seq<int>
    ghost var threw: bool
    /** Whether the last call to `MoveNext` moved to an element. */
    ghost var moved: bool

    ghost function Anchor(): int
      reads this
    {
      if yielded == [] then startingIndex - increment else yielded[|yielded| - 1]
    }

    ghost predicate Valid()
      reads this
    {
      && (increment == 1 || increment == -1)
      && returnedElementCount == |yielded|
      && (returnedElementCount == 0 || returnedElementCount <= elementCount)
      && Walk(enabled, startingIndex, increment, |yielded|) == Some(yielded)
      && (!threw && returnedElementCount < elementCount ==> currentIndex == Anchor())
      && (moved ==> yielded != [] && currentIndex == yielded[|yielded| - 1])
    }

    constructor (slice: ResizableElementSlice, enabled: seq<bool>)
      ensures Valid() && !threw && !moved && yielded == []
      ensures this.enabled == enabled && elementCount == slice.length
      ensures startingIndex == slice.startingIndex && increment == slice.Step()
    {
      this.enabled := enabled;
      elementCount := slice.length;
      increment := slice.Step();
      startingIndex := slice.startingIndex;
      currentIndex := slice.startingIndex - slice.Step();
      returnedElementCount := 0;
      yielded := [];
      threw := false;
      moved := false;
    }

    /** The element at the position the last successful `MoveNext` reached. */
    function Current(): (r: int)
      reads this
      requires 0 <= currentIndex < |enabled|
      ensures Valid() && !threw && 0 < returnedElementCount < elementCount ==> r == yielded[|yielded| - 1]
      ensures Valid() && moved ==> r == yielded[|yielded| - 1]
    {
      currentIndex
    }

    /**
     * Advances to the next enabled element. Returns Finished once `length`
     * elements have been yielded, and OutOfRange when the walk leaves the list.
     */
    method MoveNext() returns (r: MoveResult)
      requires Valid() && !threw
      modifies this
      ensures Valid()
      ensures r == Finished <==> old(returnedElementCount) >= elementCount
      ensures r == Moved <==>
                old(returnedElementCount) < elementCount
                && Walk(enabled, startingIndex, increment, old(returnedElementCount) + 1).Some?
      ensures r == Moved ==> 0 <= currentIndex < |enabled| && enabled[Current()]
      ensures r == Moved ==> yielded == old(yielded) + [Current()]
      ensures r != Moved ==> yielded == old(yielded)
      ensures threw <==> r == OutOfRange
      ensures moved <==> r == Moved
    {
      ghost var w := yielded;
      moved := false;
      currentIndex := currentIndex + increment;
      if returnedElementCount >= elementCount {
        return Finished;
      }
      var index := SkipDisabled(enabled, currentIndex, increment);
      WalkStep(enabled, startingIndex, increment, w, index);
      if !(0 <= index < |enabled|) {
        currentIndex := index;
        threw := true;
        return OutOfRange;
      }
      currentIndex := index;
      returnedElementCount := returnedElementCount + 1;
      yielded := w + [index];
      moved := true;
      assert yielded[|yielded| - 1] == index;
      assert Anchor() == index;
      return Moved;
    }
  }

  /**
   * A `foreach` over the slice: the indices it yields in order, or ok == false
   * when the enumeration throws because the list holds too few enabled elements.
   */
  method Enumerate(slice: ResizableElementSlice, enabled: seq<bool>) returns (items: seq<int>, ok: bool)
    ensures ok <==> Walk(enabled, slice.startingIndex, slice.Step(), slice.Yields()).Some?
    ensures ok ==> Walk(enabled, slice.startingIndex, slice.Step(), slice.Yields()) == Some(items)
  {
    var e := new Enumerator(slice, enabled);
    items := [];
    while true
      invariant e.Valid() && !e.threw && items == e.yielded
      invariant e.enabled == enabled && e.elementCount == slice.length
      invariant e.startingIndex == slice.startingIndex && e.increment == slice.Step()
      decreases slice.Yields() - |items|
    {
      var r := e.MoveNext();
      if r == Finished {
        return items, true;
      }
      if r == OutOfRange {
        if Walk(enabled, slice.startingIndex, slice.Step(), slice.Yields()).Some? {
          WalkPrefix(enabled, slice.startingIndex, slice.Step(), |items| + 1, slice.Yields());
        }
        return items, false;
      }
      items := items + [e.Current()];
    }
  }
}
