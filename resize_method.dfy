// The distribution strategies: how a resize amount is spread over the
// elements of one side of a resizer. Each strategy changes the sizes of the
// elements it visits, in visiting order, and returns the amount it applied.
// Every method is proved equal to a function over size vectors; the
// guarantees of the strategies are lemmas about those functions.
module ResizeMethods {
  import opened Sizes
  import opened Harness

  datatype ResizeMethod = None | Cascade | SqueezeExpand | ChangeStackSize

  function Abs(x: real): real {
    if x < 0.0 then -x else x
  }

  function Min(x: real, y: real): real {
    if x <= y then x else y
  }

  function Max(x: real, y: real): real {
    if x >= y then x else y
  }

  /** `applied` has the sign of `requested` and does not exceed it in magnitude. */
  predicate Within(applied: real, requested: real) {
    if requested >= 0.0 then 0.0 <= applied <= requested else requested <= applied <= 0.0
  }

  /**
   * Whether strategy `m`, asked for `amount`, enumerates its slice: on an
   * empty slice that enumeration throws, so a strategy is only ever run on an
   * empty slice when it does not reach it. SqueezeExpand enumerates unless a
   * shrink finds nothing to take, Cascade unless the request is zero, and
   * ChangeStackSize and None never do.
   */
  predicate ReadsSlice(m: ResizeMethod, amount: real, total: real) {
    match m
    case SqueezeExpand => amount > 0.0 || Min(-amount, total) != 0.0
    case Cascade => amount != 0.0
    case ChangeStackSize => false
    case None => false
  }

  /** Every element of `items`, in turn, grows by `delta`. */
  function GrownEach(s: seq<real>, items: seq<int>, delta: real): (t: seq<real>)
    requires InRange(items, |s|)
    ensures |t| == |s|
    decreases |items|
  {
    if items == [] then s
    else GrownEach(s[items[0] := s[items[0]] + delta], items[1..], delta)
  }

  /** The change SqueezeExpand makes to an element with `space` resizable space when shrinking by `reduction` of `total`. */
  function ProportionalShare(space: real, reduction: real, total: real): real
    requires total != 0.0
  {
    -reduction * space / total
  }

  /**
   * Every element of `items`, in turn, gives up the share
   * `reduction * (size - minimum) / total` of its current size.
   */
  function ShrunkProportionally(s: seq<real>, mins: seq<real>, items: seq<int>, reduction: real, total: real): (t: seq<real>)
    requires |s| == |mins| && InRange(items, |s|) && total != 0.0
    ensures |t| == |s|
    decreases |items|
  {
    if items == [] then s
    else
      var k := items[0];
      ShrunkProportionally(s[k := s[k] + ProportionalShare(s[k] - mins[k], reduction, total)], mins, items[1..], reduction, total)
  }

  /** SqueezeExpand: sizes afterwards and the amount applied. */
  function SqueezeExpanded(s: seq<real>, mins: seq<real>, items: seq<int>, amount: real, total: real): (r: (seq<real>, real))
    requires |s| == |mins| && InRange(items, |s|) && (ReadsSlice(SqueezeExpand, amount, total) ==> items != [])
    ensures |r.0| == |s|
  {
    if amount > 0.0 then (GrownEach(s, items, amount / |items| as real), amount)
    else
      var reduction := Min(-amount, total);
      if reduction == 0.0 then (s, 0.0)
      else (ShrunkProportionally(s, mins, items, reduction, total), -reduction)
  }

  /**
   * Cascade shrinking: each element in turn is shrunk towards its minimum by
   * what is still to be taken, until nothing is left; returns the sizes and
   * what is left.
   */
  function CascadeShrunk(s: seq<real>, mins: seq<real>, items: seq<int>, remaining: real): (r: (seq<real>, real))
    requires |s| == |mins| && InRange(items, |s|)
    ensures |r.0| == |s|
    decreases |items|
  {
    if items == [] then (s, remaining)
    else
      var k := items[0];
      var newSize := ClampedSize(s[k], mins[k], -remaining);
      var left := remaining - -(newSize - s[k]);
      if left <= 0.0 then (s[k := newSize], left)
      else CascadeShrunk(s[k := newSize], mins, items[1..], left)
  }

  /** Cascade: sizes afterwards and the amount applied. */
  function Cascaded(s: seq<real>, mins: seq<real>, items: seq<int>, amount: real): (r: (seq<real>, real))
    requires |s| == |mins| && InRange(items, |s|) && (amount != 0.0 ==> items != [])
    ensures |r.0| == |s|
  {
    if amount == 0.0 then (s, 0.0)
    else if amount > 0.0 then (s[items[0] := s[items[0]] + amount], amount)
    else
      var shrunk := CascadeShrunk(s, mins, items, -amount);
      (shrunk.0, amount + shrunk.1)
  }

  /** ChangeStackSize touches no element: the stack absorbs the change, shrinking by at most `spaceToExpandInto`. */
  function RunChangeStackSize(amount: real, spaceToExpandInto: real): (r: real)
    ensures r >= amount && r >= -spaceToExpandInto
    ensures r == amount || r == -spaceToExpandInto
  {
    Max(amount, -spaceToExpandInto)
  }

  /** Any strategy: sizes afterwards and the amount applied. */
  function MethodOutcome(m: ResizeMethod, s: seq<real>, mins: seq<real>, items: seq<int>,
                         amount: real, total: real, expand: real): (r: (seq<real>, real))
    requires |s| == |mins| && InRange(items, |s|) && (ReadsSlice(m, amount, total) ==> items != [])
    ensures |r.0| == |s|
  {
    match m
    case SqueezeExpand => SqueezeExpanded(s, mins, items, amount, total)
    case Cascade => Cascaded(s, mins, items, amount)
    case ChangeStackSize => (s, RunChangeStackSize(amount, expand))
    case None => (s, 0.0)
  }

  /**
   * Whether running `methods` on an empty slice, `done` of `amount` being
   * applied already, reaches a strategy that enumerates the slice. On an empty
   * slice no element changes and only ChangeStackSize applies anything.
   */
  predicate ReachesSlice(methods: seq<ResizeMethod>, amount: real, total: real, expand: real, done: real)
    decreases |methods|
  {
    if methods == [] then false
    else if ReadsSlice(methods[0], amount - done, total) then true
    else
      var applied := if methods[0] == ChangeStackSize then RunChangeStackSize(amount - done, expand) else 0.0;
      Abs(done + applied) < Abs(amount) && ReachesSlice(methods[1..], amount, total, expand, done + applied)
  }

  /**
   * A sequence of strategies: each is given what is still unapplied, until
   * the applied amount reaches the requested one in magnitude.
   */
  function MethodsOutcome(methods: seq<ResizeMethod>, s: seq<real>, mins: seq<real>, items: seq<int>,
                          amount: real, total: real, expand: real, done: real): (r: (seq<real>, real))
    requires |s| == |mins| && InRange(items, |s|)
    requires items == [] ==> !ReachesSlice(methods, amount, total, expand, done)
    ensures |r.0| == |s|
    decreases |methods|
  {
    if methods == [] then (s, done)
    else
      var (t, applied) := MethodOutcome(methods[0], s, mins, items, amount - done, total, expand);
      if Abs(done + applied) >= Abs(amount) then (t, done + applied)
      else MethodsOutcome(methods[1..], t, mins, items, amount, total, expand, done + applied)
  }

  // ---------------------------------------------------------------------
  // The strategies as they run against the harness.

  method RunSqueezeExpand(h: Stack, items: seq<int>, amount: real, totalResizeSpace: real) returns (applied: real)
    requires h.Valid() && InRange(items, h.sizes.Length) && (ReadsSlice(SqueezeExpand, amount, totalResizeSpace) ==> items != [])
    modifies h.sizes
    ensures (h.sizes[..], applied) == SqueezeExpanded(old(h.sizes[..]), h.minimums, items, amount, totalResizeSpace)
  {
    if amount > 0.0 {
      var resizedControlCount := |items|;
      var share := amount / resizedControlCount as real;
      var i := 0;
      while i < |items|
        invariant 0 <= i <= |items|
        invariant GrownEach(h.sizes[..], items[i..], share) == GrownEach(old(h.sizes[..]), items, share)
      {
        assert items[i..][1..] == items[i + 1..];
        h.ChangeSize(items[i], share);
        i := i + 1;
      }
      return amount;
    }

    var sizeReductionAmount := Min(-amount, totalResizeSpace);
    if sizeReductionAmount == 0.0 {
      return 0.0;
    }

    var i := 0;
    while i < |items|
      invariant 0 <= i <= |items|
      invariant ShrunkProportionally(h.sizes[..], h.minimums, items[i..], sizeReductionAmount, totalResizeSpace)
                == ShrunkProportionally(old(h.sizes[..]), h.minimums, items, sizeReductionAmount, totalResizeSpace)
    {
      assert items[i..][1..] == items[i + 1..];
      var controlResizableSpace := h.GetResizableSpace(items[i]);
      h.ChangeSize(items[i], ProportionalShare(controlResizableSpace, sizeReductionAmount, totalResizeSpace));
      i := i + 1;
    }
    return -sizeReductionAmount;
  }

  method RunCascade(h: Stack, items: seq<int>, amount: real) returns (applied: real)
    requires h.Valid() && InRange(items, h.sizes.Length) && (amount != 0.0 ==> items != [])
    modifies h.sizes
    ensures (h.sizes[..], applied) == Cascaded(old(h.sizes[..]), h.minimums, items, amount)
  {
    if amount == 0.0 {
      return 0.0;
    }
    if amount > 0.0 {
      h.ChangeSize(items[0], amount);
      return amount;
    }

    var remainingReductionAmount := -amount;
    var i := 0;
    while i < |items|
      invariant 0 <= i <= |items|
      invariant CascadeShrunk(h.sizes[..], h.minimums, items[i..], remainingReductionAmount)
                == CascadeShrunk(old(h.sizes[..]), h.minimums, items, -amount)
    {
      assert items[i..][1..] == items[i + 1..];
      var sizeDecrease := h.TryResize(items[i], -remainingReductionAmount);
      sizeDecrease := -sizeDecrease;
      remainingReductionAmount := remainingReductionAmount - sizeDecrease;
      if remainingReductionAmount <= 0.0 {
        break;
      }
      i := i + 1;
    }
    return amount + remainingReductionAmount;
  }

  method RunMethod(m: ResizeMethod, h: Stack, items: seq<int>, amount: real, totalResizeSpace: real, spaceToExpandInto: real)
    returns (applied: real)
    requires h.Valid() && InRange(items, h.sizes.Length) && (ReadsSlice(m, amount, totalResizeSpace) ==> items != [])
    modifies h.sizes
    ensures (h.sizes[..], applied) == MethodOutcome(m, old(h.sizes[..]), h.minimums, items, amount, totalResizeSpace, spaceToExpandInto)
  {
    match m
    case SqueezeExpand =>
      applied := RunSqueezeExpand(h, items, amount, totalResizeSpace);
    case Cascade =>
      applied := RunCascade(h, items, amount);
    case ChangeStackSize =>
      applied := RunChangeStackSize(amount, spaceToExpandInto);
    case None =>
      applied := 0.0;
  }

  method RunMethods(methods: seq<ResizeMethod>, h: Stack, items: seq<int>, amount: real, totalResizeSpace: real, spaceToExpandInto: real)
    returns (successful: real)
    requires h.Valid() && InRange(items, h.sizes.Length)
    requires items == [] ==> !ReachesSlice(methods, amount, totalResizeSpace, spaceToExpandInto, 0.0)
    modifies h.sizes
    ensures (h.sizes[..], successful)
            == MethodsOutcome(methods, old(h.sizes[..]), h.minimums, items, amount, totalResizeSpace, spaceToExpandInto, 0.0)
  {
    successful := 0.0;
    var i := 0;
    while i < |methods|
      invariant 0 <= i <= |methods|
      invariant items == [] ==> !ReachesSlice(methods[i..], amount, totalResizeSpace, spaceToExpandInto, successful)
      invariant MethodsOutcome(methods[i..], h.sizes[..], h.minimums, items, amount, totalResizeSpace, spaceToExpandInto, successful)
                == MethodsOutcome(methods, old(h.sizes[..]), h.minimums, items, amount, totalResizeSpace, spaceToExpandInto, 0.0)
    {
      assert methods[i..][1..] == methods[i + 1..];
      var applied := RunMethod(methods[i], h, items, amount - successful, totalResizeSpace, spaceToExpandInto);
      successful := successful + applied;
      if Abs(successful) >= Abs(amount) {
        break;
      }
      i := i + 1;
    }
  }

  // ---------------------------------------------------------------------
  // What the strategies guarantee.

  /** Growing the visited elements leaves an element that is not visited alone. */
  lemma {:induction false} GrownEachKeepsFrame(s: seq<real>, items: seq<int>, delta: real, k: int)
    requires InRange(items, |s|) && 0 <= k < |s|
    requires forall j :: 0 <= j < |items| ==> items[j] != k
    ensures GrownEach(s, items, delta)[k] == s[k]
    decreases |items|
  {
    if items != [] {
      GrownEachKeepsFrame(s[items[0] := s[items[0]] + delta], items[1..], delta, k);
    }
  }

  /** Growing every element by `delta` grows the stack by `delta` per visit. */
  lemma {:induction false} GrownEachSum(s: seq<real>, items: seq<int>, delta: real)
    requires InRange(items, |s|)
    ensures Sum(GrownEach(s, items, delta)) == Sum(s) + |items| as real * delta
    decreases |items|
  {
    if items != [] {
      var k := items[0];
      var s' := s[k := s[k] + delta];
      assert GrownEach(s, items, delta) == GrownEach(s', items[1..], delta);
      GrownEachSum(s', items[1..], delta);
      SumUpdate(s, k, s[k] + delta);
      OneMoreShare(|items[1..]|, delta);
    }
  }

  /** n + 1 shares of `delta` are n shares and one more. */
  lemma OneMoreShare(n: nat, delta: real)
    ensures (n + 1) as real * delta == n as real * delta + delta
  {
  }

  /**
   * Growing every element of a slice by `delta` grows the stack by `delta`
   * per element, grows each element by exactly `delta` and touches no other.
   */
  lemma {:induction false} GrownEachEffect(s: seq<real>, items: seq<int>, delta: real)
    requires InRange(items, |s|) && Distinct(items)
    ensures var t := GrownEach(s, items, delta);
            && Sum(t) == Sum(s) + |items| as real * delta
            && SameOutside(s, t, items)
            && forall i :: 0 <= i < |items| ==> t[items[i]] == s[items[i]] + delta
    decreases |items|
  {
    GrownEachSum(s, items, delta);
    var t := GrownEach(s, items, delta);
    forall j | 0 <= j < |s| && j !in items
      ensures s[j] == t[j]
    {
      GrownEachKeepsFrame(s, items, delta, j);
    }
    if items != [] {
      var k := items[0];
      var s' := s[k := s[k] + delta];
      var rest := items[1..];
      assert Distinct(rest) by {
        forall i, j | 0 <= i < j < |rest| ensures rest[i] != rest[j] {
          assert rest[i] == items[i + 1] && rest[j] == items[j + 1];
        }
      }
      GrownEachEffect(s', rest, delta);
      forall j | 0 <= j < |rest| ensures rest[j] != k {
        assert rest[j] == items[j + 1];
      }
      GrownEachKeepsFrame(s', rest, delta, k);
      forall i | 0 <= i < |items|
        ensures t[items[i]] == s[items[i]] + delta
      {
        if i > 0 {
          assert items[i] == rest[i - 1];
        }
      }
    }
  }

  /** A share of at most 100% of an element's resizable space leaves it at or above its minimum. */
  lemma ShareBounded(space: real, reduction: real, total: real)
    requires total != 0.0 && (reduction == total || 0.0 < reduction <= total) && 0.0 <= space
    ensures -space <= ProportionalShare(space, reduction, total) <= 0.0
  {
    if reduction == total {
      assert ProportionalShare(space, reduction, total) == -space;
    } else {
      assert reduction * space <= total * space;
      assert reduction * space / total <= space;
    }
  }

  /** The share of the whole space is the whole reduction. */
  lemma ShareOfWhole(reduction: real, total: real)
    requires total != 0.0
    ensures ProportionalShare(total, reduction, total) == -reduction
  {
    calc {
      ProportionalShare(total, reduction, total);
      -reduction * total / total;
      { assert (-reduction * total) / total == -reduction * (total / total); }
      -reduction;
    }
  }

  /** An even split of `amount` over `n` elements adds back up to `amount`. */
  lemma EvenSplit(amount: real, n: nat)
    requires n > 0
    ensures n as real * (amount / n as real) == amount
  {
  }

  /** Shares of the same reduction add up. */
  lemma ShareAdditive(a: real, b: real, reduction: real, total: real)
    requires total != 0.0
    ensures ProportionalShare(a, reduction, total) + ProportionalShare(b, reduction, total)
            == ProportionalShare(a + b, reduction, total)
  {
  }

  /** Proportional shrinking touches only the visited elements and never takes an element below its minimum. */
  lemma {:induction false} ShrunkKeepsMinimums(s: seq<real>, mins: seq<real>, items: seq<int>, reduction: real, total: real)
    requires |s| == |mins| && InRange(items, |s|) && total != 0.0
    requires reduction == total || 0.0 < reduction <= total
    requires AtLeastMinimums(s, mins)
    ensures var t := ShrunkProportionally(s, mins, items, reduction, total);
            AtLeastMinimums(t, mins) && SameOutside(s, t, items)
    decreases |items|
  {
    if items != [] {
      var k := items[0];
      ShareBounded(s[k] - mins[k], reduction, total);
      var s' := s[k := s[k] + ProportionalShare(s[k] - mins[k], reduction, total)];
      ShrunkKeepsMinimums(s', mins, items[1..], reduction, total);
      var t := ShrunkProportionally(s, mins, items, reduction, total);
      forall j | 0 <= j < |s| && j !in items
        ensures s[j] == t[j]
      {
        assert j !in items[1..];
      }
    }
  }

  /**
   * Over distinct elements, proportional shrinking gives each element the
   * share of its own resizable space, so the stack shrinks by the reduction
   * times the slice's resizable space over `total`.
   */
  lemma {:induction false} ShrunkEffect(s: seq<real>, mins: seq<real>, items: seq<int>, reduction: real, total: real)
    requires |s| == |mins| && InRange(items, |s|) && total != 0.0 && Distinct(items)
    ensures var t := ShrunkProportionally(s, mins, items, reduction, total);
            && Sum(t) == Sum(s) + ProportionalShare(SumSpaces(s, mins, items), reduction, total)
            && forall i :: 0 <= i < |items| ==>
                 t[items[i]] == s[items[i]] + ProportionalShare(s[items[i]] - mins[items[i]], reduction, total)
    decreases |items|
  {
    if items == [] {
      assert ProportionalShare(0.0, reduction, total) == 0.0;
    } else {
      var k := items[0];
      var share := ProportionalShare(s[k] - mins[k], reduction, total);
      var s' := s[k := s[k] + share];
      var rest := items[1..];
      assert Distinct(rest) by {
        forall i, j | 0 <= i < j < |rest| ensures rest[i] != rest[j] {
          assert rest[i] == items[i + 1] && rest[j] == items[j + 1];
        }
      }
      forall j | 0 <= j < |rest| ensures rest[j] != k {
        assert rest[j] == items[j + 1];
      }
      ShrunkEffect(s', mins, rest, reduction, total);
      SumUpdate(s, k, s[k] + share);
      SumSpacesFrame(s, s', mins, rest);
      ShareAdditive(s[k] - mins[k], SumSpaces(s, mins, rest), reduction, total);
      var t := ShrunkProportionally(s, mins, items, reduction, total);
      ShrunkKeepsFrame(s', mins, rest, reduction, total, k);
      forall i | 0 <= i < |items|
        ensures t[items[i]] == s[items[i]] + ProportionalShare(s[items[i]] - mins[items[i]], reduction, total)
      {
        if i > 0 {
          assert items[i] == rest[i - 1];
        }
      }
    }
  }

  /** Proportional shrinking leaves an element it does not visit alone. */
  lemma {:induction false} ShrunkKeepsFrame(s: seq<real>, mins: seq<real>, items: seq<int>, reduction: real, total: real, k: int)
    requires |s| == |mins| && InRange(items, |s|) && total != 0.0 && 0 <= k < |s|
    requires forall j :: 0 <= j < |items| ==> items[j] != k
    ensures ShrunkProportionally(s, mins, items, reduction, total)[k] == s[k]
    decreases |items|
  {
    if items != [] {
      var s' := s[items[0] := s[items[0]] + ProportionalShare(s[items[0]] - mins[items[0]], reduction, total)];
      ShrunkKeepsFrame(s', mins, items[1..], reduction, total, k);
    }
  }

  /** Growing by a non-negative amount never makes an element smaller, and touches only visited elements. */
  lemma {:induction false} GrownEachGrows(s: seq<real>, items: seq<int>, delta: real)
    requires InRange(items, |s|) && 0.0 <= delta
    ensures var t := GrownEach(s, items, delta);
            (forall j :: 0 <= j < |s| ==> s[j] <= t[j]) && SameOutside(s, t, items)
    decreases |items|
  {
    if items != [] {
      var s' := s[items[0] := s[items[0]] + delta];
      GrownEachGrows(s', items[1..], delta);
      var t := GrownEach(s, items, delta);
      forall j | 0 <= j < |s| && j !in items
        ensures s[j] == t[j]
      {
        assert j !in items[1..];
      }
    }
  }

  /**
   * Cascade shrinking takes from the elements in turn what each can give, so
   * what is left lies between nothing and what was asked, the stack shrinks by
   * exactly what was taken, and no element drops below its minimum.
   */
  lemma {:induction false} CascadeShrunkBounds(s: seq<real>, mins: seq<real>, items: seq<int>, remaining: real)
    requires |s| == |mins| && InRange(items, |s|) && AtLeastMinimums(s, mins) && 0.0 <= remaining
    ensures var (t, left) := CascadeShrunk(s, mins, items, remaining);
            && 0.0 <= left <= remaining
            && Sum(t) == Sum(s) - (remaining - left)
            && AtLeastMinimums(t, mins)
            && SameOutside(s, t, items)
    decreases |items|
  {
    if items != [] {
      var k := items[0];
      var newSize := ClampedSize(s[k], mins[k], -remaining);
      var left := remaining - -(newSize - s[k]);
      var s' := s[k := newSize];
      SumUpdate(s, k, newSize);
      if left > 0.0 {
        CascadeShrunkBounds(s', mins, items[1..], left);
        var t := CascadeShrunk(s, mins, items, remaining).0;
        forall j | 0 <= j < |s| && j !in items
          ensures s[j] == t[j]
        {
          assert j !in items[1..];
        }
      }
    }
  }

  /**
   * Over distinct elements in a consistent state, Cascade shrinking leaves
   * exactly what the slice's resizable space cannot cover.
   */
  lemma {:induction false} CascadeShrunkExact(s: seq<real>, mins: seq<real>, items: seq<int>, remaining: real)
    requires |s| == |mins| && InRange(items, |s|) && AtLeastMinimums(s, mins) && Distinct(items)
    requires 0.0 < remaining
    ensures CascadeShrunk(s, mins, items, remaining).1 == Max(0.0, remaining - SumSpaces(s, mins, items))
    decreases |items|
  {
    if items != [] {
      var k := items[0];
      var rest := items[1..];
      var newSize := ClampedSize(s[k], mins[k], -remaining);
      var left := remaining - -(newSize - s[k]);
      var s' := s[k := newSize];
      if left <= 0.0 {
        SumSpacesNonNegative(s, mins, rest);
      } else {
        assert Distinct(rest) by {
          forall i, j | 0 <= i < j < |rest| ensures rest[i] != rest[j] {
            assert rest[i] == items[i + 1] && rest[j] == items[j + 1];
          }
        }
        forall j | 0 <= j < |rest| ensures s[rest[j]] == s'[rest[j]] {
          assert rest[j] == items[j + 1];
        }
        SumSpacesFrame(s, s', mins, rest);
        CascadeShrunkExact(s', mins, rest, left);
      }
    }
  }

  /**
   * Every strategy keeps a consistent state consistent and changes only the
   * slice's elements; None and ChangeStackSize change no element at all. With
   * non-negative space figures, the amount applied has the sign of the
   * request and never exceeds it.
   */
  lemma StrategyIsSafe(m: ResizeMethod, s: seq<real>, mins: seq<real>, items: seq<int>,
                       amount: real, total: real, expand: real)
    requires |s| == |mins| && InRange(items, |s|) && (ReadsSlice(m, amount, total) ==> items != [])
    requires AtLeastMinimums(s, mins)
    ensures var (t, applied) := MethodOutcome(m, s, mins, items, amount, total, expand);
            && AtLeastMinimums(t, mins)
            && SameOutside(s, t, items)
            && (m == ResizeMethod.None || m == ChangeStackSize ==> t == s)
            && (0.0 <= total && 0.0 <= expand ==> Within(applied, amount))
  {
    match m
    case SqueezeExpand => SqueezeExpandIsSafe(s, mins, items, amount, total);
    case Cascade => CascadeIsSafe(s, mins, items, amount);
    case ChangeStackSize =>
    case None =>
  }

  /** SqueezeExpand keeps every element at or above its minimum and changes only the slice. */
  lemma SqueezeExpandIsSafe(s: seq<real>, mins: seq<real>, items: seq<int>, amount: real, total: real)
    requires |s| == |mins| && InRange(items, |s|) && (ReadsSlice(SqueezeExpand, amount, total) ==> items != [])
    requires AtLeastMinimums(s, mins)
    ensures var (t, applied) := SqueezeExpanded(s, mins, items, amount, total);
            && AtLeastMinimums(t, mins)
            && SameOutside(s, t, items)
            && (0.0 <= total ==> Within(applied, amount))
  {
    if amount > 0.0 {
      GrownEachGrows(s, items, amount / |items| as real);
    } else {
      var reduction := Min(-amount, total);
      if reduction != 0.0 {
        ShrunkKeepsMinimums(s, mins, items, reduction, total);
      }
    }
  }

  /** Cascade keeps every element at or above its minimum and changes only the slice. */
  lemma CascadeIsSafe(s: seq<real>, mins: seq<real>, items: seq<int>, amount: real)
    requires |s| == |mins| && InRange(items, |s|) && (amount != 0.0 ==> items != [])
    requires AtLeastMinimums(s, mins)
    ensures var (t, applied) := Cascaded(s, mins, items, amount);
            && AtLeastMinimums(t, mins)
            && SameOutside(s, t, items)
            && Within(applied, amount)
  {
    if amount < 0.0 {
      CascadeShrunkBounds(s, mins, items, -amount);
      var shrunk := CascadeShrunk(s, mins, items, -amount);
      var c := Cascaded(s, mins, items, amount);
      assert c.0 == shrunk.0 && c.1 == amount + shrunk.1;
    } else if amount > 0.0 {
      var t := Cascaded(s, mins, items, amount).0;
      assert t == s[items[0] := s[items[0]] + amount];
      forall j | 0 <= j < |s| && j !in items
        ensures s[j] == t[j]
      {
        assert j != items[0];
      }
    }
  }

  /** SqueezeExpand growth: every element grows by an even share and the stack by the whole amount. */
  lemma SqueezeExpandGrowth(s: seq<real>, items: seq<int>, amount: real)
    requires InRange(items, |s|) && items != [] && amount > 0.0
    ensures Sum(GrownEach(s, items, amount / |items| as real)) == Sum(s) + amount
  {
    GrownEachSum(s, items, amount / |items| as real);
    EvenSplit(amount, |items|);
  }

  /**
   * SqueezeExpand shrinking by a non-zero part of the slice's true resizable
   * space over distinct elements shrinks the stack by exactly that part.
   */
  lemma SqueezeExpandShrink(s: seq<real>, mins: seq<real>, items: seq<int>, reduction: real)
    requires |s| == |mins| && InRange(items, |s|) && Distinct(items)
    requires SumSpaces(s, mins, items) != 0.0
    ensures Sum(ShrunkProportionally(s, mins, items, reduction, SumSpaces(s, mins, items))) == Sum(s) - reduction
  {
    var total := SumSpaces(s, mins, items);
    ShrunkEffect(s, mins, items, reduction, total);
    ShareOfWhole(reduction, total);
  }

  /**
   * SqueezeExpand, told the slice's true resizable space, over distinct
   * elements of a consistent state: a growth is applied in full, a shrink up
   * to that space, and the stack changes by exactly what it reports.
   */
  lemma SqueezeExpandConservesSpace(s: seq<real>, mins: seq<real>, items: seq<int>, amount: real)
    requires |s| == |mins| && InRange(items, |s|)
    requires ReadsSlice(SqueezeExpand, amount, SumSpaces(s, mins, items)) ==> items != []
    requires AtLeastMinimums(s, mins) && Distinct(items)
    ensures var total := SumSpaces(s, mins, items);
            var (t, applied) := SqueezeExpanded(s, mins, items, amount, total);
            && Sum(t) == Sum(s) + applied
            && (amount >= 0.0 ==> applied == amount)
            && (amount < 0.0 ==> applied == -Min(-amount, total))
  {
    var total := SumSpaces(s, mins, items);
    SumSpacesNonNegative(s, mins, items);
    if amount > 0.0 {
      SqueezeExpandGrowth(s, items, amount);
    } else if Min(-amount, total) != 0.0 {
      SqueezeExpandShrink(s, mins, items, Min(-amount, total));
    }
  }

  /**
   * Cascade over distinct elements of a consistent state: a growth is applied
   * in full to the slice's first element only, a shrink up to the slice's
   * resizable space, and the stack changes by exactly what it reports.
   */
  lemma CascadeConservesSpace(s: seq<real>, mins: seq<real>, items: seq<int>, amount: real)
    requires |s| == |mins| && InRange(items, |s|) && (amount != 0.0 ==> items != [])
    requires AtLeastMinimums(s, mins) && Distinct(items)
    ensures var (t, applied) := Cascaded(s, mins, items, amount);
            && Sum(t) == Sum(s) + applied
            && (amount >= 0.0 ==> applied == amount)
            && (amount < 0.0 ==> applied == -Min(-amount, SumSpaces(s, mins, items)))
            && (amount > 0.0 ==> SameOutside(s, t, items[..1]))
  {
    if amount < 0.0 {
      CascadeShrinkConserves(s, mins, items, amount);
    } else if amount > 0.0 {
      CascadeGrowthConserves(s, mins, items, amount);
    }
  }

  /** A Cascade shrink takes up to the slice's resizable space, and the stack shrinks by what it took. */
  lemma CascadeShrinkConserves(s: seq<real>, mins: seq<real>, items: seq<int>, amount: real)
    requires |s| == |mins| && InRange(items, |s|) && items != [] && amount < 0.0
    requires AtLeastMinimums(s, mins) && Distinct(items)
    ensures var (t, applied) := Cascaded(s, mins, items, amount);
            && Sum(t) == Sum(s) + applied
            && applied == -Min(-amount, SumSpaces(s, mins, items))
  {
    var shrunk := CascadeShrunk(s, mins, items, -amount);
    CascadeShrunkBounds(s, mins, items, -amount);
    CascadeShrunkExact(s, mins, items, -amount);
    var c := Cascaded(s, mins, items, amount);
    assert c.0 == shrunk.0 && c.1 == amount + shrunk.1;
    assert Sum(shrunk.0) == Sum(s) + (amount + shrunk.1);
  }

  /** A Cascade growth goes in full to the slice's first element, and the stack grows by it. */
  lemma CascadeGrowthConserves(s: seq<real>, mins: seq<real>, items: seq<int>, amount: real)
    requires |s| == |mins| && InRange(items, |s|) && items != [] && amount > 0.0
    ensures var (t, applied) := Cascaded(s, mins, items, amount);
            && Sum(t) == Sum(s) + applied
            && applied == amount
            && SameOutside(s, t, items[..1])
  {
    var t := Cascaded(s, mins, items, amount).0;
    assert t == s[items[0] := s[items[0]] + amount];
    SumUpdate(s, items[0], s[items[0]] + amount);
    forall j | 0 <= j < |s| && j !in items[..1]
      ensures s[j] == t[j]
    {
      assert items[..1] == [items[0]];
    }
  }

  /**
   * Cascade, or SqueezeExpand told the slice's true resizable space, over
   * distinct elements of a consistent state: the stack changes by exactly
   * the amount applied, a growth is applied in full and a shrink up to the
   * slice's resizable space.
   */
  lemma StrategyConservesSpace(m: ResizeMethod, s: seq<real>, mins: seq<real>, items: seq<int>,
                               amount: real, total: real, expand: real)
    requires |s| == |mins| && InRange(items, |s|) && (ReadsSlice(m, amount, total) ==> items != [])
    requires AtLeastMinimums(s, mins) && Distinct(items)
    requires m == Cascade || m == SqueezeExpand
    requires total == SumSpaces(s, mins, items)
    ensures var (t, applied) := MethodOutcome(m, s, mins, items, amount, total, expand);
            && Sum(t) == Sum(s) + applied
            && (amount >= 0.0 ==> applied == amount)
            && (amount < 0.0 ==> applied == -Min(-amount, total))
  {
    if m == Cascade {
      CascadeConservesSpace(s, mins, items, amount);
    } else {
      SqueezeExpandConservesSpace(s, mins, items, amount);
    }
  }

  /** A zero request, or a SqueezeExpand shrink with no space to take from, changes nothing and applies nothing. */
  lemma StrategyIdle(m: ResizeMethod, s: seq<real>, mins: seq<real>, items: seq<int>,
                     amount: real, total: real, expand: real)
    requires |s| == |mins| && InRange(items, |s|)
    requires 0.0 <= total && 0.0 <= expand
    requires amount == 0.0 || (m == SqueezeExpand && amount < 0.0 && total == 0.0)
    ensures MethodOutcome(m, s, mins, items, amount, total, expand) == (s, 0.0)
  {
  }

  /**
   * On an empty slice that no strategy enumerates, no element changes and the
   * applied amount is whatever ChangeStackSize takes on; without
   * ChangeStackSize, nothing is applied.
   */
  lemma {:induction false} EmptySliceRunKeepsSizes(methods: seq<ResizeMethod>, s: seq<real>, mins: seq<real>,
                                                   amount: real, total: real, expand: real, done: real)
    requires |s| == |mins| && !ReachesSlice(methods, amount, total, expand, done)
    ensures MethodsOutcome(methods, s, mins, [], amount, total, expand, done).0 == s
    ensures ChangeStackSize !in methods ==> MethodsOutcome(methods, s, mins, [], amount, total, expand, done).1 == done
    decreases |methods|
  {
    if methods != [] {
      var applied := MethodOutcome(methods[0], s, mins, [], amount - done, total, expand).1;
      if Abs(done + applied) < Abs(amount) {
        assert ChangeStackSize !in methods ==> ChangeStackSize !in methods[1..];
        EmptySliceRunKeepsSizes(methods[1..], s, mins, amount, total, expand, done + applied);
      }
    }
  }

  /**
   * Running strategies one after another, each on what is still unapplied,
   * keeps the state consistent, changes only the slice, and never applies more
   * than was requested or in the opposite direction.
   */
  lemma {:induction false} MethodsWithinRequest(methods: seq<ResizeMethod>, s: seq<real>, mins: seq<real>, items: seq<int>,
                                                amount: real, total: real, expand: real, done: real)
    requires |s| == |mins| && InRange(items, |s|)
    requires items == [] ==> !ReachesSlice(methods, amount, total, expand, done)
    requires AtLeastMinimums(s, mins) && 0.0 <= total && 0.0 <= expand && Within(done, amount)
    ensures var (t, applied) := MethodsOutcome(methods, s, mins, items, amount, total, expand, done);
            && Within(applied, amount)
            && AtLeastMinimums(t, mins)
            && SameOutside(s, t, items)
    decreases |methods|
  {
    if methods != [] {
      var (t, applied) := MethodOutcome(methods[0], s, mins, items, amount - done, total, expand);
      StrategyIsSafe(methods[0], s, mins, items, amount - done, total, expand);
      if Abs(done + applied) < Abs(amount) {
        MethodsWithinRequest(methods[1..], t, mins, items, amount, total, expand, done + applied);
      }
    }
  }
}
