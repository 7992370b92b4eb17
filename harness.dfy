// The resizing harness: the host's view of a stack of elements, each with a
// current size, a minimum size and an enabled flag, and the three derived
// operations every distribution strategy is built from.
module Harness {
  import opened Sizes

  /** The size `TryResize` commits: the requested size, but never below the minimum. */
  function ClampedSize(size: real, minimum: real, delta: real): (r: real)
    ensures minimum <= r && size + delta <= r
    ensures r == size + delta || r == minimum
    ensures minimum <= size + delta ==> r == size + delta
    ensures minimum <= size && delta <= 0.0 ==> delta <= r - size <= 0.0
  {
    if minimum >= size + delta then minimum else size + delta
  }

  /**
   * The elements of one stack as the harness sees them: sizes are written by
   * the strategies, minimum sizes and enabled flags are fixed for a layout pass.
   */
  class Stack {
    var sizes: array<real>
    const minimums: seq<real>
    const enabled: seq<bool>

    ghost predicate Valid()
      reads this
    {
      sizes.Length == |minimums| == |enabled|
    }

    constructor (initial: seq<real>, minimums: seq<real>, enabled: seq<bool>)
      requires |initial| == |minimums| == |enabled|
      ensures Valid() && fresh(sizes)
      ensures sizes[..] == initial && this.minimums == minimums && this.enabled == enabled
    {
      sizes := new real[|initial|](k requires 0 <= k < |initial| => initial[k]);
      this.minimums := minimums;
      this.enabled := enabled;
    }

    /** How far element k can shrink before it reaches its minimum size. */
    function GetResizableSpace(k: int): (r: real)
      reads this, sizes
      requires Valid() && 0 <= k < sizes.Length
      ensures minimums[k] + r == sizes[k]
      ensures 0.0 <= r <==> minimums[k] <= sizes[k]
    {
      sizes[k] - minimums[k]
    }

    /** Grows (or shrinks) element k by `change`, without any clamping. */
    method ChangeSize(k: int, change: real)
      requires Valid() && 0 <= k < sizes.Length
      modifies sizes
      ensures sizes[..] == old(sizes[..])[k := old(sizes[k]) + change]
    {
      sizes[k] := sizes[k] + change;
    }

    /** Resizes element k by `change`, clamped at its minimum; returns the change applied. */
    method TryResize(k: int, change: real) returns (applied: real)
      requires Valid() && 0 <= k < sizes.Length
      modifies sizes
      ensures sizes[..] == old(sizes[..])[k := ClampedSize(old(sizes[k]), minimums[k], change)]
      ensures applied == sizes[k] - old(sizes[k])
    {
      var originalSize := sizes[k];
      var newSize := if minimums[k] >= originalSize + change then minimums[k] else originalSize + change;
      sizes[k] := newSize;
      applied := newSize - originalSize;
    }
  }
}
