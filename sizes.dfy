// Value-level views of the sizes that a resizing harness reads and writes.
// Element k of a stack of n elements is addressed by its index k; a slice of
// the stack is the sequence of indices it visits, in visiting order.
module Sizes {

  datatype Option<T> = None | Some(value: T)

  /** Every index in `items` addresses an element of a stack of `n` elements. */
  predicate InRange(items: seq<int>, n: int) {
    forall i :: 0 <= i < |items| ==> 0 <= items[i] < n
  }

  /** No element is visited twice. */
  predicate Distinct(items: seq<int>) {
    forall i, j :: 0 <= i < j < |items| ==> items[i] != items[j]
  }

  /** No element is visited by both slices. */
  predicate Disjoint(xs: seq<int>, ys: seq<int>) {
    forall i, j :: 0 <= i < |xs| && 0 <= j < |ys| ==> xs[i] != ys[j]
  }

  /** The consistent state: no element is below its minimum size. */
  predicate AtLeastMinimums(s: seq<real>, mins: seq<real>)
    requires |s| == |mins|
  {
    forall k :: 0 <= k < |s| ==> mins[k] <= s[k]
  }

  /** Two size vectors agree on every element outside `items`. */
  predicate SameOutside(s: seq<real>, t: seq<real>, items: seq<int>)
    requires |s| == |t|
  {
    forall k :: 0 <= k < |s| && k !in items ==> s[k] == t[k]
  }

  /** Total size of the stack. */
  function Sum(s: seq<real>): real {
    if s == [] then 0.0 else s[0] + Sum(s[1..])
  }

  /** Total resizable space (size minus minimum) of the elements in `items`. */
  function SumSpaces(s: seq<real>, mins: seq<real>, items: seq<int>): real
    requires |s| == |mins| && InRange(items, |s|)
  {
    if items == [] then 0.0
    else (s[items[0]] - mins[items[0]]) + SumSpaces(s, mins, items[1..])
  }

  /** Cumulative resizable space of the first `m` elements of the stack. */
  function Prefix(s: seq<real>, mins: seq<real>, m: int): real
    requires |s| == |mins| && 0 <= m <= |s|
  {
    if m == 0 then 0.0 else Prefix(s, mins, m - 1) + (s[m - 1] - mins[m - 1])
  }

  /** Changing one element changes the total by exactly the difference. */
  lemma {:induction false} SumUpdate(s: seq<real>, k: int, v: real)
    requires 0 <= k < |s|
    ensures Sum(s[k := v]) == Sum(s) - s[k] + v
  {
    if k == 0 {
      assert s[k := v][1..] == s[1..];
    } else {
      SumUpdate(s[1..], k - 1, v);
      assert s[k := v][1..] == s[1..][k - 1 := v];
    }
  }

  /** The resizable space of a slice only depends on the elements it visits. */
  lemma {:induction false} SumSpacesFrame(s: seq<real>, t: seq<real>, mins: seq<real>, items: seq<int>)
    requires |s| == |t| == |mins| && InRange(items, |s|)
    requires forall i :: 0 <= i < |items| ==> s[items[i]] == t[items[i]]
    ensures SumSpaces(s, mins, items) == SumSpaces(t, mins, items)
  {
    if items != [] {
      SumSpacesFrame(s, t, mins, items[1..]);
    }
  }

  /** In a consistent state every slice has non-negative resizable space. */
  lemma {:induction false} SumSpacesNonNegative(s: seq<real>, mins: seq<real>, items: seq<int>)
    requires |s| == |mins| && InRange(items, |s|) && AtLeastMinimums(s, mins)
    ensures 0.0 <= SumSpaces(s, mins, items)
  {
    if items != [] {
      SumSpacesNonNegative(s, mins, items[1..]);
    }
  }

  /**
   * When two size vectors differ only on distinct elements `items`, their
   * totals differ by exactly the difference in those elements' resizable space.
   */
  lemma {:induction false} SumDifference(s: seq<real>, t: seq<real>, mins: seq<real>, items: seq<int>)
    requires |s| == |t| == |mins| && InRange(items, |s|) && Distinct(items) && SameOutside(s, t, items)
    ensures Sum(t) - Sum(s) == SumSpaces(t, mins, items) - SumSpaces(s, mins, items)
    decreases |items|
  {
    if items == [] {
      assert s == t;
    } else {
      var k := items[0];
      var rest := items[1..];
      var u := s[k := t[k]];
      assert Distinct(rest) by {
        forall i, j | 0 <= i < j < |rest| ensures rest[i] != rest[j] {
          assert rest[i] == items[i + 1] && rest[j] == items[j + 1];
        }
      }
      forall j | 0 <= j < |rest| ensures rest[j] != k && s[rest[j]] == u[rest[j]] {
        assert rest[j] == items[j + 1];
      }
      forall j | 0 <= j < |u| && j !in rest ensures u[j] == t[j] {
        if j != k {
          assert j !in items;
        }
      }
      SumDifference(u, t, mins, rest);
      SumSpacesFrame(s, u, mins, rest);
      SumUpdate(s, k, t[k]);
    }
  }
}
