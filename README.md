# Resize distribution engine of the adjustable stack panel

This project models the resize logic of Laminar's `AdjustableStackPanel`. The
panel stacks child elements along one axis and puts a resizer between each
pair of neighbours. Each element has a current size, a minimum size and an
enabled flag. Dragging a resizer moves it by some amount. The engine decides
which elements shrink and which grow so that the resizer actually moves.

The pieces are modelled as follows:

- **Harness.** The host's view of the elements. It is modelled as the class
  `Harness.Stack`: an array of sizes, plus minimum sizes and enabled flags
  that stay fixed during a layout pass. `ChangeSize` and `TryResize` update
  one element in place. `TryResize` clamps the new size at the minimum.
- **Slices.** The source has two kinds of slice:
  - `ListSlice` is an inclusive index range, read forwards or backwards.
  - `ResizableElementSlice` walks from a start index in one direction and
    yields a fixed number of enabled elements. It skips disabled ones and
    throws when it runs off the list.

  Slices are modelled as the index sequences they yield. The element slice's
  enumerator is the class `ElementSlices.Enumerator`, and its `MoveNext`
  steps over disabled elements in a loop.
- **Strategies.** `SqueezeExpand` grows each element of a slice by an equal
  share. It shrinks them in proportion to their resizable space, and never by
  more than the slice's total. `Cascade` grows the first element. It shrinks
  elements in slice order, each down to its minimum, until the request is
  met. `ChangeStackSize` only reports an amount. Each is a method on the
  `Stack`, proved equal to a value-level function. Its safety and
  conservation properties are lemmas about that function.
- **Resizer modes.** A mode picks the strategy used on each side of a
  resizer. It also decides where the zone is offered.
- **Resizer movements.** `Resize` moves one resizer. It reads resizable space
  from the host's cumulative per-element table and splits the list at the
  resizer into two `ListSlice`s. `ResizerMovement` reads the same figures from
  a prebuilt `ResizeInfo` summary. Its sides come from
  `ResizeInfo.SplitElements`, which returns two `ListSlice<T>?`; in this
  model they are the summary's enabled-element slices `GetElementsBefore` and
  `GetElementsAfter` (see "Left out"). `Resize` is the revision the gestures
  execute.
- **Resize summary.** `ResizeInfo` is modelled as a class. It fills a
  fixed-capacity array of cumulative entries. Each entry holds the resizable
  space, the minimum space and the number of disabled elements.
- **Gestures.** There is one gesture per mode and keyboard modifier. Each is
  a list of resizer movements relative to the active resizer. The nine
  gestures are registered in a table keyed by mode and modifier.

Sizes are real numbers. An element of a stack of `n` elements is its index
`0 <= k < n`, and resizer `i` sits after element `i`.

## Model

| member | source | states |
|---|---|---|
| Harness.ClampedSize | src/Laminar.Avalonia.AdjustableStackPanel/ResizeLogic/IResizingHarness.cs:30 | the committed size is the requested size unless that is below the minimum, in which case it is the minimum; never below either |
| Harness.Stack.constructor | src/Laminar.Avalonia.AdjustableStackPanel/ResizeLogic/IResizingHarness.cs:3-12 | the harness holds the given sizes, minimum sizes and enabled flags |
| Harness.Stack.GetResizableSpace | src/Laminar.Avalonia.AdjustableStackPanel/ResizeLogic/IResizingHarness.cs:16-19 | resizable space plus minimum is the size; it is non-negative exactly when the element is at or above its minimum |
| Harness.Stack.ChangeSize | src/Laminar.Avalonia.AdjustableStackPanel/ResizeLogic/IResizingHarness.cs:21-24 | only element k changes, by exactly the requested amount, without clamping |
| Harness.Stack.TryResize | src/Laminar.Avalonia.AdjustableStackPanel/ResizeLogic/IResizingHarness.cs:26-33 | only element k changes, to the clamped size, and the returned value is the change actually applied |
| Sizes.SumSpacesNonNegative | src/Laminar.Avalonia.AdjustableStackPanel/ResizeLogic/IResizingHarness.cs:16-19 | when every element is at or above its minimum, every slice has non-negative resizable space |
| ListSlices.ListSlice.Items | src/Laminar.Avalonia.AdjustableStackPanel/ResizeLogic/ListSlice.cs:21-52 | an empty range is an error; otherwise exactly the indices of the inclusive range, Length of them, strictly ascending forwards and strictly descending backwards |
| ListSlices.ListSlice.Length | src/Laminar.Avalonia.AdjustableStackPanel/ResizeLogic/ListSlice.cs:19 | the length is positive exactly when the range is not empty, i.e. when reading the items does not throw |
| ListSlices.CreateBackwardsSlice | src/Laminar.Avalonia.AdjustableStackPanel/ResizeLogic/ListSlice.cs:57-63 | the slice covers 0..index and is read backwards |
| ListSlices.CreateForwardsSlice | src/Laminar.Avalonia.AdjustableStackPanel/ResizeLogic/ListSlice.cs:65-71 | the slice covers index..count-1 and is read forwards |
| ListSlices.BackwardsReversesForwards | src/Laminar.Avalonia.AdjustableStackPanel/ResizeLogic/ListSlice.cs:38-52 | reading a range backwards yields the forward reading reversed |
| ListSlices.SlicesPartitionList | src/Laminar.Avalonia.AdjustableStackPanel/ResizeLogic/Resize.cs:34-35 | for a resizer between two elements, the slices before and after it read every element exactly once and nothing else |
| ListSlices.SliceSpaces | src/Laminar.Avalonia.AdjustableStackPanel/ResizeLogic/Resize.cs:24-25 | the slice before the resizer holds the cumulative resizable space up to the resizer, and the slice after it holds the rest |
| ElementSlices.NextEnabled | src/Laminar.Avalonia.AdjustableStackPanel/ResizeLogic/ResizableElementSlice.cs:40-51 | the index stepping stops at is enabled, inside the list, and not behind the starting position |
| ElementSlices.Walk | src/Laminar.Avalonia.AdjustableStackPanel/ResizeLogic/ResizableElementSlice.cs:38-55 | a walk that succeeds yields exactly the requested number of indices |
| ElementSlices.WalkSound | src/Laminar.Avalonia.AdjustableStackPanel/ResizeLogic/ResizableElementSlice.cs:38-55 | a successful walk yields enabled in-range indices, strictly monotone in the walking direction and starting at or past the start |
| ElementSlices.WalkPrefix | src/Laminar.Avalonia.AdjustableStackPanel/ResizeLogic/ResizableElementSlice.cs:38-55 | a walk yielding c2 elements yields its first c1 on the way |
| ElementSlices.WalkForward | src/Laminar.Avalonia.AdjustableStackPanel/ResizeLogic/ResizableElementSlice.cs:38-55 | a forward walk succeeds iff the list holds at least that many enabled elements from the start, and it ends where that many have been seen |
| ElementSlices.WalkBackward | src/Laminar.Avalonia.AdjustableStackPanel/ResizeLogic/ResizableElementSlice.cs:38-55 | a backward walk succeeds iff the list holds at least that many enabled elements up to the start, and it ends where that many have been seen |
| ElementSlices.SkipDisabled | src/Laminar.Avalonia.AdjustableStackPanel/ResizeLogic/ResizableElementSlice.cs:43-51 | the loop stops at the next enabled element, or outside the list exactly when there is none |
| ElementSlices.Enumerator.constructor | src/Laminar.Avalonia.AdjustableStackPanel/ResizeLogic/ResizableElementSlice.cs:28-36 | a fresh enumerator has yielded nothing and steps in the slice's direction from its start |
| ElementSlices.Enumerator.MoveNext | src/Laminar.Avalonia.AdjustableStackPanel/ResizeLogic/ResizableElementSlice.cs:38-55 | finishes iff Length elements were returned; otherwise it moves to the next enabled element, extending the walk, or throws when the walk leaves the list |
| ElementSlices.Enumerator.Current | src/Laminar.Avalonia.AdjustableStackPanel/ResizeLogic/ResizableElementSlice.cs:57 | after a MoveNext that moved, the current element is the one that call yielded, the last of the walk so far |
| ElementSlices.Enumerate | src/Laminar.Avalonia.AdjustableStackPanel/ResizeLogic/ResizableElementSlice.cs:15-16 | a foreach over the slice completes iff the walk of Length enabled elements exists, and then yields exactly that walk |
| ResizeMethods.RunChangeStackSize | src/Laminar.Avalonia.AdjustableStackPanel/ResizeLogic/ResizeMethod.cs:36-39 | the reported amount is the larger of the request and minus the space available to expand into |
| ResizeMethods.RunSqueezeExpand | src/Laminar.Avalonia.AdjustableStackPanel/ResizeLogic/ResizeMethod.cs:41-67 | the loops over the slice leave the sizes and return the amount given by the squeeze/expand specification |
| ResizeMethods.RunCascade | src/Laminar.Avalonia.AdjustableStackPanel/ResizeLogic/ResizeMethod.cs:69-95 | the early-exiting loop leaves the sizes and returns the amount given by the cascade specification |
| ResizeMethods.RunMethod | src/Laminar.Avalonia.AdjustableStackPanel/ResizeLogic/ResizeMethod.cs:28-34 | dispatches to the strategy; None changes nothing and reports zero |
| ResizeMethods.RunMethods | src/Laminar.Avalonia.AdjustableStackPanel/ResizeLogic/ResizeMethod.cs:13-26 | runs the strategies in turn on what is still outstanding, stopping once the total reaches the request; an empty slice is accepted as long as no strategy that enumerates it is reached |
| ResizeMethods.GrownEachEffect | src/Laminar.Avalonia.AdjustableStackPanel/ResizeLogic/ResizeMethod.cs:44-53 | growing each of n distinct elements by delta grows exactly those, each by delta, and the total by n times delta |
| ResizeMethods.ShrunkKeepsMinimums | src/Laminar.Avalonia.AdjustableStackPanel/ResizeLogic/ResizeMethod.cs:56-66 | a proportional shrink by at most the slice's space leaves every element at or above its minimum and touches only the slice |
| ResizeMethods.ShrunkEffect | src/Laminar.Avalonia.AdjustableStackPanel/ResizeLogic/ResizeMethod.cs:56-66 | each element loses its proportional share of the reduction, and the total loses the share of the slice's whole space |
| ResizeMethods.CascadeShrunkBounds | src/Laminar.Avalonia.AdjustableStackPanel/ResizeLogic/ResizeMethod.cs:82-94 | the cascade's leftover lies between zero and the request, the total shrinks by what was taken, and no element goes below its minimum |
| ResizeMethods.CascadeShrunkExact | src/Laminar.Avalonia.AdjustableStackPanel/ResizeLogic/ResizeMethod.cs:82-94 | the cascade leaves exactly the part of the request that exceeds the slice's resizable space |
| ResizeMethods.StrategyIsSafe | src/Laminar.Avalonia.AdjustableStackPanel/ResizeLogic/ResizeMethod.cs:28-95 | every strategy keeps all elements at or above their minimums and changes only its slice; None and ChangeStackSize change nothing; the applied amount has the request's sign and never exceeds it |
| ResizeMethods.SqueezeExpandConservesSpace | src/Laminar.Avalonia.AdjustableStackPanel/ResizeLogic/ResizeMethod.cs:41-67 | given the slice's true resizable space, the stack's total changes by exactly the returned amount; a growth is applied in full, a shrink up to the available space |
| ResizeMethods.CascadeConservesSpace | src/Laminar.Avalonia.AdjustableStackPanel/ResizeLogic/ResizeMethod.cs:69-95 | the stack's total changes by exactly the returned amount; a growth is applied in full to the first element only, a shrink up to the slice's resizable space |
| ResizeMethods.StrategyConservesSpace | src/Laminar.Avalonia.AdjustableStackPanel/ResizeLogic/ResizeMethod.cs:28-34 | for both strategies a mode can pick, the total changes by the returned amount, which is the request capped by the available space when shrinking |
| ResizeMethods.StrategyIdle | src/Laminar.Avalonia.AdjustableStackPanel/ResizeLogic/ResizeMethod.cs:71 | a zero request, or a squeeze of a slice with no space, changes nothing and reports zero |
| ResizeMethods.MethodsWithinRequest | src/Laminar.Avalonia.AdjustableStackPanel/ResizeLogic/ResizeMethod.cs:13-26 | on any slice the source can run them on (an empty one included, while no strategy enumerates it), the chained strategies never overshoot the request or its sign, keep minimums, and change only the slice |
| ResizeMethods.EmptySliceRunKeepsSizes | src/Laminar.Avalonia.AdjustableStackPanel/ResizeLogic/ResizeMethod.cs:13-39 | on an empty slice no element changes, and without ChangeStackSize nothing is applied |
| ResizerModes.AllModes | src/Laminar.Avalonia.AdjustableStackPanel/ResizeLogic/ResizerMode.cs:13-15 | exactly the three modes other than None |
| ResizerModes.GetResizeMethods | src/Laminar.Avalonia.AdjustableStackPanel/ResizeLogic/ResizerMode.cs:17-23 | None has no strategies; otherwise both sides cascade, except that the side an arrow points to squeezes |
| ResizerModes.MirroredModesSwapMethods | src/Laminar.Avalonia.AdjustableStackPanel/ResizeLogic/ResizerMode.cs:17-23 | swapping ArrowBefore and ArrowAfter swaps the before and after strategies |
| ResizerModes.Accessibility | src/Laminar.Avalonia.AdjustableStackPanel/ResizeLogic/ResizerMode.cs:25-31 | when each zone is offered, as an if-and-only-if per mode |
| ResizerModes.ArrowBeforeAtFirstResizer | src/Laminar.Avalonia.AdjustableStackPanel/ResizeLogic/ResizerMode.cs:28 | ArrowBefore on the first resizer is offered exactly when the stack may consume space before itself |
| ResizerModes.IsAccessible | src/Laminar.Avalonia.AdjustableStackPanel/ResizeLogic/ResizerMode.cs:25-31 | Default is always offered and None never; ArrowBefore needs an element before the resizer and ArrowAfter one within the stack; at the first resizer ArrowBefore, and at totalChildren - 2 ArrowAfter, are offered exactly when the stack may consume space on that side |
| Flags.ResizeFlags.Intersect | src/Laminar.Avalonia.AdjustableStackPanel/ResizeLogic/ResizeGesture.cs:172 | the intersection holds a flag iff both operands hold it |
| Flags.ResizeFlags.Bits | src/Laminar.Avalonia.AdjustableStackPanel/ResizeLogic/ResizeGesture.cs:10-17 | the flag set as the enum's value: bit 0 DisableResizeAfter, bit 1 DisableResizeBefore, bit 2 HasTransition |
| Flags.IntersectNone | src/Laminar.Avalonia.AdjustableStackPanel/ResizeLogic/ResizeGesture.cs:172 | intersecting with no flags clears every flag, whichever side it is on |
| Flags.IntersectIsBitwiseAnd | src/Laminar.Avalonia.AdjustableStackPanel/ResizeLogic/ResizeGesture.cs:172 | the intersection's enum value is the bitwise AND of the operands' values |
| Transformations.Scale | src/Laminar.Avalonia.AdjustableStackPanel/ResizeLogic/ResizeGesture.cs:178-186 | the input is left alone when either space is zero, and otherwise rescaled by current over original space |
| Transformations.ScaleKeepsSign | src/Laminar.Avalonia.AdjustableStackPanel/ResizeLogic/ResizeGesture.cs:178-186 | with non-negative spaces, scaling keeps the input's sign |
| Transformations.TransformDirection | src/Laminar.Avalonia.AdjustableStackPanel/ResizeLogic/ResizeGesture.cs:19-24 | MaintainResizeAmount keeps the amount; every other transformation moves the resizer in the opposite direction, for spaces taken from one stack |
| Transformations.Apply | src/Laminar.Avalonia.AdjustableStackPanel/ResizeLogic/ResizeGesture.cs:23-24 | MaintainResizeAmount keeps the amount and NegateResizeAmount negates it; the scaled lambdas (lines 94 and 126) too map a zero amount to zero |
| Resizes.SideOutcome | src/Laminar.Avalonia.AdjustableStackPanel/ResizeLogic/Resize.cs:39-46 | a side that is not resized is left alone, and the requested amount passes through unchanged |
| Resizes.Shifted | src/Laminar.Avalonia.AdjustableStackPanel/ResizeLogic/Resize.cs:37-60 | the sizes after taking space from the side the resizer moves into and giving it to the other side |
| Resizes.Shift | src/Laminar.Avalonia.AdjustableStackPanel/ResizeLogic/Resize.cs:37-60 | the sequence of strategy calls leaves the sizes and the moved amount given by Shifted |
| Resizes.SpaceAfterResizer | src/Laminar.Avalonia.AdjustableStackPanel/ResizeLogic/Resize.cs:24-25 | the space before and the space after a resizer add up to the stack's total resizable space |
| Resizes.SpaceBeforeResizer | src/Laminar.Avalonia.AdjustableStackPanel/ResizeLogic/Resize.cs:7 | zero for the resizer before the first element, otherwise the table's entry for the resizer's element |
| Resizes.SpaceBeforeIsPrefix | src/Laminar.Avalonia.AdjustableStackPanel/ResizeLogic/Resize.cs:24 | read from a table matching the sizes, the space before a resizer is the resizable space of the elements up to it |
| Resizes.ResizeAfterIndex | src/Laminar.Avalonia.AdjustableStackPanel/ResizeLogic/Resize.cs:76-77 | the side after is resized exactly when DisableResizeAfter is clear and the slice after the resizer is not empty |
| Resizes.ResizeBeforeIndex | src/Laminar.Avalonia.AdjustableStackPanel/ResizeLogic/Resize.cs:79-80 | the side before is resized exactly when DisableResizeBefore is clear and the slice before the resizer is not empty |
| Resizes.BeforeSide | src/Laminar.Avalonia.AdjustableStackPanel/ResizeLogic/Resize.cs:34 | the side before is resized iff the resizer is not before the first element and DisableResizeBefore is clear; its space is the space before the resizer |
| Resizes.AfterSide | src/Laminar.Avalonia.AdjustableStackPanel/ResizeLogic/Resize.cs:35 | the side after is resized iff the resizer is not after the last element and DisableResizeAfter is clear; its space is the space after the resizer |
| Resizes.Resize.HasSpaceForResize | src/Laminar.Avalonia.AdjustableStackPanel/ResizeLogic/Resize.cs:5-20 | true iff the side the transformed change moves into is not resized or holds strictly more space than the change |
| Resizes.Resize.TransformedChange | src/Laminar.Avalonia.AdjustableStackPanel/ResizeLogic/Resize.cs:27 | the active resizer's amount transformed for this resizer: kept by MaintainResizeAmount, negated by NegateResizeAmount, zero for a zero amount |
| Resizes.Resize.Outcome | src/Laminar.Avalonia.AdjustableStackPanel/ResizeLogic/Resize.cs:22-74 | the movement as a value: sizes of the same length and the reported change; its properties are ShiftedEffect, MovementReportsStackChange, MovementMovesResizer and MovementKeepsMinimums |
| Resizes.Resize.Execute | src/Laminar.Avalonia.AdjustableStackPanel/ResizeLogic/Resize.cs:22-74 | the movement leaves the harness's sizes and returns the stack change given by Outcome |
| Resizes.ShiftedEffect | src/Laminar.Avalonia.AdjustableStackPanel/ResizeLogic/Resize.cs:37-60 | the resizer moves by the change capped by the space on the side it moves into; the total changes by the moved amount on the side not resized; minimums hold; elements outside both sides are unchanged |
| Resizes.SidesHold | src/Laminar.Avalonia.AdjustableStackPanel/ResizeLogic/Resize.cs:24-35 | when the host's cumulative table matches the sizes, each side's recorded space is its true resizable space, and the sides are disjoint |
| Resizes.MovementReportsStackChange | src/Laminar.Avalonia.AdjustableStackPanel/ResizeLogic/Resize.cs:62-73 | with at most one side disabled by the flags, and every side the flags leave enabled existing (an element before the resizer unless DisableResizeBefore, one after it unless DisableResizeAfter), the reported stack change is exactly the change in the stack's total |
| Resizes.LeadingEdgeMovementReportsNothing | src/Laminar.Avalonia.AdjustableStackPanel/ResizeLogic/Resize.cs:62-73 | outside MovementReportsStackChange's conditions the report can be wrong: a flagless movement of resizer -1 shrinks the stack by 0.5 and reports zero |
| Resizes.StackChange | src/Laminar.Avalonia.AdjustableStackPanel/ResizeLogic/Resize.cs:62-73 | with DisableResizeAfter the report is the resizer's movement; with only DisableResizeBefore it is the movement negated; without either flag it is zero |
| Resizes.MovementMovesResizer | src/Laminar.Avalonia.AdjustableStackPanel/ResizeLogic/Resize.cs:22-74 | for a resizer with an element on each side, without flags, the total is unchanged and the resizable space before the resizer grows by the change, capped by the space available; it is the full change whenever HasSpaceForResize holds |
| Resizes.MovementIdle | src/Laminar.Avalonia.AdjustableStackPanel/ResizeLogic/Resize.cs:29-32 | mode None, or a zero transformed change, leaves the sizes alone and reports zero |
| Resizes.ShiftedSafe | src/Laminar.Avalonia.AdjustableStackPanel/ResizeLogic/Resize.cs:37-60 | shifting keeps every element at or above its minimum and changes only the two sides |
| Resizes.MovementKeepsMinimums | src/Laminar.Avalonia.AdjustableStackPanel/ResizeLogic/Resize.cs:22-74 | every movement keeps every element at or above its minimum |
| ResizeInfos.EnabledFlags | src/Laminar.Avalonia.AdjustableStackPanel/ResizeLogic/ResizeInfo.cs:79-84 | the enabled flags of the summarised elements, element by element |
| ResizeInfos.DisabledCountSnoc | src/Laminar.Avalonia.AdjustableStackPanel/ResizeLogic/ResizeInfo.cs:86-87 | adding an element raises the disabled count by one exactly when the element is disabled |
| ResizeInfos.EnabledSizeSplits | src/Laminar.Avalonia.AdjustableStackPanel/ResizeLogic/ResizeInfo.cs:57 | the enabled elements' total size is their resizable space plus their minimum space |
| ResizeInfos.AppendKeepsInfos | src/Laminar.Avalonia.AdjustableStackPanel/ResizeLogic/ResizeInfo.cs:79-84 | adding an element keeps every earlier entry; the new entry carries the running totals including the new element, and the disabled count before it |
| ResizeInfos.ResizeInfo.constructor | src/Laminar.Avalonia.AdjustableStackPanel/ResizeLogic/ResizeInfo.cs:5-19 | a new summary is empty, has no flags and keeps the request and active index |
| ResizeInfos.ResizeInfo.AddElement | src/Laminar.Avalonia.AdjustableStackPanel/ResizeLogic/ResizeInfo.cs:72-88 | fails, changing nothing, iff the buffer is full; otherwise it records the element and writes exactly the next entry with the running totals |
| ResizeInfos.ResizeInfo.DisabledElementsBefore | src/Laminar.Avalonia.AdjustableStackPanel/ResizeLogic/ResizeInfo.cs:45-49 | the corrected lookup (see Findings): the number of disabled elements before the resizer's element, for every index from -1 to past the end; past the last element it is the summary's disabled count rather than the last slot's entry |
| ResizeInfos.ResizeInfo.DisabledElementsBeforeAsWritten | src/Laminar.Avalonia.AdjustableStackPanel/ResizeLogic/ResizeInfo.cs:48 | the lookup as written, clamped to the last slot; it agrees with the corrected lookup for every resizer before the last element of the summary |
| ResizeInfos.ResizeInfo.SpaceBeforeResizer | src/Laminar.Avalonia.AdjustableStackPanel/ResizeLogic/ResizeInfo.cs:51 | the resizable space of the enabled elements up to and including the resizer's element |
| ResizeInfos.ResizeInfo.TotalResizeSpace | src/Laminar.Avalonia.AdjustableStackPanel/ResizeLogic/ResizeInfo.cs:55 | once the buffer is filled, the resizable space of all enabled elements |
| ResizeInfos.ResizeInfo.SpaceAfterResizer | src/Laminar.Avalonia.AdjustableStackPanel/ResizeLogic/ResizeInfo.cs:53 | the space before and the space after a resizer add up to the total resizable space |
| ResizeInfos.ResizeInfo.TotalSpace | src/Laminar.Avalonia.AdjustableStackPanel/ResizeLogic/ResizeInfo.cs:57 | once the buffer is filled, the total size of all enabled elements |
| ResizeInfos.ResizeInfo.IsValid | src/Laminar.Avalonia.AdjustableStackPanel/ResizeLogic/ResizeInfo.cs:59 | a valid summary has a slot to read its totals from, and a summary with no requested change is never valid |
| ResizeInfos.ResizeInfo.GetElementsBefore | src/Laminar.Avalonia.AdjustableStackPanel/ResizeLogic/ResizeInfo.cs:21-28 | built on the corrected lookup: the slice starts at the resizer's element and walks backwards; its length is given by SlicesPartitionEnabled |
| ResizeInfos.ResizeInfo.GetElementsAfter | src/Laminar.Avalonia.AdjustableStackPanel/ResizeLogic/ResizeInfo.cs:30-43 | the slice starts after the resizer and walks forwards |
| ResizeInfos.Build | src/Laminar.Avalonia.AdjustableStackPanel/ResizeLogic/ResizeInfo.cs:61-70 | fails iff the elements do not fit the buffer; otherwise the summary holds exactly the given elements in order |
| ResizeInfos.ElementsBeforeYieldEnabled | src/Laminar.Avalonia.AdjustableStackPanel/ResizeLogic/ResizeInfo.cs:21-28 | the slice before a resizer claims exactly the enabled elements up to it, so its enumeration completes |
| ResizeInfos.ElementsAfterYieldEnabled | src/Laminar.Avalonia.AdjustableStackPanel/ResizeLogic/ResizeInfo.cs:30-43 | the slice after a resizer claims exactly the enabled elements after it, so its enumeration completes |
| ResizeInfos.SlicesPartitionEnabled | src/Laminar.Avalonia.AdjustableStackPanel/ResizeLogic/ResizeInfo.cs:21-49 | each side's slice claims exactly the enabled elements on its side, and the two lengths add up to the number of enabled elements |
| ResizeInfos.ResizableSpaceBeforeGrows | src/Laminar.Avalonia.AdjustableStackPanel/ResizeLogic/ResizeInfo.cs:81 | while every enabled element is at or above its minimum, the recorded resizable space never decreases along the summary |
| ResizeInfos.AsWrittenLastSliceOverruns | src/Laminar.Avalonia.AdjustableStackPanel/ResizeLogic/ResizeInfo.cs:48 | with the clamped lookup, a full summary whose last element is disabled under-counts by one, and the slice before the last resizer cannot be enumerated |
| ResizerMovements.BeforeSideOf | src/Laminar.Avalonia.AdjustableStackPanel/ResizeLogic/ResizeInfo.cs:21-28 | the side before is resized iff it holds an enabled element and resizing before is allowed; it visits only enabled elements, and its space is the summary's space before the resizer |
| ResizerMovements.AfterSideOf | src/Laminar.Avalonia.AdjustableStackPanel/ResizeLogic/ResizeInfo.cs:30-43 | the side after is resized iff it holds an enabled element and resizing after is allowed; it visits only enabled elements, and its space is the summary's space after the resizer |
| ResizerMovements.EnumerateBefore | src/Laminar.Avalonia.AdjustableStackPanel/ResizeLogic/ResizerMovement.cs:28 | enumerating the slice before the resizer builds exactly BeforeSideOf |
| ResizerMovements.EnumerateAfter | src/Laminar.Avalonia.AdjustableStackPanel/ResizeLogic/ResizerMovement.cs:28 | enumerating the slice after the resizer builds exactly AfterSideOf |
| ResizerMovements.ResizerMovement.HasSpaceForResize | src/Laminar.Avalonia.AdjustableStackPanel/ResizeLogic/ResizerMovement.cs:5-17 | true iff the side the change moves into is not resized or holds strictly more resizable space, measured on the summarised elements, than the change |
| ResizerMovements.ResizerMovement.Outcome | src/Laminar.Avalonia.AdjustableStackPanel/ResizeLogic/ResizerMovement.cs:19-67 | the movement as a value: sizes of the same length and the reported change; its properties are MovedSides, MovementReportsStackChange, MovementMovesResizer and MovementKeepsMinimums |
| ResizerMovements.ResizerMovement.Execute | src/Laminar.Avalonia.AdjustableStackPanel/ResizeLogic/ResizerMovement.cs:19-67 | the movement leaves the harness's sizes and returns the stack change given by Outcome |
| ResizerMovements.ResizerMovement.ExecutePair | src/Laminar.Avalonia.AdjustableStackPanel/ResizeLogic/ResizerMovement.cs:28-66 | with the mode's strategy pair, the branches leave the sizes and the stack change given by Outcome |
| ResizerMovements.MovementKeepsMinimums | src/Laminar.Avalonia.AdjustableStackPanel/ResizeLogic/ResizerMovement.cs:19-67 | every movement keeps every element at or above its minimum and never changes a disabled element |
| ResizerMovements.SidesOfHold | src/Laminar.Avalonia.AdjustableStackPanel/ResizeLogic/ResizerMovement.cs:28 | each side's recorded space is the true resizable space of the elements it visits, and the sides are disjoint |
| ResizerMovements.BeforeSideSpans | src/Laminar.Avalonia.AdjustableStackPanel/ResizeLogic/ResizeInfo.cs:21-28 | the elements the slice before visits hold all the resizable space up to the resizer, in any sizes |
| ResizerMovements.AfterSideSpans | src/Laminar.Avalonia.AdjustableStackPanel/ResizeLogic/ResizeInfo.cs:30-43 | the elements the slice after visits hold all the resizable space after the resizer, in any sizes |
| ResizerMovements.MovementReportsStackChange | src/Laminar.Avalonia.AdjustableStackPanel/ResizeLogic/ResizerMovement.cs:55-66 | with at most one side disabled by the flags, and every side the flags leave enabled resized and holding an enabled element, the reported stack change is exactly the change in the stack's total |
| ResizerMovements.MovedSides | src/Laminar.Avalonia.AdjustableStackPanel/ResizeLogic/ResizerMovement.cs:30-53 | without flags and with an enabled element on each side, the total is unchanged, and the side before gains exactly the space the side after loses |
| ResizerMovements.MovementMovesResizer | src/Laminar.Avalonia.AdjustableStackPanel/ResizeLogic/ResizerMovement.cs:19-67 | for a resizer between two elements with an enabled element on each side, without flags, the total is unchanged and the resizable space before the resizer grows by the change capped by the space available, and the space after shrinks by as much; this is the full change whenever HasSpaceForResize holds |
| ResizerMovements.MovementIdle | src/Laminar.Avalonia.AdjustableStackPanel/ResizeLogic/ResizerMovement.cs:23-26 | mode None, or a zero transformed change, leaves the sizes alone and reports zero |
| ResizerMovements.ResizerMovement.TransformResize | src/Laminar.Avalonia.AdjustableStackPanel/ResizeLogic/ResizerMovement.cs:75-76 | the summary's request, transformed for the resizer: kept by MaintainResizeAmount, negated by NegateResizeAmount, and zero for a zero request |
| ResizerMovements.UnrequestedMovementIsIdle | src/Laminar.Avalonia.AdjustableStackPanel/ResizeLogic/ResizeInfo.cs:59 | a summary with no requested change is not valid, and every movement read from it leaves the sizes alone and reports zero |
| ResizeGestures.AllGestures | src/Laminar.Avalonia.AdjustableStackPanel/ResizeLogic/ResizeGesture.cs:30-130 | the nine gestures |
| ResizeGestures.Registered | src/Laminar.Avalonia.AdjustableStackPanel/ResizeLogic/ResizeGesture.cs:132-138 | registration succeeds iff no key repeats, and then maps each gesture's key to that gesture and nothing else |
| ResizeGestures.RegisterGestures | src/Laminar.Avalonia.AdjustableStackPanel/ResizeLogic/ResizeGesture.cs:132-138 | the registration loop fails iff a key repeats, and otherwise builds exactly the Registered table |
| ResizeGestures.RegistrationFailureIsFinal | src/Laminar.Avalonia.AdjustableStackPanel/ResizeLogic/ResizeGesture.cs:134-137 | once a prefix of the gestures repeats a key, the whole registration fails |
| ResizeGestures.AllGesturesKeysDistinct | src/Laminar.Avalonia.AdjustableStackPanel/ResizeLogic/ResizeGesture.cs:30-130 | no two of the nine gestures share a mode and modifier |
| ResizeGestures.GestureTableComplete | src/Laminar.Avalonia.AdjustableStackPanel/ResizeLogic/ResizeGesture.cs:26-138 | the static registration succeeds, and the table holds a key iff its mode is not None, each mapped to its own gesture |
| ResizeGestures.GestureDictionary | src/Laminar.Avalonia.AdjustableStackPanel/ResizeLogic/ResizeGesture.cs:26 | the table holds a key iff its mode is not None, each mapped to the gesture with that key |
| ResizeGestures.TryGetGesture | src/Laminar.Avalonia.AdjustableStackPanel/ResizeLogic/ResizeGesture.cs:140-141 | with missing keys read as None, the lookup succeeds iff the mode is not None, with the gesture of that key |
| ResizeGestures.GetGesture | src/Laminar.Avalonia.AdjustableStackPanel/ResizeLogic/ResizeGesture.cs:143-151 | the gesture for the mode and modifier, or the empty gesture with no movements and no flags when the mode is None |
| ResizeGestures.AccessibleResizes | src/Laminar.Avalonia.AdjustableStackPanel/ResizeLogic/ResizeGesture.cs:153-165 | exactly the movements whose resizer index is between -1 and the last element, each with that index |
| ResizeGestures.Executed | src/Laminar.Avalonia.AdjustableStackPanel/ResizeLogic/ResizeGesture.cs:167-176 | the movements run in turn as a value, sizes of the same length; an empty stack is accepted when no movement is accessible; its properties are ExecutedKeepsMinimums and ExecutedWithoutFlags |
| ResizeGestures.Execute | src/Laminar.Avalonia.AdjustableStackPanel/ResizeLogic/ResizeGesture.cs:167-176 | the loop over the accessible movements, with the gesture's flags intersected with the current ones, leaves the sizes and summed stack change given by Executed; with no accessible movement, on any stack, it changes nothing and returns zero |
| ResizeGestures.GestureShape | src/Laminar.Avalonia.AdjustableStackPanel/ResizeLogic/ResizeGesture.cs:30-130 | every gesture moves the active resizer unchanged; a plain drag moves only it and carries flags; a modified drag carries no flags and moves two adjacent resizers |
| ResizeGestures.ExecutedKeepsMinimums | src/Laminar.Avalonia.AdjustableStackPanel/ResizeLogic/ResizeGesture.cs:167-176 | any sequence of movements keeps every element at or above its minimum |
| ResizeGestures.ExecutedWithoutFlags | src/Laminar.Avalonia.AdjustableStackPanel/ResizeLogic/ResizeGesture.cs:167-176 | without flags the movements add nothing to the reported stack change |
| ResizeGestures.GestureKeepsMinimums | src/Laminar.Avalonia.AdjustableStackPanel/ResizeLogic/ResizeGesture.cs:167-176 | every registered gesture, and the empty one, keeps minimums, and a modified drag reports no stack change |
| ResizeGestures.SingleMovementReportsStackChange | src/Laminar.Avalonia.AdjustableStackPanel/ResizeLogic/ResizeGesture.cs:167-176 | a plain drag at an existing resizer, under flags that disable at most one side and leave no enabled side empty, reports exactly the change in the stack's total |

## Left out

- Sizes are IEEE-754 doubles in the source and real numbers here. Rounding, infinities and NaN are not modelled, so equalities such as "the total changes by exactly the reported amount" hold of the model, not bit for bit of the program.
- Elements are indices into one list of fixed length. The element type `T`, `IList<T>` and the harness's `GetSize`/`SetSize` callbacks into the host are not modelled. The harness is the `Stack` class, and its minimum sizes and enabled flags are fixed.
- `SqueezeExpand` grows elements through `resizingHarness.Resize`, which the interface does not declare. The model reads it as the `ChangeSize` extension: an unclamped change.
- `RunMethod` takes a fifth argument, `spaceToExpandInto`, that `Resize.Execute` and `ResizerMovement.Execute` do not pass. `Resize.Execute` takes it as a parameter and threads it through; `ResizerMovement.Execute` passes zero. Only `ChangeStackSize` reads it, and no mode uses that strategy.
- ResizeGestures.Execute: takes `spaceToExpandInto` as an extra parameter for the same reason.
- `ResizeInfo.SplitElements` (called at ResizerMovement.cs:28) is not part of this model. It returns two `ListSlice<T>?`, and in this revision `ListSlice.Items` does not skip disabled elements and `ExcludedIndices` is never read. The model's choice is to build each side of a `ResizerMovement` from the enabled-element slice `GetElementsBefore`/`GetElementsAfter` returns, counting a side as absent (the source's `null`) when that slice yields no element.
- ResizeMethods.RunSqueezeExpand: requires a non-empty slice whenever it enumerates the slice, i.e. for a growth and for a shrink with a non-zero reduction. `ListSlice.Items` throws on an empty range there, and every caller passes a slice of at least one element. The exception is not modelled as a result.
- ResizeMethods.RunCascade: requires a non-empty slice for any non-zero request, where the source enumerates the slice and `ListSlice.Items` throws on an empty range.
- ResizeMethods.RunMethods: requires that on an empty slice no strategy that enumerates it is reached, for the same reason; `ChangeStackSize`, `None` and zero requests run on an empty slice.
- ResizerMovements.MovementMovesResizer: requires the summary to cover the whole stack with the buffer exactly full. With a partly filled buffer the source reads unwritten entries. It also requires a resizer between two elements, each side holding an enabled element.
- ResizerMovements.MovementReportsStackChange: requires the same full summary, for the same reason. It also requires every side the flags leave enabled to be resized and to hold an enabled element. At the edge of the stack, or next to a run of disabled elements, the side is absent, the movement does not change the stack by what it reports, and nothing is claimed there.
- ResizerMovements.MovedSides: requires an enabled element on each side of the resizer.
- ResizeInfos.ResizeInfo.TotalResizeSpace: states its value only once the buffer is filled, because the source reads the buffer's last slot whatever the count. It requires a non-empty buffer, since the source reads index `^1`.
- ResizeInfos.ResizeInfo.TotalSpace: the same, for the same reason.
- ResizeInfos.ResizeInfo.IsValid: the source tests the buffer's capacity, which is the length of the model's buffer array.
- ResizeInfos.ResizeInfo.DisabledElementsBefore: is the corrected lookup of the Findings row, not the clamped one of ResizeInfo.cs:48, and the `ResizerMovement` model runs on this intended count. With a partly filled buffer the source's clamped lookup reads an unwritten slot; the model never does.
- ResizeInfos.ResizeInfo.GetElementsBefore: uses the corrected count, so after a full summary whose last element is disabled it claims one element fewer than the source's slice (which overruns the list, see Findings).
- The `CanConsumeSpaceBeforeStack` and `CanConsumeSpaceAfterStack` flags that `IsAccessible` tests are not members of `ResizeFlags`. The model reads them as `DisableResizeBefore` and `DisableResizeAfter`, the flags the plain arrow gestures carry.
- ResizerModes.Accessibility: follows `IsAccessible` as written, including the `totalChildren - 2` bound for ArrowAfter.
- Gesture conservation across two movements is not stated. The second movement reads the cumulative space table the host computed before the first one, so the table is stale by then. Only per-movement conservation and minimum safety are proved.
- Resizes.MovementMovesResizer: requires the cumulative space table to match the current sizes (`SpacesMatch`), as the host computes it before a gesture. It also requires a resizer between two elements (`0 <= index < count - 1`).
- Resizes.MovementReportsStackChange: requires the same matching table. It also requires every side the flags leave enabled to exist. At the edge of the stack it does not, and there the report and the change in the total differ. For example, a flagless movement of resizer -1, which the Move gesture makes when the active resizer is 0, shrinks the elements after it while reporting zero (LeadingEdgeMovementReportsNothing). Nothing else is claimed for those inputs.
- ResizeGestures.SingleMovementReportsStackChange: requires the same, for the single movement of a plain drag.
- Resizes.Resize.Execute: requires a non-empty table and an active resizer inside it. The source reads the table's last entry and the active resizer's entry (Resize.cs:10, 25), and throws on an empty table or an active resizer past the end. The exception is not modelled as a result.
- Resizes.Resize.Outcome: requires the same, for the same reason.
- ResizeGestures.Execute: requires a non-empty stack and an active resizer inside it only when some movement is accessible, since each movement then runs `Resize.Execute`.
- `ResizerMovement` is the summary-based revision of `Resize`. No gesture uses it, and it is modelled on its own.
- The panel's layout, alignment and input handling in `AdjustableStackPanel.cs` are not part of this model. Neither are the stackalloc buffer, the `ResizerModifier` key mapping or the transition flag's animation.
- ElementSlices.Enumerator.MoveNext: the source recurses once per disabled element, and the model loops. An `IndexOutOfRangeException` is the `OutOfRange` result.

## Findings

| source | as written | input that shows it | evidently intended | confidence | as-written member | corrected member |
|---|---|---|---|---|---|---|
| src/Laminar.Avalonia.AdjustableStackPanel/ResizeLogic/ResizeInfo.cs:48 | `DisabledElementsBefore` clamps the resizer index to the buffer's last slot. For the resizer after the last element it returns the disabled count before the last element, leaving the last element itself out | a full summary of n elements whose last element is disabled; `GetElementsBefore(n - 1)` then claims one enabled element more than there are, and its enumeration steps past index 0 | the number of disabled elements among all n elements, i.e. the summary's disabled count, so that the slice before every resizer can be enumerated (ElementsBeforeYieldEnabled) | not executed | ResizeInfos.AsWrittenLastSliceOverruns | ResizeInfos.ResizeInfo.DisabledElementsBefore |
