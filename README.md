# Justified grid row packer, modelled in Dafny

`react-horizontal-masonry` lays out photo-gallery style rows. Its `Grid`
component takes `Grid.Item` children, each with an aspect ratio, and packs
them left to right into rows. It keeps adding items to the last row while
that row's running ratio sum (`cumulativeAspectRatio`) is below
`targetRowAspectRatio` and while fewer than `maxColumns` rows exist. Each item
then gets the width share `ratio / max(cumulativeAspectRatio, target)` of its
row. Any child that is not a `Grid.Item` with a numeric `ratio` makes the
whole computation throw.

The project has three modules:

- `Grid` (`grid.dfy`) holds the model:
  - the child, item, row and cap datatypes;
  - the `isGridItem` guard;
  - the reduce step `Step`, with `Pack` (the fold over valid items) and `Layout` (the fold over raw children, which fails on the first bad child);
  - `ComputeRows`, an imperative loop that updates an accumulator and overwrites its last row in place, as the component does, proved equal to `Layout`;
  - the width share functions.
- `GridProperties` (`grid_properties.dfy`) holds the lemmas:
  - the rows are the items in order;
  - rows are non-empty and carry their ratio sum;
  - rows close exactly where the greedy rule says, and `Pack` is the only sequence of rows with that shape;
  - failure happens exactly when some child is invalid;
  - width shares fill a row that reached the target, and leave a shorter row short.
- `GridScenarios` (`grid_scenarios.dfy`) works through the layouts that the component's test suite describes.

The model follows the code as written in three places where a reader might expect otherwise:

- **What `maxColumns` counts.** `maxColumns` is compared with `acc.length`, the number of rows built so far. It is not compared with the number of items in the last row. With `maxColumns = 2`, every item joins the first row for as long as that row stays below the target, because only one row exists at that point. Once `maxColumns` rows exist, every later item opens a row of its own. `PackRowsPastCapAreSingletons` and `CapCountsRowsNotItems` state this behaviour.
- **Ratios are not checked.** Validation only checks that `ratio` is a number. Zero and negative ratios pass. So the packer accepts any real ratio. Positivity is a hypothesis only where a lemma needs it (`WidthShareInUnitInterval`).
- **Empty rows are not rejected.** The code does not check for an empty row before computing widths. For an empty row, `RowWidths` simply gives `[]`. `PackRowsAreNonEmpty` shows that such a row never comes out of the packer.

## Model

| member | source | states |
|---|---|---|
| `Grid.IsGridItem` | src/grid.tsx:22-34 | the `isGridItem` guard: a child is accepted only when it is a `Grid.Item` element whose `ratio` is a number; `LayoutFailsIffInvalidChild` proves that the grid fails exactly when some child fails this guard |
| `Grid.Message` | src/grid.tsx:49-51 | the text of the error thrown for a bad child; `EmptyAndInvalidChildren` states it is the message the tests expect |
| `Grid.ColumnCap.Admits` | src/grid.tsx:57 | the `acc.length < maxColumns` test on the number of rows so far, always true for the default `Infinity`; `PackRowsPastCapAreSingletons` shows what it limits |
| `Grid.JoinsLastRow` | src/grid.tsx:54-58 | an item joins the last row exactly when a last row exists, its sum is below the target and the cap admits the row count; `StepJoinsRow` and `StepOpensRow` show that the packer's rows follow this test |
| `Grid.Step` | src/grid.tsx:53-70 | one reduce step: the item joins the last row when `JoinsLastRow` holds and opens `[item]` otherwise; `StepKeepsPacked` and `StepAppendsItem` prove that it keeps the row invariants and appends the item to the flattened rows |
| `GridProperties.StepShape` | src/grid.tsx:53-70 | one reduce step adds at most one row and never leaves the result empty, leaves every row before the last unchanged, and makes the item the last item of the last row |
| `Grid.Pack` | src/grid.tsx:47-71 | the reduce over validated items; `PackIsTheOnlyPacking` proves its output is the one row sequence that flattens to the items and follows the greedy closing rule |
| `Grid.Layout` | src/grid.tsx:47-71 | the reduce over raw children; `LayoutFailsIffInvalidChild` and `LayoutOfValidChildren` prove it fails exactly on a bad child and otherwise packs the children's items |
| `Grid.ItemsOf` | src/grid.tsx:47-52 | a run of valid children gives one item per child, in the same order |
| `Grid.LayoutFailureSticks` | src/grid.tsx:48-52 | once some prefix of the children has thrown the invalid-child error, the whole fold ends in that error |
| `Grid.ComputeRows` | src/grid.tsx:47-71 | the loop over the children gives exactly `Layout`, the reduce over the children: it appends to the last row in place or opens a new row, and it stops with `InvalidChild` at the first bad child |
| `Grid.Max` | src/grid.tsx:98-101 | `Math.max` is an upper bound of both arguments and equals one of them |
| `Grid.WidthFraction` | src/grid.tsx:96-101 | an item's share is its ratio over the larger of the row's sum and the target, defined whenever that divisor is not zero; `FullRowFillsWidth` and `ShortRowStaysShort` prove that a row that reached the target is shared out by its sum, exactly filling it, and a shorter row by the target |
| `Grid.RowWidths` | src/grid.tsx:91-101 | the shares of a row's items, one per item in item order; `FullRowFillsWidth` proves they add up to exactly 1 once the row has reached the target, `ShortRowStaysShort` that a shorter row's shares are `ratio / target` and add up to less than 1, `WidthShareInUnitInterval` that with positive ratios each lies in (0, 1], and `PackedRowsWidths` that with no cap only the last packed row can fall short |
| `GridProperties.JoinKeepsPacked` | src/grid.tsx:59-63 | appending the item to a last row that is below the target, while the cap admits the row count, keeps the row invariants and puts the item last |
| `GridProperties.OpenKeepsPacked` | src/grid.tsx:64-68 | opening the row `[item]` when the item may not join keeps the row invariants and puts the item last |
| `GridProperties.StepAppendsItem` | src/grid.tsx:53-70 | one reduce step, whichever branch it takes, puts the item at the end of the flattened rows |
| `GridProperties.StepKeepsPacked` | src/grid.tsx:53-70 | one reduce step keeps the row invariants |
| `GridProperties.PackIsPacked` | src/grid.tsx:47-71 | every packer output satisfies the row invariants: non-empty rows carrying their ratio sum, appends only below the target and under the cap, closed rows at the target or at the cap |
| `GridProperties.PackKeepsItemsInOrder` | src/grid.tsx:59-68 | concatenating the rows' items gives exactly the input items: none dropped, duplicated or reordered |
| `GridProperties.PackRowsAreNonEmpty` | src/grid.tsx:59-68 | every row has at least one item, there are no rows exactly when there are no items, and there are never more rows than items |
| `GridProperties.PackCumulativeIsSum` | src/grid.tsx:59-68 | each row's `cumulativeAspectRatio` is the sum of its items' ratios |
| `GridProperties.PackOvershootBelowLastRatio` | src/grid.tsx:54-63 | in a row of two or more items, the items before the last sum to less than the target, so the row exceeds the target by less than its last ratio |
| `GridProperties.PackClosedRowsReachTargetOrCap` | src/grid.tsx:54-68 | every row but the last, at index k, has reached the target or has `k + 1 >= maxColumns` |
| `GridProperties.UncappedClosedRowsReachTarget` | src/grid.tsx:40-68 | with the default `maxColumns = Infinity`, every row but the last reaches the target |
| `GridProperties.PackRowsPastCapAreSingletons` | src/grid.tsx:57 | a row at index k with `k + 1 >= maxColumns` holds exactly one item: the cap limits rows, not items per row |
| `GridProperties.StepOpensRow` | src/grid.tsx:64-68 | a packing whose last row is a single item is what a new-row step makes of the rows before it |
| `GridProperties.StepJoinsRow` | src/grid.tsx:54-63 | a packing whose last row has several items is what an append step makes of that packing without its last item |
| `GridProperties.PackingIsPack` | src/grid.tsx:54-68 | any sequence of rows that satisfies the row invariants and flattens to the items is the packer's output |
| `GridProperties.PackIsTheOnlyPacking` | src/grid.tsx:47-71 | a sequence of rows equals the packer's output exactly when it flattens to the items and satisfies the greedy closing rule, so the rule leaves no freedom |
| `GridProperties.LayoutFailsIffInvalidChild` | src/grid.tsx:47-52 | the grid fails, always with the invalid-child error, exactly when some child at any position is not a valid grid item |
| `GridProperties.LayoutOfValidChildren` | src/grid.tsx:47-71 | when every child is a valid grid item, the grid yields the packing of the children's items |
| `GridProperties.SharesTotal` | src/grid.tsx:96-101 | the shares `ratio / d` of a row's items add up to the row's sum over `d` |
| `GridProperties.FullRowFillsWidth` | src/grid.tsx:96-101 | in a row whose sum reached the target, the width shares add up to exactly 1 |
| `GridProperties.ShortRowStaysShort` | src/grid.tsx:96-101 | in a row below the target, each share is `ratio / target`, and the shares add up to `sum / target`, which is less than 1 |
| `GridProperties.WidthShareInUnitInterval` | src/grid.tsx:96-101 | with positive ratios, every width share lies in (0, 1] |
| `GridProperties.PackedRowsWidths` | src/grid.tsx:82-101 | in every packed row, the shares add up to 1 when the row reached the target and to less than 1 otherwise; with no cap, only the last row can fall short |
| `GridScenarios.SumBelowTargetKeepsFilling` | src/grid.test.tsx:68-89 | `[2, 2, 3]` at target 5 is one row of sum 7 with shares 2/7, 2/7 and 3/7 |
| `GridScenarios.WideItemsStandAlone` | src/grid.test.tsx:91-110 | `[3, 4]` at target 2 gives two one-item rows, each filled by its item |
| `GridScenarios.ShortRowUsesTarget` | src/grid.test.tsx:112-136 | `[1, 2, 3, 2]` at target 10 is one row whose shares are 0.1, 0.2, 0.3 and 0.2 |
| `GridScenarios.MixedRatiosMakeTwoRows` | src/grid.test.tsx:138-163 | `[1, 2, 1, 3]` at target 3 gives rows `[1, 2]` and `[1, 3]`, with shares 1/3, 2/3 and 1/4, 3/4 |
| `GridScenarios.RowsOfTwoOneOne` | src/grid.test.tsx:165-191 | `[1, 1, 3, 4]` at target 2 gives rows `[1, 1]`, `[3]` and `[4]` |
| `GridScenarios.ExactTargetMakesOneRow` | src/grid.test.tsx:195-216 | `[2, 3]` at target 5 is one row of two, exactly filled by shares 0.4 and 0.6 |
| `GridScenarios.LoneWideItem` | src/grid.test.tsx:238-253 | a single item of ratio 5 at target 2 is one row holding only that item, which fills it |
| `GridScenarios.EqualRatiosShareOneRow` | src/grid.test.tsx:326-347 | `[1, 1, 1]` at target 5 is one row of three |
| `GridScenarios.TinyRatiosShareOneRow` | src/grid.test.tsx:349-370 | three items of ratio 0.05 at target 1 form one row of sum 0.15 |
| `GridScenarios.HugeRatiosStandAlone` | src/grid.test.tsx:372-391 | `[15, 20]` at target 5 gives two one-item rows |
| `GridScenarios.OvershootingRowUsesItsSum` | src/grid.test.tsx:218-236 | `[2, 2]` at target 3 is one row whose shares, 1/2 each, are taken against its sum 4 |
| `GridScenarios.EmptyAndInvalidChildren` | src/grid.test.tsx:257-308 | no children give no rows; a `div` or a mock component, both another element, makes the grid fail with the message the tests expect; beyond the tests, a `Grid.Item` without a ratio and a non-element after a valid item fail too |
| `GridScenarios.CapCountsRowsNotItems` | src/grid.tsx:54-68 | with target 10, four ratio-1 items form one row when `maxColumns` is 2, and four one-item rows when it is 1 |

## Left out

- Rendering is not modelled: the JSX output, the flex and gap styles, row and item keys, and the `React.cloneElement` calls (src/grid.tsx:73-110).
- The ref callback's write to `node.style.width` and the CSS `calc(...)` string are DOM side effects and are not modelled. Only the numeric share they encode is modelled (`WidthFraction`, `RowWidths`).
- `React.Children.toArray` is not modelled. It flattens nested arrays and drops `null`, `undefined` and boolean children. The model receives the sequence it produces. A fragment stays one element of type `React.Fragment`, so it is an `OtherElement` and makes the grid fail.
- React element inspection (`isValidElement`, comparing `child.type` with `GridItem`, the `props` tests) is reduced to three child shapes: a grid-item element with a ratio prop that is missing, non-numeric or numeric; another element; and a non-element.
- The `GridItem` component body (src/grid.tsx:14-20) only renders, so it is not modelled.
- JavaScript floating point is not modelled. Ratios, the target and `maxColumns` are exact reals. So `NaN`, infinite ratios and rounding do not arise, and a finite `maxColumns` is any real number.
- Grid.WidthFraction: requires `max(cumulativeAspectRatio, target)` to be non-zero. With a zero divisor the component still builds the style string `calc(R% / 0)`, and what the browser's CSS engine makes of it is not modelled. A negative divisor, possible only with a target and a row sum at or below zero, gives a negative share here; the browser clamps a negative width to zero, which is not modelled either.
- Grid.RowWidths: requires the same non-zero divisor as `WidthFraction`, for the same reason. The lemmas about shares assume a positive target.
- The demo application and the build configuration are not modelled: they are outside the core.
