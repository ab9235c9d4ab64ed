/**
 A model of the row-packing core of the justified `Grid` component: the
 children of a grid are folded left to right into rows, each row remembering
 the sum of its items' aspect ratios, and every item then gets a share of its
 row's width.
 */
module Grid {

  /** The `ratio` prop of a child element, as far as validation can tell. */
  datatype RatioProp = Missing | NonNumeric | Numeric(value: real)

  /** A child handed to the grid. Only a `GridItemElement` whose ratio is a
      number is accepted; `content` is the opaque payload it wraps. */
  datatype Child<T> =
    | GridItemElement(ratio: RatioProp, content: T)
    | OtherElement
    | NonElement

  /** A validated grid item: its aspect ratio and its payload. */
  datatype Item<T> = Item(ratio: real, content: T)

  /** A row of the layout: its items, in order, and their running ratio sum. */
  datatype Row<T> = Row(cumulativeAspectRatio: real, items: seq<Item<T>>)

  /** The `maxColumns` prop; it defaults to infinity. */
  datatype ColumnCap = Infinity | Finite(n: real) {
    /** The `acc.length < maxColumns` test, for `count` rows built so far. */
    predicate Admits(count: nat) {
      Infinity? || (count as real) < n
    }
  }

  /** The only way the fold can fail. */
  datatype GridError = InvalidChild

  datatype Result<T> = Ok(value: T) | Err(error: GridError)

  /** The text of the error the component throws for a bad child. */
  function Message(e: GridError): string {
    match e
    case InvalidChild =>
      "Invalid child provided to Grid, ensure that a valid GridItem with correct props is used as children"
  }

  /** The `isGridItem` type guard. */
  predicate IsGridItem<T>(c: Child<T>) {
    c.GridItemElement? && c.ratio.Numeric?
  }

  /** The item a valid child stands for. */
  function AsItem<T>(c: Child<T>): Item<T>
    requires IsGridItem(c)
  {
    Item(c.ratio.value, c.content)
  }

  /** The items a sequence of valid children stand for, in order. */
  function ItemsOf<T>(children: seq<Child<T>>): (items: seq<Item<T>>)
    requires forall i :: 0 <= i < |children| ==> IsGridItem(children[i])
    ensures |items| == |children|
    ensures forall i :: 0 <= i < |children| ==> items[i] == AsItem(children[i])
  {
    if children == [] then [] else ItemsOf(children[..|children| - 1]) + [AsItem(children[|children| - 1])]
  }

  /** Whether the item after `acc` joins the last row: a last row exists, its
      ratio sum is still below the target, and fewer than `cap` ROWS exist. */
  predicate JoinsLastRow<T>(acc: seq<Row<T>>, target: real, cap: ColumnCap) {
    |acc| > 0 && acc[|acc| - 1].cumulativeAspectRatio < target && cap.Admits(|acc|)
  }

  /** One step of the reduce: append `item` to the last row, or open `[item]`. */
  function Step<T>(acc: seq<Row<T>>, item: Item<T>, target: real, cap: ColumnCap): seq<Row<T>> {
    if JoinsLastRow(acc, target, cap) then
      var last := acc[|acc| - 1];
      acc[|acc| - 1 := Row(last.cumulativeAspectRatio + item.ratio, last.items + [item])]
    else
      acc + [Row(item.ratio, [item])]
  }

  /** The reduce over validated items, starting from `[]`: never more rows
      than items, and no rows exactly when there are no items. */
  function Pack<T>(items: seq<Item<T>>, target: real, cap: ColumnCap): (rows: seq<Row<T>>)
  {
    if items == [] then []
    else Step(Pack(items[..|items| - 1], target, cap), items[|items| - 1], target, cap)
  }

  /** The reduce over raw children: the first child that is not a grid item
      aborts the whole fold with `InvalidChild`. */
  function Layout<T>(children: seq<Child<T>>, target: real, cap: ColumnCap): Result<seq<Row<T>>> {
    if children == [] then Ok([])
    else
      match Layout(children[..|children| - 1], target, cap)
      case Err(e) => Err(e)
      case Ok(acc) =>
        var child := children[|children| - 1];
        if IsGridItem(child) then Ok(Step(acc, AsItem(child), target, cap)) else Err(InvalidChild)
  }

  /** Once a prefix of the children has failed, so has the whole fold. */
  lemma {:induction false} LayoutFailureSticks<T>(children: seq<Child<T>>, n: nat, target: real, cap: ColumnCap)
    requires n <= |children|
    requires Layout(children[..n], target, cap) == Err(InvalidChild)
    ensures Layout(children, target, cap) == Err(InvalidChild)
  {
    if n < |children| {
      assert children[..|children| - 1][..n] == children[..n];
      LayoutFailureSticks(children[..|children| - 1], n, target, cap);
    } else {
      assert children[..n] == children;
    }
  }

  /** The rows the grid renders, computed as the component does: a loop over
      the children with an accumulator whose last row is overwritten in place
      when an item joins it, and an early exit on an invalid child. */
  method ComputeRows<T>(children: seq<Child<T>>, targetRowAspectRatio: real, maxColumns: ColumnCap)
    returns (rows: Result<seq<Row<T>>>)
    ensures rows == Layout(children, targetRowAspectRatio, maxColumns)
  {
    var acc: seq<Row<T>> := [];
    for i := 0 to |children|
      invariant Layout(children[..i], targetRowAspectRatio, maxColumns) == Ok(acc)
    {
      assert children[..i + 1][..i] == children[..i];
      var child := children[i];
      if !IsGridItem(child) {
        LayoutFailureSticks(children, i + 1, targetRowAspectRatio, maxColumns);
        return Err(InvalidChild);
      }
      var ratio := child.ratio.value;
      if |acc| > 0 && acc[|acc| - 1].cumulativeAspectRatio < targetRowAspectRatio && maxColumns.Admits(|acc|) {
        var lastRow := acc[|acc| - 1];
        acc := acc[|acc| - 1 := Row(lastRow.cumulativeAspectRatio + ratio, lastRow.items + [Item(ratio, child.content)])];
      } else {
        acc := acc + [Row(ratio, [Item(ratio, child.content)])];
      }
    }
    assert children[..|children|] == children;
    rows := Ok(acc);
  }

  /** The larger of two reals, as `Math.max`. */
  function Max(a: real, b: real): (m: real)
    ensures m >= a && m >= b && (m == a || m == b)
  {
    if a < b then b else a
  }

  /** The width share of `item` in `row`: its ratio over the larger of the
      row's ratio sum and the target. */
  function WidthFraction<T>(item: Item<T>, row: Row<T>, target: real): real
    requires Max(row.cumulativeAspectRatio, target) != 0.0
  {
    item.ratio / Max(row.cumulativeAspectRatio, target)
  }

  /** The width shares of a row's items, in item order. */
  function RowWidths<T>(row: Row<T>, target: real): seq<real>
    requires Max(row.cumulativeAspectRatio, target) != 0.0
  {
    seq(|row.items|, i requires 0 <= i < |row.items| => WidthFraction(row.items[i], row, target))
  }
}
