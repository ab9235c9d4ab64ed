/**
 What the row packer and the width rule of the `Grid` component guarantee:
 the rows are a partition of the items in order, every row is non-empty and
 carries the sum of its ratios, rows close exactly where the greedy rule says,
 and the width shares fill a row that reached the target.
 */
module GridProperties {
  import opened Grid

  /** The items of all rows, row after row. */
  function Flatten<T>(rows: seq<Row<T>>): seq<Item<T>> {
    if rows == [] then [] else Flatten(rows[..|rows| - 1]) + rows[|rows| - 1].items
  }

  /** The sum of the items' ratios. */
  function Sum<T>(items: seq<Item<T>>): real {
    if items == [] then 0.0 else Sum(items[..|items| - 1]) + items[|items| - 1].ratio
  }

  /** The sum of a sequence of width shares. */
  function Total(ws: seq<real>): real {
    if ws == [] then 0.0 else Total(ws[..|ws| - 1]) + ws[|ws| - 1]
  }

  /** The shape of row `k` of a packing: it is non-empty, its running ratio is
      the sum of its items, every item after the first joined while the sum
      before it was below the target, and it got a second item only while
      fewer than `cap` rows existed. */
  ghost predicate RowShape<T>(row: Row<T>, k: nat, target: real, cap: ColumnCap) {
    && |row.items| > 0
    && row.cumulativeAspectRatio == Sum(row.items)
    && (forall j :: 0 < j < |row.items| ==> Sum(row.items[..j]) < target)
    && (|row.items| >= 2 ==> cap.Admits(k + 1))
  }

  /** A sequence of rows the greedy rule could have produced: each row has its
      shape, and every row but the last was closed because it had reached the
      target or because the row cap was reached. */
  ghost predicate Packed<T>(rows: seq<Row<T>>, target: real, cap: ColumnCap) {
    && (forall k :: 0 <= k < |rows| ==> RowShape(rows[k], k, target, cap))
    && (forall k :: 0 <= k < |rows| - 1 ==> rows[k].cumulativeAspectRatio >= target || !cap.Admits(k + 1))
  }

  lemma SumOfOne<T>(x: Item<T>)
    ensures Sum([x]) == x.ratio
  {
    assert [x][..0] == [];
  }

  lemma FlattenSnoc<T>(rows: seq<Row<T>>, row: Row<T>)
    ensures Flatten(rows + [row]) == Flatten(rows) + row.items
  {
    assert (rows + [row])[..|rows|] == rows;
  }

  /** Replacing the last row only changes the tail of the flattening. */
  lemma FlattenReplaceLast<T>(rows: seq<Row<T>>, row: Row<T>)
    requires |rows| > 0
    ensures Flatten(rows[|rows| - 1 := row]) == Flatten(rows[..|rows| - 1]) + row.items
  {
    var n := |rows|;
    assert rows[n - 1 := row] == rows[..n - 1] + [row];
    FlattenSnoc(rows[..n - 1], row);
  }

  /** One step of the fold adds the item at the end of the flattened rows. */
  lemma StepAppendsItem<T>(acc: seq<Row<T>>, item: Item<T>, target: real, cap: ColumnCap)
    ensures Flatten(Step(acc, item, target, cap)) == Flatten(acc) + [item]
  {
    var n := |acc|;
    if JoinsLastRow(acc, target, cap) {
      var last := acc[n - 1];
      FlattenReplaceLast(acc, Row(last.cumulativeAspectRatio + item.ratio, last.items + [item]));
      assert acc == acc[..n - 1] + [last];
      FlattenSnoc(acc[..n - 1], last);
    } else {
      FlattenSnoc(acc, Row(item.ratio, [item]));
    }
  }

  /** Either branch of a step adds at most one row, leaves the rows before
      the last one alone, and makes `item` the last item of the last row. */
  lemma StepShape<T>(acc: seq<Row<T>>, item: Item<T>, target: real, cap: ColumnCap)
    ensures var rows := Step(acc, item, target, cap);
      && |acc| <= |rows| <= |acc| + 1 && |rows| > 0
      && (forall k :: 0 <= k < |acc| - 1 ==> rows[k] == acc[k])
      && |rows[|rows| - 1].items| > 0
      && rows[|rows| - 1].items[|rows[|rows| - 1].items| - 1] == item
  {
  }

  /** Appending `item` to the last row keeps the shape. */
  lemma JoinKeepsPacked<T>(acc: seq<Row<T>>, item: Item<T>, target: real, cap: ColumnCap)
    requires Packed(acc, target, cap)
    requires JoinsLastRow(acc, target, cap)
    ensures var last := acc[|acc| - 1];
      Packed(acc[|acc| - 1 := Row(last.cumulativeAspectRatio + item.ratio, last.items + [item])], target, cap)
  {
    var n := |acc|;
    var last := acc[n - 1];
    var grown := Row(last.cumulativeAspectRatio + item.ratio, last.items + [item]);
    var rows := acc[n - 1 := grown];
    assert RowShape(last, n - 1, target, cap);
    assert (last.items + [item])[..|last.items|] == last.items;
    forall j | 0 < j < |grown.items|
      ensures Sum(grown.items[..j]) < target
    {
      if j < |last.items| {
        assert grown.items[..j] == last.items[..j];
      }
    }
    assert RowShape(grown, n - 1, target, cap);
    forall k | 0 <= k < |rows|
      ensures RowShape(rows[k], k, target, cap)
    {
      if k < n - 1 { assert rows[k] == acc[k]; }
    }
    forall k | 0 <= k < |rows| - 1
      ensures rows[k].cumulativeAspectRatio >= target || !cap.Admits(k + 1)
    {
      assert rows[k] == acc[k];
    }
  }

  /** Opening the row `[item]` keeps the shape. */
  lemma OpenKeepsPacked<T>(acc: seq<Row<T>>, item: Item<T>, target: real, cap: ColumnCap)
    requires Packed(acc, target, cap)
    requires !JoinsLastRow(acc, target, cap)
    ensures Packed(acc + [Row(item.ratio, [item])], target, cap)
  {
    var n := |acc|;
    var newRow := Row(item.ratio, [item]);
    var rows := acc + [newRow];
    SumOfOne(item);
    assert RowShape(newRow, n, target, cap);
    forall k | 0 <= k < |rows|
      ensures RowShape(rows[k], k, target, cap)
    {
      if k < n { assert rows[k] == acc[k]; }
    }
    forall k | 0 <= k < |rows| - 1
      ensures rows[k].cumulativeAspectRatio >= target || !cap.Admits(k + 1)
    {
      assert rows[k] == acc[k];
    }
  }

  /** One step of the fold keeps the shape. */
  lemma StepKeepsPacked<T>(acc: seq<Row<T>>, item: Item<T>, target: real, cap: ColumnCap)
    requires Packed(acc, target, cap)
    ensures Packed(Step(acc, item, target, cap), target, cap)
  {
    if JoinsLastRow(acc, target, cap) {
      JoinKeepsPacked(acc, item, target, cap);
    } else {
      OpenKeepsPacked(acc, item, target, cap);
    }
  }

  /** Every result of the fold is a packing. */
  lemma {:induction false} PackIsPacked<T>(items: seq<Item<T>>, target: real, cap: ColumnCap)
    ensures Packed(Pack(items, target, cap), target, cap)
  {
    if items != [] {
      var n := |items|;
      PackIsPacked(items[..n - 1], target, cap);
      StepKeepsPacked(Pack(items[..n - 1], target, cap), items[n - 1], target, cap);
    }
  }

  /** The packer is a left fold: one more item is one more step. */
  lemma PackSnoc<T>(items: seq<Item<T>>, x: Item<T>, target: real, cap: ColumnCap)
    ensures Pack(items + [x], target, cap) == Step(Pack(items, target, cap), x, target, cap)
  {
    assert (items + [x])[..|items|] == items;
  }

  /** The rows, read in order, give back the items: nothing is dropped,
      duplicated or reordered. */
  lemma {:induction false} PackKeepsItemsInOrder<T>(items: seq<Item<T>>, target: real, cap: ColumnCap)
    ensures Flatten(Pack(items, target, cap)) == items
  {
    if items != [] {
      var front, x := items[..|items| - 1], items[|items| - 1];
      var acc := Pack(front, target, cap);
      assert Pack(items, target, cap) == Step(acc, x, target, cap);
      calc {
        Flatten(Step(acc, x, target, cap));
        { StepAppendsItem(acc, x, target, cap); }
        Flatten(acc) + [x];
        { PackKeepsItemsInOrder(front, target, cap); }
        front + [x];
        { assert front + [x] == items; }
        items;
      }
    }
  }

  /** Rows that all hold an item flatten to at least one item per row. */
  lemma {:induction false} FlattenOfNonEmptyRows<T>(rows: seq<Row<T>>)
    requires forall k :: 0 <= k < |rows| ==> |rows[k].items| > 0
    ensures |Flatten(rows)| >= |rows|
  {
    if rows != [] {
      FlattenOfNonEmptyRows(rows[..|rows| - 1]);
    }
  }

  /** No input gives rows of no items, no items give no rows, and there are
      never more rows than items. */
  lemma {:induction false} PackRowsAreNonEmpty<T>(items: seq<Item<T>>, target: real, cap: ColumnCap)
    ensures forall k :: 0 <= k < |Pack(items, target, cap)| ==> |Pack(items, target, cap)[k].items| > 0
    ensures (Pack(items, target, cap) == []) <==> (items == [])
    ensures |Pack(items, target, cap)| <= |items|
  {
    PackIsPacked(items, target, cap);
    PackKeepsItemsInOrder(items, target, cap);
    assert Flatten<T>([]) == [];
    FlattenOfNonEmptyRows(Pack(items, target, cap));
  }

  /** Each row's running ratio is the sum of its items' ratios. */
  lemma {:induction false} PackCumulativeIsSum<T>(items: seq<Item<T>>, target: real, cap: ColumnCap)
    ensures forall k :: 0 <= k < |Pack(items, target, cap)| ==>
      Pack(items, target, cap)[k].cumulativeAspectRatio == Sum(Pack(items, target, cap)[k].items)
  {
    PackIsPacked(items, target, cap);
  }

  /** A row with two or more items, without its last item, sums to less than
      the target; so it overshoots the target by less than its last ratio. */
  lemma {:induction false} PackOvershootBelowLastRatio<T>(items: seq<Item<T>>, target: real, cap: ColumnCap, k: nat)
    requires k < |Pack(items, target, cap)|
    requires |Pack(items, target, cap)[k].items| >= 2
    ensures var row := Pack(items, target, cap)[k];
      && Sum(row.items[..|row.items| - 1]) < target
      && row.cumulativeAspectRatio < target + row.items[|row.items| - 1].ratio
  {
    PackIsPacked(items, target, cap);
    var row := Pack(items, target, cap)[k];
    assert RowShape(row, k, target, cap);
    assert Sum(row.items[..|row.items| - 1]) < target;
  }

  /** Every row but the last reached the target, or stands at an index where
      the row cap was already reached. */
  lemma {:induction false} PackClosedRowsReachTargetOrCap<T>(items: seq<Item<T>>, target: real, cap: ColumnCap)
    ensures forall k :: 0 <= k < |Pack(items, target, cap)| - 1 ==>
      Pack(items, target, cap)[k].cumulativeAspectRatio >= target || !cap.Admits(k + 1)
  {
    PackIsPacked(items, target, cap);
  }

  /** With the default cap, every row but the last reaches the target. */
  lemma {:induction false} UncappedClosedRowsReachTarget<T>(items: seq<Item<T>>, target: real)
    ensures forall k :: 0 <= k < |Pack(items, target, Infinity)| - 1 ==>
      Pack(items, target, Infinity)[k].cumulativeAspectRatio >= target
  {
    PackClosedRowsReachTargetOrCap(items, target, Infinity);
  }

  /** The cap counts rows, not items in a row: a row at index `k` holds more
      than one item only if `k + 1 < maxColumns`, so once `maxColumns` rows
      exist every later item stands alone in its row. */
  lemma {:induction false} PackRowsPastCapAreSingletons<T>(items: seq<Item<T>>, target: real, cap: ColumnCap)
    ensures forall k :: 0 <= k < |Pack(items, target, cap)| && !cap.Admits(k + 1) ==>
      |Pack(items, target, cap)[k].items| == 1
  {
    PackIsPacked(items, target, cap);
    forall k | 0 <= k < |Pack(items, target, cap)| && !cap.Admits(k + 1)
      ensures |Pack(items, target, cap)[k].items| == 1
    {
      assert RowShape(Pack(items, target, cap)[k], k, target, cap);
    }
  }

  /** Dropping the last row of a packing leaves a packing. */
  lemma DropLastRowPacked<T>(rows: seq<Row<T>>, target: real, cap: ColumnCap)
    requires |rows| > 0 && Packed(rows, target, cap)
    ensures Packed(rows[..|rows| - 1], target, cap)
  {
  }

  /** Dropping the last item of a multi-item last row leaves a packing. */
  lemma ShrinkLastRowPacked<T>(rows: seq<Row<T>>, target: real, cap: ColumnCap)
    requires |rows| > 0 && Packed(rows, target, cap)
    requires |rows[|rows| - 1].items| >= 2
    ensures var last := rows[|rows| - 1];
      var m := |last.items|;
      && Sum(last.items[..m - 1]) + last.items[m - 1].ratio == last.cumulativeAspectRatio
      && Packed(rows[|rows| - 1 := Row(Sum(last.items[..m - 1]), last.items[..m - 1])], target, cap)
  {
    var n := |rows|;
    var last := rows[n - 1];
    var m := |last.items|;
    var shrunk := Row(Sum(last.items[..m - 1]), last.items[..m - 1]);
    assert RowShape(last, n - 1, target, cap);
    forall j | 0 < j < |shrunk.items|
      ensures Sum(shrunk.items[..j]) < target
    {
      assert shrunk.items[..j] == last.items[..j];
    }
    assert RowShape(shrunk, n - 1, target, cap);
  }

  /** A packing whose last row is a single item `x` is what the fold makes of
      the rows before it and `x`. */
  lemma StepOpensRow<T>(rows: seq<Row<T>>, target: real, cap: ColumnCap)
    requires |rows| > 0 && Packed(rows, target, cap)
    requires |rows[|rows| - 1].items| == 1
    ensures var x := rows[|rows| - 1].items[0];
      && Packed(rows[..|rows| - 1], target, cap)
      && Flatten(rows) == Flatten(rows[..|rows| - 1]) + [x]
      && Step(rows[..|rows| - 1], x, target, cap) == rows
  {
    var n := |rows|;
    var last := rows[n - 1];
    var x := last.items[0];
    assert RowShape(last, n - 1, target, cap);
    assert last.items == [x];
    SumOfOne(x);
    assert !JoinsLastRow(rows[..n - 1], target, cap) by {
      if n > 1 { assert rows[..n - 1][n - 2] == rows[n - 2]; }
    }
    assert rows == rows[..n - 1] + [Row(x.ratio, [x])];
    DropLastRowPacked(rows, target, cap);
  }

  /** A packing whose last row has several items is what the fold makes of the
      same packing without that row's last item, and that item. */
  lemma StepJoinsRow<T>(rows: seq<Row<T>>, target: real, cap: ColumnCap)
    requires |rows| > 0 && Packed(rows, target, cap)
    requires |rows[|rows| - 1].items| >= 2
    ensures var last := rows[|rows| - 1];
      var m := |last.items|;
      var before := rows[|rows| - 1 := Row(Sum(last.items[..m - 1]), last.items[..m - 1])];
      && Packed(before, target, cap)
      && Flatten(rows) == Flatten(before) + [last.items[m - 1]]
      && Step(before, last.items[m - 1], target, cap) == rows
  {
    var n := |rows|;
    var last := rows[n - 1];
    var m := |last.items|;
    var x := last.items[m - 1];
    var shrunk := Row(Sum(last.items[..m - 1]), last.items[..m - 1]);
    var before := rows[n - 1 := shrunk];
    ShrinkLastRowPacked(rows, target, cap);
    assert RowShape(last, n - 1, target, cap);
    assert JoinsLastRow(before, target, cap);
    assert last.items[..m - 1] + [x] == last.items;
    assert before[n - 1 := Row(shrunk.cumulativeAspectRatio + x.ratio, shrunk.items + [x])] == rows;
    FlattenReplaceLast(rows, shrunk);
    assert rows == rows[..n - 1] + [last];
    FlattenSnoc(rows[..n - 1], last);
  }

  /** The last row of a non-empty packing has an item. */
  lemma LastRowNonEmpty<T>(rows: seq<Row<T>>, target: real, cap: ColumnCap)
    requires |rows| > 0 && Packed(rows, target, cap)
    ensures |rows[|rows| - 1].items| > 0
  {
    assert RowShape(rows[|rows| - 1], |rows| - 1, target, cap);
  }

  /** Every packing of `items` is the one the fold produces. */
  lemma {:induction false} PackingIsPack<T>(rows: seq<Row<T>>, items: seq<Item<T>>, target: real, cap: ColumnCap)
    requires Flatten(rows) == items && Packed(rows, target, cap)
    ensures rows == Pack(items, target, cap)
    decreases |items|
  {
    if rows != [] {
      var n := |rows|;
      LastRowNonEmpty(rows, target, cap);
      var last := rows[n - 1];
      var m := |last.items|;
      var x := last.items[m - 1];
      if m == 1 {
        StepOpensRow(rows, target, cap);
        assert items[..|items| - 1] == Flatten(rows[..n - 1]) && items[|items| - 1] == x;
        PackingIsPack(rows[..n - 1], items[..|items| - 1], target, cap);
      } else {
        var before := rows[n - 1 := Row(Sum(last.items[..m - 1]), last.items[..m - 1])];
        StepJoinsRow(rows, target, cap);
        assert items[..|items| - 1] == Flatten(before) && items[|items| - 1] == x;
        PackingIsPack(before, items[..|items| - 1], target, cap);
      }
    }
  }

  /** The greedy rule leaves no freedom: a sequence of rows is the packer's
      output for `items` exactly when it flattens to `items` and is a
      packing. */
  lemma PackIsTheOnlyPacking<T>(rows: seq<Row<T>>, items: seq<Item<T>>, target: real, cap: ColumnCap)
    ensures (rows == Pack(items, target, cap)) <==> (Flatten(rows) == items && Packed(rows, target, cap))
  {
    PackIsPacked(items, target, cap);
    PackKeepsItemsInOrder(items, target, cap);
    if Flatten(rows) == items && Packed(rows, target, cap) {
      PackingIsPack(rows, items, target, cap);
    }
  }

  /** The grid fails exactly when some child, anywhere, is not a grid item,
      and then always with the invalid-child error and its fixed message. */
  lemma {:induction false} LayoutFailsIffInvalidChild<T>(children: seq<Child<T>>, target: real, cap: ColumnCap)
    ensures Layout(children, target, cap).Err? <==> exists i :: 0 <= i < |children| && !IsGridItem(children[i])
    ensures Layout(children, target, cap).Err? ==> Layout(children, target, cap).error == InvalidChild
  {
    if children != [] {
      var n := |children|;
      var front := children[..n - 1];
      LayoutFailsIffInvalidChild(front, target, cap);
      assert forall i :: 0 <= i < n - 1 ==> front[i] == children[i];
      if Layout(front, target, cap).Err? {
        var i :| 0 <= i < n - 1 && !IsGridItem(front[i]);
        assert !IsGridItem(children[i]);
      }
    }
  }

  /** When every child is a grid item, the grid lays out their items. */
  lemma {:induction false} LayoutOfValidChildren<T>(children: seq<Child<T>>, target: real, cap: ColumnCap)
    requires forall i :: 0 <= i < |children| ==> IsGridItem(children[i])
    ensures Layout(children, target, cap) == Ok(Pack(ItemsOf(children), target, cap))
  {
    if children != [] {
      var n := |children|;
      var front := children[..n - 1];
      assert forall i :: 0 <= i < n - 1 ==> front[i] == children[i];
      LayoutOfValidChildren(front, target, cap);
      var items := ItemsOf(children);
      assert items[..n - 1] == ItemsOf(front);
      assert items[n - 1] == AsItem(children[n - 1]);
    }
  }

  /** Shares `ratio / d` of a run of items add up to the run's sum over `d`. */
  lemma {:induction false} SharesTotal<T>(items: seq<Item<T>>, ws: seq<real>, d: real)
    requires d != 0.0
    requires |ws| == |items|
    requires forall i :: 0 <= i < |ws| ==> ws[i] == items[i].ratio / d
    ensures Total(ws) == Sum(items) / d
  {
    if items != [] {
      var n := |items|;
      SharesTotal(items[..n - 1], ws[..n - 1], d);
      assert Total(ws) == Sum(items[..n - 1]) / d + items[n - 1].ratio / d;
    }
  }

  /** In a row that reached the target, the width shares add up to one. */
  lemma FullRowFillsWidth<T>(row: Row<T>, target: real)
    requires target > 0.0
    requires row.cumulativeAspectRatio == Sum(row.items)
    requires row.cumulativeAspectRatio >= target
    ensures Total(RowWidths(row, target)) == 1.0
  {
    var c := row.cumulativeAspectRatio;
    var ws := RowWidths(row, target);
    assert Max(c, target) == c;
    forall i | 0 <= i < |ws| ensures ws[i] == row.items[i].ratio / c {
      assert ws[i] == WidthFraction(row.items[i], row, target);
    }
    SharesTotal(row.items, ws, c);
    assert Total(ws) == c / c;
    assert c / c == 1.0;
  }

  /** In a row short of the target, each share is the ratio over the target
      and the shares add up to the row's sum over the target, less than one. */
  lemma ShortRowStaysShort<T>(row: Row<T>, target: real)
    requires target > 0.0
    requires row.cumulativeAspectRatio == Sum(row.items)
    requires row.cumulativeAspectRatio < target
    ensures forall i :: 0 <= i < |row.items| ==> RowWidths(row, target)[i] == row.items[i].ratio / target
    ensures Total(RowWidths(row, target)) == row.cumulativeAspectRatio / target
    ensures Total(RowWidths(row, target)) < 1.0
  {
    SharesTotal(row.items, RowWidths(row, target), target);
    BelowWholeIsBelowOne(row.cumulativeAspectRatio, target);
  }

  /** Less than the whole is a share below one. */
  lemma BelowWholeIsBelowOne(a: real, d: real)
    requires a < d && 0.0 < d
    ensures a / d < 1.0
  {
    assert a / d * d == a;
  }

  /** With positive ratios, one item's ratio is at most the sum. */
  lemma {:induction false} RatioAtMostSum<T>(items: seq<Item<T>>, i: nat)
    requires i < |items|
    requires forall j :: 0 <= j < |items| ==> items[j].ratio > 0.0
    ensures items[i].ratio <= Sum(items)
  {
    var n := |items|;
    if n > 1 {
      var front := items[..n - 1];
      if i < n - 1 {
        RatioAtMostSum(front, i);
      }
      if front != [] {
        RatioAtMostSum(front, 0);
      }
    }
  }

  /** With positive ratios, every width share lies in (0, 1]. */
  lemma WidthShareInUnitInterval<T>(row: Row<T>, target: real, i: nat)
    requires target > 0.0
    requires i < |row.items|
    requires forall j :: 0 <= j < |row.items| ==> row.items[j].ratio > 0.0
    requires row.cumulativeAspectRatio == Sum(row.items)
    ensures 0.0 < RowWidths(row, target)[i] <= 1.0
  {
    RatioAtMostSum(row.items, i);
    var d := Max(row.cumulativeAspectRatio, target);
    ShareOfWhole(row.items[i].ratio, d);
  }

  /** A positive part of a whole is a share in (0, 1]. */
  lemma ShareOfWhole(a: real, d: real)
    requires 0.0 < a <= d
    ensures 0.0 < a / d <= 1.0
  {
    assert a / d * d == a;
  }

  /** Over the rows the grid renders: every row that reached the target is
      filled exactly, any other row is left short, and with the default cap
      only the last row can be short. */
  lemma PackedRowsWidths<T>(items: seq<Item<T>>, target: real, cap: ColumnCap, k: nat)
    requires target > 0.0
    requires k < |Pack(items, target, cap)|
    ensures var row := Pack(items, target, cap)[k];
      && (row.cumulativeAspectRatio >= target ==> Total(RowWidths(row, target)) == 1.0)
      && (row.cumulativeAspectRatio < target ==> Total(RowWidths(row, target)) < 1.0)
      && (row.cumulativeAspectRatio < target && cap == Infinity ==> k == |Pack(items, target, cap)| - 1)
  {
    PackIsPacked(items, target, cap);
    var row := Pack(items, target, cap)[k];
    assert RowShape(row, k, target, cap);
    if row.cumulativeAspectRatio >= target {
      FullRowFillsWidth(row, target);
    } else {
      ShortRowStaysShort(row, target);
    }
  }
}
