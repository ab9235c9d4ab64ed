/**
 Concrete layouts the component's test suite describes, computed from the
 model: which rows a run of ratios packs into, and the width shares of a row.
 */
module GridScenarios {
  import opened Grid
  import opened GridProperties

  /** `[2, 2, 3]` at target 5: the sum 4 is still below 5 when the third item
      comes, so all three share one row of sum 7, with shares 2/7, 2/7, 3/7. */
  lemma SumBelowTargetKeepsFilling()
    ensures var a, b, c := Item(2.0, "Item 1"), Item(2.0, "Item 2"), Item(3.0, "Item 3");
      && Pack([a, b, c], 5.0, Infinity) == [Row(7.0, [a, b, c])]
      && RowWidths(Row(7.0, [a, b, c]), 5.0) == [2.0 / 7.0, 2.0 / 7.0, 3.0 / 7.0]
  {
    var a, b, c := Item(2.0, "Item 1"), Item(2.0, "Item 2"), Item(3.0, "Item 3");
    assert [] + [a] == [a];
    PackSnoc([], a, 5.0, Infinity);
    assert [a] + [b] == [a, b];
    PackSnoc([a], b, 5.0, Infinity);
    assert [a, b] + [c] == [a, b, c];
    PackSnoc([a, b], c, 5.0, Infinity);
  }

  /** `[3, 4]` at target 2: each item reaches the target alone, gets its own
      row and fills it. */
  lemma WideItemsStandAlone()
    ensures var a, b := Item(3.0, "Wide Item 1"), Item(4.0, "Wide Item 2");
      && Pack([a, b], 2.0, Infinity) == [Row(3.0, [a]), Row(4.0, [b])]
      && RowWidths(Row(3.0, [a]), 2.0) == [1.0]
      && RowWidths(Row(4.0, [b]), 2.0) == [1.0]
  {
    var a, b := Item(3.0, "Wide Item 1"), Item(4.0, "Wide Item 2");
    assert [] + [a] == [a];
    PackSnoc([], a, 2.0, Infinity);
    assert [a] + [b] == [a, b];
    PackSnoc([a], b, 2.0, Infinity);
  }

  /** `[1, 2, 3, 2]` at target 10: one row of sum 8, whose shares are taken
      against the target and add up to 0.8. */
  lemma ShortRowUsesTarget()
    ensures var a, b, c, d := Item(1.0, "Item 1"), Item(2.0, "Item 2"), Item(3.0, "Item 3"), Item(2.0, "Item 4");
      && Pack([a, b, c, d], 10.0, Infinity) == [Row(8.0, [a, b, c, d])]
      && RowWidths(Row(8.0, [a, b, c, d]), 10.0) == [0.1, 0.2, 0.3, 0.2]
  {
    var a, b, c, d := Item(1.0, "Item 1"), Item(2.0, "Item 2"), Item(3.0, "Item 3"), Item(2.0, "Item 4");
    assert [] + [a] == [a];
    PackSnoc([], a, 10.0, Infinity);
    assert [a] + [b] == [a, b];
    PackSnoc([a], b, 10.0, Infinity);
    assert [a, b] + [c] == [a, b, c];
    PackSnoc([a, b], c, 10.0, Infinity);
    assert [a, b, c] + [d] == [a, b, c, d];
    PackSnoc([a, b, c], d, 10.0, Infinity);
  }

  /** `[1, 2, 1, 3]` at target 3: rows `[1, 2]` (sum 3) and `[1, 3]` (sum 4),
      with shares 1/3, 2/3 and 1/4, 3/4. */
  lemma MixedRatiosMakeTwoRows()
    ensures var a, b, c, d := Item(1.0, "Item 1"), Item(2.0, "Item 2"), Item(1.0, "Item 3"), Item(3.0, "Item 4");
      && Pack([a, b, c, d], 3.0, Infinity) == [Row(3.0, [a, b]), Row(4.0, [c, d])]
      && RowWidths(Row(3.0, [a, b]), 3.0) == [1.0 / 3.0, 2.0 / 3.0]
      && RowWidths(Row(4.0, [c, d]), 3.0) == [0.25, 0.75]
  {
    var a, b, c, d := Item(1.0, "Item 1"), Item(2.0, "Item 2"), Item(1.0, "Item 3"), Item(3.0, "Item 4");
    assert [] + [a] == [a];
    PackSnoc([], a, 3.0, Infinity);
    assert [a] + [b] == [a, b];
    PackSnoc([a], b, 3.0, Infinity);
    assert [a, b] + [c] == [a, b, c];
    PackSnoc([a, b], c, 3.0, Infinity);
    assert [a, b, c] + [d] == [a, b, c, d];
    assert Pack([a, b, c], 3.0, Infinity) == [Row(3.0, [a, b]), Row(1.0, [c])];
    PackSnoc([a, b, c], d, 3.0, Infinity);
    assert [c] + [d] == [c, d];
  }

  /** `[1, 1, 3, 4]` at target 2: rows `[1, 1]`, `[3]` and `[4]`. */
  lemma RowsOfTwoOneOne()
    ensures var a, b, c, d := Item(1.0, "Item 1"), Item(1.0, "Item 2"), Item(3.0, "Item 3"), Item(4.0, "Item 4");
      Pack([a, b, c, d], 2.0, Infinity) == [Row(2.0, [a, b]), Row(3.0, [c]), Row(4.0, [d])]
  {
    var a, b, c, d := Item(1.0, "Item 1"), Item(1.0, "Item 2"), Item(3.0, "Item 3"), Item(4.0, "Item 4");
    assert [] + [a] == [a];
    PackSnoc([], a, 2.0, Infinity);
    assert [a] + [b] == [a, b];
    PackSnoc([a], b, 2.0, Infinity);
    assert [a, b] + [c] == [a, b, c];
    PackSnoc([a, b], c, 2.0, Infinity);
    assert [a, b, c] + [d] == [a, b, c, d];
    PackSnoc([a, b, c], d, 2.0, Infinity);
  }

  /** `[2, 3]` at target 5: the second item joins the first, whose sum 2 is
      below 5, and the row of sum 5 is filled by shares 2/5 and 3/5. */
  lemma ExactTargetMakesOneRow()
    ensures var a, b := Item(2.0, "Item 1"), Item(3.0, "Item 2");
      && Pack([a, b], 5.0, Infinity) == [Row(5.0, [a, b])]
      && RowWidths(Row(5.0, [a, b]), 5.0) == [0.4, 0.6]
  {
    var a, b := Item(2.0, "Item 1"), Item(3.0, "Item 2");
    assert [] + [a] == [a];
    PackSnoc([], a, 5.0, Infinity);
    assert [a] + [b] == [a, b];
    PackSnoc([a], b, 5.0, Infinity);
  }

  /** A single item of ratio 5 at target 2 is one row holding it alone. */
  lemma LoneWideItem()
    ensures var a := Item(5.0, "Wide Item");
      && Pack([a], 2.0, Infinity) == [Row(5.0, [a])]
      && RowWidths(Row(5.0, [a]), 2.0) == [1.0]
  {
    var a := Item(5.0, "Wide Item");
    assert [] + [a] == [a];
    PackSnoc([], a, 2.0, Infinity);
  }

  /** `[1, 1, 1]` at target 5: the sum never reaches 5, so all three stay in
      one row. */
  lemma EqualRatiosShareOneRow()
    ensures var a, b, c := Item(1.0, "Item 1"), Item(1.0, "Item 2"), Item(1.0, "Item 3");
      Pack([a, b, c], 5.0, Infinity) == [Row(3.0, [a, b, c])]
  {
    var a, b, c := Item(1.0, "Item 1"), Item(1.0, "Item 2"), Item(1.0, "Item 3");
    assert [] + [a] == [a];
    PackSnoc([], a, 5.0, Infinity);
    assert [a] + [b] == [a, b];
    PackSnoc([a], b, 5.0, Infinity);
    assert [a, b] + [c] == [a, b, c];
    PackSnoc([a, b], c, 5.0, Infinity);
  }

  /** Three items of ratio 0.05 at target 1: the sum 0.15 stays below 1, so
      they form one row. */
  lemma TinyRatiosShareOneRow()
    ensures var a, b, c := Item(0.05, "Tiny Item 1"), Item(0.05, "Tiny Item 2"), Item(0.05, "Tiny Item 3");
      Pack([a, b, c], 1.0, Infinity) == [Row(0.15, [a, b, c])]
  {
    var a, b, c := Item(0.05, "Tiny Item 1"), Item(0.05, "Tiny Item 2"), Item(0.05, "Tiny Item 3");
    assert [] + [a] == [a];
    PackSnoc([], a, 1.0, Infinity);
    assert [a] + [b] == [a, b];
    PackSnoc([a], b, 1.0, Infinity);
    assert [a, b] + [c] == [a, b, c];
    PackSnoc([a, b], c, 1.0, Infinity);
  }

  /** `[15, 20]` at target 5: each item exceeds the target alone, so each
      gets a row of its own. */
  lemma HugeRatiosStandAlone()
    ensures var a, b := Item(15.0, "Huge Item 1"), Item(20.0, "Huge Item 2");
      Pack([a, b], 5.0, Infinity) == [Row(15.0, [a]), Row(20.0, [b])]
  {
    var a, b := Item(15.0, "Huge Item 1"), Item(20.0, "Huge Item 2");
    assert [] + [a] == [a];
    PackSnoc([], a, 5.0, Infinity);
    assert [a] + [b] == [a, b];
    PackSnoc([a], b, 5.0, Infinity);
  }

  /** `[2, 2]` at target 3: one row of sum 4, shares taken against 4. */
  lemma OvershootingRowUsesItsSum()
    ensures var a, b := Item(2.0, "Item 1"), Item(2.0, "Item 2");
      && Pack([a, b], 3.0, Infinity) == [Row(4.0, [a, b])]
      && RowWidths(Row(4.0, [a, b]), 3.0) == [0.5, 0.5]
  {
    var a, b := Item(2.0, "Item 1"), Item(2.0, "Item 2");
    assert [] + [a] == [a];
    PackSnoc([], a, 3.0, Infinity);
    assert [a] + [b] == [a, b];
    PackSnoc([a], b, 3.0, Infinity);
  }

  /** No children give no rows. A `div`, and an element of a component other
      than `Grid.Item` such as a mock item, are both `OtherElement` and make
      the grid fail. Two more cases go beyond the tests: a `Grid.Item` whose
      ratio is missing, and a non-element after a valid item. The thrown
      error carries the message the tests expect. */
  lemma EmptyAndInvalidChildren()
    ensures Layout<string>([], 5.0, Infinity) == Ok([])
    ensures Layout<string>([OtherElement], 5.0, Infinity) == Err(InvalidChild)
    ensures Message(InvalidChild)
      == "Invalid child provided to Grid, ensure that a valid GridItem with correct props is used as children"
    ensures Layout<string>([GridItemElement(Missing, "Unrated Item")], 5.0, Infinity) == Err(InvalidChild)
    ensures Layout<string>([GridItemElement(Numeric(1.0), "Item 1"), NonElement], 5.0, Infinity) == Err(InvalidChild)
  {
    var cs: seq<Child<string>> := [GridItemElement(Numeric(1.0), "Item 1"), NonElement];
    assert cs[..1] == [cs[0]];
    var other: seq<Child<string>> := [OtherElement];
    var unrated: seq<Child<string>> := [GridItemElement(Missing, "Unrated Item")];
    assert other[..0] == [] && unrated[..0] == [];
  }

  /** The cap counts rows: with `maxColumns` 2 and target 10, four items of
      ratio 1 all join the first row, since only one row ever exists; with
      `maxColumns` 1 every item opens its own row. */
  lemma CapCountsRowsNotItems()
    ensures var a, b, c, d := Item(1.0, "Item 1"), Item(1.0, "Item 2"), Item(1.0, "Item 3"), Item(1.0, "Item 4");
      && Pack([a, b, c, d], 10.0, Finite(2.0)) == [Row(4.0, [a, b, c, d])]
      && Pack([a, b, c, d], 10.0, Finite(1.0)) == [Row(1.0, [a]), Row(1.0, [b]), Row(1.0, [c]), Row(1.0, [d])]
  {
    var a, b, c, d := Item(1.0, "Item 1"), Item(1.0, "Item 2"), Item(1.0, "Item 3"), Item(1.0, "Item 4");
    assert [] + [a] == [a];
    PackSnoc([], a, 10.0, Finite(2.0));
    assert [a] + [b] == [a, b];
    PackSnoc([a], b, 10.0, Finite(2.0));
    assert [a, b] + [c] == [a, b, c];
    PackSnoc([a, b], c, 10.0, Finite(2.0));
    assert [a, b, c] + [d] == [a, b, c, d];
    PackSnoc([a, b, c], d, 10.0, Finite(2.0));
    assert [] + [a] == [a];
    PackSnoc([], a, 10.0, Finite(1.0));
    assert [a] + [b] == [a, b];
    PackSnoc([a], b, 10.0, Finite(1.0));
    assert [a, b] + [c] == [a, b, c];
    PackSnoc([a, b], c, 10.0, Finite(1.0));
    assert [a, b, c] + [d] == [a, b, c, d];
    PackSnoc([a, b, c], d, 10.0, Finite(1.0));
  }
}
