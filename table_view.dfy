/**
 * Loading a spreadsheet into the grid view: missing values are filled with a
 * single space, and every dataset row becomes one display row, in order, whose
 * background tag alternates with the row's position.
 */
module TableView {

  /** A spreadsheet cell as read: missing, or the text of its value. */
  datatype Cell = Missing | Value(text: string)

  /** A dataset: column names and rows of cells. */
  datatype Dataset = Dataset(columns: seq<string>, rows: seq<seq<Cell>>)

  datatype RowTag = EvenRow | OddRow

  /** One row of the grid: the values shown, one per column, and its background tag. */
  datatype DisplayRow = DisplayRow(values: seq<string>, tag: RowTag)

  /** Every row has one cell per column. */
  ghost predicate Rectangular(df: Dataset) {
    forall i :: 0 <= i < |df.rows| ==> |df.rows[i]| == |df.columns|
  }

  /** The text a cell is shown as; a missing value reads "nan". */
  function CellText(c: Cell): string {
    match c
    case Missing => "nan"
    case Value(text) => text
  }

  /**
   * fillna(" "): every missing cell becomes a single space and every present
   * cell keeps its value, so nothing is missing afterwards and the shape and
   * the column names do not change.
   */
  function FillMissing(df: Dataset): (filled: Dataset)
    ensures filled.columns == df.columns && |filled.rows| == |df.rows|
    ensures forall i :: 0 <= i < |df.rows| ==> |filled.rows[i]| == |df.rows[i]|
    ensures forall i, j :: 0 <= i < |df.rows| && 0 <= j < |df.rows[i]| ==>
              filled.rows[i][j] == (if df.rows[i][j].Missing? then Value(" ") else df.rows[i][j])
    ensures forall i, j :: 0 <= i < |filled.rows| && 0 <= j < |filled.rows[i]| ==> filled.rows[i][j].Value?
  {
    Dataset(df.columns,
      seq(|df.rows|, i requires 0 <= i < |df.rows| =>
        seq(|df.rows[i]|, j requires 0 <= j < |df.rows[i]| =>
          if df.rows[i][j].Missing? then Value(" ") else df.rows[i][j])))
  }

  /** The tag of the row at position i: even positions are "evenrow", odd ones "oddrow". */
  function TagFor(i: nat): (t: RowTag)
    ensures t == EvenRow <==> i % 2 == 0
    ensures t == OddRow <==> i % 2 == 1
  {
    if i % 2 == 0 then EvenRow else OddRow
  }

  /**
   * The row-building loop: one display row per dataset row, in order, with
   * the row's values left to right and the tag of its position.
   */
  method BuildRows(df: Dataset) returns (display: seq<DisplayRow>)
    ensures |display| == |df.rows|
    ensures forall i :: 0 <= i < |df.rows| ==> |display[i].values| == |df.rows[i]|
    ensures forall i, j :: 0 <= i < |df.rows| && 0 <= j < |df.rows[i]| ==>
              display[i].values[j] == CellText(df.rows[i][j])
    ensures forall i :: 0 <= i < |df.rows| ==> (display[i].tag == EvenRow <==> i % 2 == 0)
    ensures forall i :: 0 <= i < |df.rows| ==> (display[i].tag == OddRow <==> i % 2 == 1)
  {
    display := [];
    var i := 0;
    while i < |df.rows|
      invariant i <= |df.rows| && |display| == i
      invariant forall k :: 0 <= k < i ==> |display[k].values| == |df.rows[k]|
      invariant forall k, j :: 0 <= k < i && 0 <= j < |df.rows[k]| ==>
                  display[k].values[j] == CellText(df.rows[k][j])
      invariant forall k :: 0 <= k < i ==> display[k].tag == TagFor(k)
    {
      var row := df.rows[i];
      var values := seq(|row|, j requires 0 <= j < |row| => CellText(row[j]));
      display := display + [DisplayRow(values, TagFor(i))];
      i := i + 1;
    }
  }

  /** In a rectangular dataset every display row holds exactly one value per column. */
  lemma OneValuePerColumn(df: Dataset, display: seq<DisplayRow>)
    requires Rectangular(df)
    requires |display| == |df.rows|
    requires forall i :: 0 <= i < |df.rows| ==> |display[i].values| == |df.rows[i]|
    ensures forall i :: 0 <= i < |display| ==> |display[i].values| == |df.columns|
  {
  }
}
