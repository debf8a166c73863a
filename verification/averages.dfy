/** Turning one state's bucket into its summary row: select the averaged
    columns of every row, convert them to numbers, and take the mean of each
    column.  Numbers are exact reals here; string-to-number conversion is a
    parameter of the model.
 */
module Averages {
  import opened Outcomes
  import opened Cleaning
  import opened StateBuckets

  /** The averaged columns, in output order: ELEVATION, TEMP, TEMP_ATTRIBUTES,
      DEWP, DEWP_ATTRIBUTES, SLP, SLP_ATTRIBUTES, STP, STP_ATTRIBUTES, VISIB,
      VISIB_ATTRIBUTES, WDSP, WDSP_ATTRIBUTES, MXSPD, GUST, MAX, SNDP. */
  const ValuesToAverage: seq<nat> := [4, 6, 7, 8, 9, 10, 11, 12, 13, 14, 15, 16, 17, 18, 19, 20, 26]

  /** One summary row, `[year, state] + means`. */
  datatype Entry = Entry(year: int, state: string, means: seq<real>)

  /** The conversion of a cleaned field to a number; `None` where it raises. */
  type Parse = string -> Option<real>

  /** The rows form a matrix from which the columns can be picked: there is
      at least one row, all rows have the same width, and every column lies
      within it. */
  predicate Selectable(rows: seq<Row>, cols: seq<nat>) {
    && |rows| > 0
    && (forall k :: 0 <= k < |rows| ==> |rows[k]| == |rows[0]|)
    && (forall j :: 0 <= j < |cols| ==> cols[j] < |rows[0]|)
  }

  /** Every picked field converts to a number. */
  predicate Numeric(rows: seq<Row>, cols: seq<nat>, parse: Parse) {
    forall k, j :: 0 <= k < |rows| && 0 <= j < |cols| && cols[j] < |rows[k]| ==> parse(rows[k][cols[j]]).Some?
  }

  /** The number in column `col` of a row (zero where there is none). */
  function Value(row: Row, col: nat, parse: Parse): real {
    if col < |row| && parse(row[col]).Some? then parse(row[col]).value else 0.0
  }

  /** The sum of column `col` over the rows: the reference the means are judged by. */
  function ColumnTotal(rows: seq<Row>, col: nat, parse: Parse): real {
    if |rows| == 0 then 0.0 else Value(rows[0], col, parse) + ColumnTotal(rows[1..], col, parse)
  }

  /** The picked fields of one row, converted in column order. */
  function ConvertRow(row: Row, cols: seq<nat>, parse: Parse): (r: Option<seq<real>>)
    requires forall j :: 0 <= j < |cols| ==> cols[j] < |row|
    ensures r.Some? <==> forall j :: 0 <= j < |cols| ==> parse(row[cols[j]]).Some?
    ensures r.Some? ==> |r.value| == |cols|
    ensures r.Some? ==> forall j :: 0 <= j < |cols| ==> r.value[j] == parse(row[cols[j]]).value
    decreases |cols|
  {
    if |cols| == 0 then Some([])
    else
      match parse(row[cols[0]])
      case None => None
      case Some(v) =>
        match ConvertRow(row, cols[1..], parse)
        case None =>
          assert !parse(row[cols[1..][0]]).Some? || exists j :: 0 <= j < |cols| - 1 && !parse(row[cols[1..][j]]).Some?;
          None
        case Some(vs) =>
          assert forall j :: 0 < j < |cols| ==> cols[j] == cols[1..][j - 1];
          Some([v] + vs)
  }

  /** The picked columns of every row as a matrix of numbers; `None` as soon
      as one field does not convert. */
  function ToMatrix(rows: seq<Row>, cols: seq<nat>, parse: Parse): (r: Option<seq<seq<real>>>)
    requires forall k, j :: 0 <= k < |rows| && 0 <= j < |cols| ==> cols[j] < |rows[k]|
    ensures r.Some? <==> Numeric(rows, cols, parse)
    ensures r.Some? ==> |r.value| == |rows|
    ensures r.Some? ==> forall k :: 0 <= k < |rows| ==>
              |r.value[k]| == |cols| && forall j :: 0 <= j < |cols| ==> r.value[k][j] == parse(rows[k][cols[j]]).value
    decreases |rows|
  {
    if |rows| == 0 then Some([])
    else
      match ConvertRow(rows[0], cols, parse)
      case None => None
      case Some(first) =>
        match ToMatrix(rows[1..], cols, parse)
        case None =>
          assert !Numeric(rows[1..], cols, parse);
          None
        case Some(rest) =>
          assert forall k :: 0 < k < |rows| ==> rows[k] == rows[1..][k - 1];
          Some([first] + rest)
  }

  /** The sum of column `j` of a matrix, row by row. */
  function ColumnSum(m: seq<seq<real>>, j: nat): real
    requires forall k :: 0 <= k < |m| ==> j < |m[k]|
  {
    if |m| == 0 then 0.0 else m[0][j] + ColumnSum(m[1..], j)
  }

  /** The mean of every column of a non-empty matrix. */
  function ColumnMeans(m: seq<seq<real>>, width: nat): (means: seq<real>)
    requires |m| > 0 && forall k :: 0 <= k < |m| ==> |m[k]| == width
    ensures |means| == width
    ensures forall j :: 0 <= j < width ==> means[j] * (|m| as real) == ColumnSum(m, j)
  {
    seq(width, j requires 0 <= j < width => ColumnSum(m, j) / (|m| as real))
  }

  /** Summing a column of the converted matrix is summing the converted
      fields of that column of the rows. */
  lemma {:induction false} ColumnSumIsTotal(m: seq<seq<real>>, rows: seq<Row>, cols: seq<nat>, parse: Parse, j: nat)
    requires |m| == |rows| && j < |cols|
    requires forall k :: 0 <= k < |rows| ==> |m[k]| == |cols| && cols[j] < |rows[k]|
    requires forall k :: 0 <= k < |rows| ==> parse(rows[k][cols[j]]).Some? && m[k][j] == parse(rows[k][cols[j]]).value
    ensures ColumnSum(m, j) == ColumnTotal(rows, cols[j], parse)
    decreases |rows|
  {
    if |rows| > 0 {
      ColumnSumIsTotal(m[1..], rows[1..], cols, parse, j);
    }
  }

  /** `[year, state] + mean(astype(float)(array(rows)[:, ValuesToAverage]), axis=0)`. */
  function SummarizeBucket(year: int, b: Bucket, parse: Parse): (r: Result<Entry>)
    ensures r.Err? <==> !Selectable(b.rows, ValuesToAverage) || !Numeric(b.rows, ValuesToAverage, parse)
    ensures r.Err? && !Selectable(b.rows, ValuesToAverage) ==> r.error == MalformedBucket(b.state)
    ensures r.Err? && Selectable(b.rows, ValuesToAverage) ==> r.error == NotNumeric(b.state)
    ensures r.Ok? ==> r.value.year == year && r.value.state == b.state
    ensures r.Ok? ==> |r.value.means| == |ValuesToAverage|
  {
    if !Selectable(b.rows, ValuesToAverage) then Err(MalformedBucket(b.state))
    else
      match ToMatrix(b.rows, ValuesToAverage, parse)
      case None => Err(NotNumeric(b.state))
      case Some(m) => Ok(Entry(year, b.state, ColumnMeans(m, |ValuesToAverage|)))
  }

  /** Each mean of a summary row is the column's total over the bucket's rows
      divided by their number. */
  lemma SummarizeBucketMeans(year: int, b: Bucket, parse: Parse)
    requires SummarizeBucket(year, b, parse).Ok?
    ensures forall j :: 0 <= j < |ValuesToAverage| ==>
              SummarizeBucket(year, b, parse).value.means[j]
                == ColumnTotal(b.rows, ValuesToAverage[j], parse) / (|b.rows| as real)
  {
    var m := ToMatrix(b.rows, ValuesToAverage, parse).value;
    var means := SummarizeBucket(year, b, parse).value.means;
    assert means == ColumnMeans(m, |ValuesToAverage|);
    forall j | 0 <= j < |ValuesToAverage|
      ensures means[j] == ColumnTotal(b.rows, ValuesToAverage[j], parse) / (|b.rows| as real)
    {
      ColumnSumIsTotal(m, b.rows, ValuesToAverage, parse, j);
    }
  }

  /** The column total of three rows. */
  lemma ColumnTotalThree(r1: Row, r2: Row, r3: Row, col: nat, parse: Parse)
    ensures ColumnTotal([r1, r2, r3], col, parse) == Value(r1, col, parse) + Value(r2, col, parse) + Value(r3, col, parse)
  {
    var rows := [r1, r2, r3];
    assert rows[1..] == [r2, r3] && rows[1..][1..] == [r3] && rows[1..][1..][1..] == [];
    assert ColumnTotal([r3], col, parse) == Value(r3, col, parse) + ColumnTotal([], col, parse);
    assert ColumnTotal([r2, r3], col, parse) == Value(r2, col, parse) + ColumnTotal([r3], col, parse);
    assert ColumnTotal(rows, col, parse) == Value(r1, col, parse) + ColumnTotal([r2, r3], col, parse);
  }

  /** A bucket pooling a station with readings 1.0 and 3.0 in the first
      averaged column and a station with 2.0 there has 2.0 as its first mean. */
  lemma ThreeReadingsExample(year: int, code: string, r1: Row, r2: Row, r3: Row, parse: Parse)
    requires Value(r1, ValuesToAverage[0], parse) == 1.0
    requires Value(r2, ValuesToAverage[0], parse) == 3.0
    requires Value(r3, ValuesToAverage[0], parse) == 2.0
    requires SummarizeBucket(year, Bucket(code, [r1, r2] + [r3]), parse).Ok?
    ensures SummarizeBucket(year, Bucket(code, [r1, r2] + [r3]), parse).value.means[0] == 2.0
  {
    var rows := [r1, r2] + [r3];
    assert rows == [r1, r2, r3];
    SummarizeBucketMeans(year, Bucket(code, rows), parse);
    ColumnTotalThree(r1, r2, r3, ValuesToAverage[0], parse);
    var m := SummarizeBucket(year, Bucket(code, rows), parse).value.means[0];
    var total := ColumnTotal(rows, ValuesToAverage[0], parse);
    var count := |rows| as real;
    assert m == total / count;
    assert total == 6.0 && count == 3.0;
    MeanOf(m, total, count, 2.0);
  }

  /** A total of `count` times `v` over `count` readings averages to `v`. */
  lemma MeanOf(m: real, total: real, count: real, v: real)
    requires count > 0.0 && total == v * count && m == total / count
    ensures m == v
  {
  }
}
