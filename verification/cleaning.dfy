/** Cleaning of a kept row: each field is reduced to its last
    space-separated piece, and an empty result becomes "0".
 */
module Cleaning {
  import opened PyStrings

  /** A row as the CSV reader yields it: its fields, in order. */
  type Row = seq<string>

  /** `x.split(" ")[-1]`, then `"0"` in place of the empty string. */
  function CleanField(x: string): (r: string)
    ensures r != "" && ' ' !in r
  {
    var last := LastPiece(x, ' ');
    if last == "" then "0" else last
  }

  /** A cleaned field is non-empty and has no space; it is "0" when the
      field is empty or ends in a space, and otherwise the longest suffix of
      the field that has no space. */
  lemma CleanFieldShape(x: string)
    ensures CleanField(x) != "" && ' ' !in CleanField(x)
    ensures (x == [] || x[|x| - 1] == ' ') ==> CleanField(x) == "0"
    ensures x != [] && x[|x| - 1] != ' ' ==>
              var r := CleanField(x);
              && |r| <= |x|
              && r == x[|x| - |r|..]
              && (|r| == |x| || x[|x| - |r| - 1] == ' ')
  {
    SplitLast(x, ' ');
  }

  /** Cleaning a field that is already clean changes nothing. */
  lemma CleanFieldIdempotent(x: string)
    ensures CleanField(CleanField(x)) == CleanField(x)
  {
    CleanFieldShape(x);
    var r := CleanField(x);
    SplitNoSeparator(r, ' ');
    assert LastPiece(r, ' ') == r;
  }

  /** Exactly the non-empty fields without a space are left alone. */
  lemma CleanFieldFixedPoints(x: string)
    ensures CleanField(x) == x <==> x != "" && ' ' !in x
  {
    CleanFieldShape(x);
    if x != "" && ' ' !in x {
      SplitNoSeparator(x, ' ');
      assert LastPiece(x, ' ') == x;
    }
  }

  /** Every field of the row, cleaned, in place: the width is kept, and
      every field of the result is non-empty and has no space. */
  function CleanRow(row: Row): (r: Row)
    ensures |r| == |row|
    ensures forall i :: 0 <= i < |r| ==> r[i] != "" && ' ' !in r[i]
  {
    seq(|row|, i requires 0 <= i < |row| => CleanField(row[i]))
  }

  /** Cleaning a cleaned row changes nothing. */
  lemma CleanRowIdempotent(row: Row)
    ensures CleanRow(CleanRow(row)) == CleanRow(row)
  {
    forall i | 0 <= i < |row|
      ensures CleanRow(CleanRow(row))[i] == CleanRow(row)[i]
    {
      CleanFieldIdempotent(row[i]);
    }
  }

  /** Cleaning every row of a sequence, in order. */
  function CleanAll(rows: seq<Row>): seq<Row> {
    seq(|rows|, k requires 0 <= k < |rows| => CleanRow(rows[k]))
  }

  /** Left padding is removed: only the text after the last space survives. */
  lemma PaddedReadingExample()
    ensures CleanField("  29.9") == "29.9"
  {
    var x := "  29.9";
    CleanFieldShape(x);
    var r := CleanField(x);
    assert x[|x| - 1] == '9';
    assert |r| == 4;
  }

  /** Right padding loses the reading altogether: the last piece is empty,
      so the field becomes "0". */
  lemma TrailingSpaceExample()
    ensures CleanField("29.9 ") == "0"
  {
    var x := "29.9 ";
    CleanFieldShape(x);
    assert x[|x| - 1] == ' ';
  }

  /** A missing reading becomes zero. */
  lemma MissingReadingExample()
    ensures CleanField("") == "0"
  {
    CleanFieldShape("");
  }
}
