/** The reading of one station file: the header row is skipped, the station's
    state is resolved from the location field of the first usable row, and
    from then on every row is cleaned and kept for that state.
 */
module StationFile {
  import opened Outcomes
  import opened Location
  import opened Cleaning

  /** The position of the location field in a row. */
  const LocationColumn: nat := 5

  /** Where a file stands in the resolution of its station's state. */
  datatype Resolution =
    /** No row has named an accepted or rejected code yet. */
    | Unresolved
    /** The station's code; it is accepted and fixed for the rest of the file. */
    | Resolved(code: string)
    /** The first code found was not accepted: the rest of the file is ignored. */
    | Excluded

  /** What reading a file leaves behind: where the resolution ended and the
      cleaned rows to add to that state's bucket, in file order. */
  datatype FileScan = FileScan(resolution: Resolution, kept: seq<Row>)

  /** A row that, read while the state is unresolved, is passed over: its
      location field is empty or has no comma. */
  predicate Skippable(row: Row) {
    |row| > LocationColumn && !ParseLocation(row[LocationColumn]).Code?
  }

  /** The state after one row following the header.  The row is kept exactly
      when the resulting state is `Resolved`. */
  function Visit(state: Resolution, row: Row): (r: Result<Resolution>)
    requires !state.Excluded?
    ensures state.Resolved? ==> r == Ok(state)
    ensures r.Err? <==> state.Unresolved? && |row| <= LocationColumn
    ensures state.Unresolved? && r.Ok? ==>
              && (r.value.Unresolved? <==> Skippable(row))
              && (r.value.Resolved? ==>
                    ParseLocation(row[LocationColumn]) == Code(r.value.code) && r.value.code in StatesToConsider)
              && (ParseLocation(row[LocationColumn]).Code? && ParseLocation(row[LocationColumn]).code in StatesToConsider ==>
                    r.value == Resolved(ParseLocation(row[LocationColumn]).code))
              && (r.value.Excluded? <==>
                    ParseLocation(row[LocationColumn]).Code?
                    && ParseLocation(row[LocationColumn]).code !in StatesToConsider)
  {
    match state
    case Resolved(_) => Ok(state)
    case Unresolved =>
      if |row| <= LocationColumn then Err(MissingLocationField)
      else
        match ParseLocation(row[LocationColumn])
        case Blank => Ok(Unresolved)
        case NoComma => Ok(Unresolved)
        case Code(c) => if c in StatesToConsider then Ok(Resolved(c)) else Ok(Excluded)
  }

  /** The loop over the rows after the header, folded from `state`; an
      `Excluded` state stops it, as the `break` does. */
  function Scan(state: Resolution, rows: seq<Row>): (r: Result<FileScan>)
    ensures state.Excluded? ==> r == Ok(FileScan(Excluded, []))
    ensures state.Resolved? ==> r == Ok(FileScan(state, CleanAll(rows)))
    ensures r.Ok? && !r.value.resolution.Resolved? ==> r.value.kept == []
    ensures r.Ok? && r.value.resolution.Resolved? ==>
              || r.value.resolution == state
              || (state.Unresolved? && r.value.resolution.code in StatesToConsider && r.value.kept != [])
    decreases |rows|
  {
    if |rows| == 0 || state.Excluded? then
      assert |rows| == 0 ==> CleanAll(rows) == [];
      Ok(FileScan(state, []))
    else
      var next :- Visit(state, rows[0]);
      var rest :- Scan(next, rows[1..]);
      if next.Resolved? then
        assert rest == FileScan(next, CleanAll(rows[1..]));
        CleanAllFirst(rows);
        Ok(FileScan(rest.resolution, [CleanRow(rows[0])] + rest.kept))
      else Ok(rest)
  }

  /** The kept rows are the cleaned rows of a suffix of the input: from the
      resolving row to the end. */
  lemma {:induction false} ScanKept(state: Resolution, rows: seq<Row>)
    requires Scan(state, rows).Ok?
    ensures KeptSuffix(rows, Scan(state, rows).value.kept)
    decreases |rows|
  {
    if |rows| > 0 && !state.Excluded? {
      var next := Visit(state, rows[0]).value;
      if next.Resolved? {
        ScanResolvesHere(state, rows);
        assert rows[|rows| - |CleanAll(rows)|..] == rows;
      } else {
        ScanPassesOver(state, rows);
        ScanKept(next, rows[1..]);
        KeptSuffixTail(rows, Scan(next, rows[1..]).value.kept);
      }
    } else {
      assert CleanAll(rows[|rows|..]) == [];
    }
  }

  /** `kept` is the cleaned form of the last `|kept|` rows. */
  predicate KeptSuffix(rows: seq<Row>, kept: seq<Row>) {
    |kept| <= |rows| && kept == CleanAll(rows[|rows| - |kept|..])
  }

  /** A cleaned suffix of the rows after the first is a cleaned suffix of all rows. */
  lemma KeptSuffixTail(rows: seq<Row>, kept: seq<Row>)
    requires |rows| > 0 && KeptSuffix(rows[1..], kept)
    ensures KeptSuffix(rows, kept)
  {
    assert rows[1..][|rows| - 1 - |kept|..] == rows[|rows| - |kept|..];
  }

  /** A row that leaves the state resolved is kept with everything after it. */
  lemma ScanResolvesHere(state: Resolution, rows: seq<Row>)
    requires |rows| > 0 && !state.Excluded?
    requires Visit(state, rows[0]).Ok? && Visit(state, rows[0]).value.Resolved?
    ensures Scan(state, rows) == Ok(FileScan(Visit(state, rows[0]).value, CleanAll(rows)))
  {
    CleanAllFirst(rows);
  }

  /** A row that leaves the state unresolved or excluded contributes nothing itself. */
  lemma ScanPassesOver(state: Resolution, rows: seq<Row>)
    requires |rows| > 0 && !state.Excluded?
    requires Visit(state, rows[0]).Ok? && !Visit(state, rows[0]).value.Resolved?
    ensures Scan(state, rows) == Scan(Visit(state, rows[0]).value, rows[1..])
  {
  }

  /** Cleaning a sequence of rows cleans its first row and then the rest. */
  lemma CleanAllFirst(rows: seq<Row>)
    requires |rows| > 0
    ensures CleanAll(rows) == [CleanRow(rows[0])] + CleanAll(rows[1..])
  {
  }

  /** A whole file: its first row is the header and is never looked at. */
  function ProcessFile(file: seq<Row>): (r: Result<FileScan>)
    ensures r.Ok? && r.value.resolution.Resolved? ==>
              r.value.resolution.code in StatesToConsider && r.value.kept != []
    ensures r.Ok? && !r.value.resolution.Resolved? ==> r.value.kept == []
  {
    if |file| == 0 then Ok(FileScan(Unresolved, []))
    else Scan(Unresolved, file[1..])
  }

  /** The kept rows are a cleaned suffix of the file that leaves out at least
      the header. */
  lemma ProcessFileKept(file: seq<Row>)
    requires ProcessFile(file).Ok?
    ensures var kept := ProcessFile(file).value.kept;
            && (kept == [] || |kept| < |file|)
            && kept == CleanAll(file[|file| - |kept|..])
  {
    if |file| > 0 {
      ScanKept(Unresolved, file[1..]);
      var kept := ProcessFile(file).value.kept;
      assert file[1..][|file[1..]| - |kept|..] == file[|file| - |kept|..];
    }
  }

  /** The header's content has no influence on the outcome. */
  lemma HeaderIgnored(file: seq<Row>, header: Row)
    requires |file| > 0
    ensures ProcessFile([header] + file[1..]) == ProcessFile(file)
  {
    assert ([header] + file[1..])[1..] == file[1..];
  }

  /** A skipped row leaves no trace: resolution is simply retried on the next row. */
  lemma SkipRow(row: Row, rest: seq<Row>)
    requires Skippable(row)
    ensures Scan(Unresolved, [row] + rest) == Scan(Unresolved, rest)
  {
    assert ([row] + rest)[1..] == rest;
  }

  /** Skipping a row inside a sequence: the scan from it is the scan from the next. */
  lemma SkipRowAt(rows: seq<Row>, i: nat)
    requires i < |rows| && Skippable(rows[i])
    ensures Scan(Unresolved, rows[i..]) == Scan(Unresolved, rows[i + 1..])
  {
    assert rows[i..] == [rows[i]] + rows[i + 1..];
    SkipRow(rows[i], rows[i + 1..]);
  }

  /** A run of skipped rows at the front leaves no trace. */
  lemma {:induction false} SkipRows(rows: seq<Row>, k: nat)
    requires k <= |rows|
    requires forall i :: 0 <= i < k ==> Skippable(rows[i])
    ensures Scan(Unresolved, rows) == Scan(Unresolved, rows[k..])
    decreases k
  {
    if k > 0 {
      SkipRows(rows, k - 1);
      SkipRowAt(rows, k - 1);
    } else {
      assert rows[0..] == rows;
    }
  }

  /** A file whose location fields never yield a code contributes nothing. */
  lemma NeverResolved(rows: seq<Row>)
    requires forall i :: 0 <= i < |rows| ==> Skippable(rows[i])
    ensures Scan(Unresolved, rows) == Ok(FileScan(Unresolved, []))
  {
    SkipRows(rows, |rows|);
  }

  /** The first row that yields an accepted code fixes the state; it and every
      later row are kept, cleaned, in file order. */
  lemma ResolvedAt(rows: seq<Row>, k: nat, code: string)
    requires k < |rows|
    requires forall i :: 0 <= i < k ==> Skippable(rows[i])
    requires |rows[k]| > LocationColumn && ParseLocation(rows[k][LocationColumn]) == Code(code)
    requires code in StatesToConsider
    ensures Scan(Unresolved, rows) == Ok(FileScan(Resolved(code), CleanAll(rows[k..])))
  {
    SkipRows(rows, k);
    var tail := rows[k..];
    assert tail[0] == rows[k] && tail[1..] == rows[k + 1..];
    assert Visit(Unresolved, tail[0]) == Ok(Resolved(code));
    CleanAllFirst(tail);
  }

  /** The first row that yields a code not in the list ends the file, and the
      file contributes no row at all. */
  lemma ExcludedAt(rows: seq<Row>, k: nat)
    requires k < |rows|
    requires forall i :: 0 <= i < k ==> Skippable(rows[i])
    requires |rows[k]| > LocationColumn && ParseLocation(rows[k][LocationColumn]).Code?
    requires ParseLocation(rows[k][LocationColumn]).code !in StatesToConsider
    ensures Scan(Unresolved, rows) == Ok(FileScan(Excluded, []))
  {
    SkipRows(rows, k);
    var tail := rows[k..];
    assert tail[0] == rows[k];
    assert Visit(Unresolved, tail[0]) == Ok(Excluded);
  }

  /** A row too short to have a location field, met while the state is
      unresolved, aborts the run. */
  lemma FailsAt(rows: seq<Row>, k: nat)
    requires k < |rows|
    requires forall i :: 0 <= i < k ==> Skippable(rows[i])
    requires |rows[k]| <= LocationColumn
    ensures Scan(Unresolved, rows) == Err(MissingLocationField)
  {
    SkipRows(rows, k);
    assert rows[k..][0] == rows[k];
  }

  /** A Guam station file is read up to its first usable location and then
      dropped whole. */
  lemma TerritoryFileExample(file: seq<Row>)
    requires |file| >= 2 && |file[1]| > LocationColumn
    requires ParseLocation(file[1][LocationColumn]) == Code("GU")
    ensures ProcessFile(file) == Ok(FileScan(Excluded, []))
  {
    GuamExcluded();
    ExcludedAt(file[1..], 0);
  }
}
