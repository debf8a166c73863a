/** The whole construction: for each year from 1980 to 2021, read the year's
    station files into state buckets, then emit one summary row per bucket;
    the rows of all years are concatenated in year order.
 */
module Years {
  import opened Outcomes
  import opened Location
  import opened Cleaning
  import opened StationFile
  import opened StateBuckets
  import opened Averages

  /** The first year read. */
  const FirstYear: int := 1980
  /** The year after the last one read. */
  const EndYear: int := 2022

  /** A station file as the CSV reader yields it, header row included. */
  type File = seq<Row>

  /** The rows a file adds to the bucket of `state`: its kept rows when it
      resolves to `state`, nothing otherwise. */
  function Contribution(file: File, state: string): seq<Row> {
    match ProcessFile(file)
    case Ok(scan) => if scan.resolution == Resolved(state) then scan.kept else []
    case Err(_) => []
  }

  /** The rows all the files add to the bucket of `state`, in file order:
      the reference the buckets are judged by. */
  function Contributed(files: seq<File>, state: string): seq<Row> {
    if |files| == 0 then [] else Contribution(files[0], state) + Contributed(files[1..], state)
  }

  /** The codes the files resolve to, appended to `seen` in order of first
      appearance: the reference for the order of the buckets. */
  function FirstSeen(seen: seq<string>, files: seq<File>): seq<string>
    decreases |files|
  {
    if |files| == 0 then seen
    else
      match ProcessFile(files[0])
      case Ok(scan) =>
        if scan.resolution.Resolved? && scan.resolution.code !in seen
        then FirstSeen(seen + [scan.resolution.code], files[1..])
        else FirstSeen(seen, files[1..])
      case Err(_) => FirstSeen(seen, files[1..])
  }

  /** Every file is read without a crash. */
  predicate AllRead(files: seq<File>) {
    forall i :: 0 <= i < |files| ==> ProcessFile(files[i]).Ok?
  }

  /** The file loop of one year, continuing from the dictionary built so far. */
  function CollectFrom(b: Buckets, files: seq<File>): (r: Result<Buckets>)
    requires Valid(b)
    ensures r.Ok? <==> AllRead(files)
    ensures r.Ok? ==> Valid(r.value)
    ensures r.Ok? ==> forall s :: s in Keys(r.value) ==> s in Keys(b) || s in StatesToConsider
    decreases |files|
  {
    if |files| == 0 then Ok(b)
    else
      var scan :- ProcessFile(files[0]);
      var b' := if scan.resolution.Resolved? then InsertAll(b, scan.resolution.code, scan.kept) else b;
      assert AllRead(files) <==> AllRead(files[1..]) by {
        assert forall i :: 0 < i < |files| ==> files[i] == files[1..][i - 1];
      }
      CollectFrom(b', files[1..])
  }

  /** One file's step of the loop, seen through `Lookup`. */
  lemma CollectStep(b: Buckets, file: File, s: string)
    requires Valid(b) && ProcessFile(file).Ok?
    ensures var scan := ProcessFile(file).value;
            var b' := if scan.resolution.Resolved? then InsertAll(b, scan.resolution.code, scan.kept) else b;
            Lookup(b', s) == Lookup(b, s) + Contribution(file, s)
  {
    var scan := ProcessFile(file).value;
    if scan.resolution.Resolved? {
      InsertAllLookup(b, scan.resolution.code, scan.kept, s);
    }
  }

  /** Concatenation is associative: kept as a lemma so that the step of
      `CollectLookup` that uses it is proved outside that lemma's context. */
  lemma AppendAssoc(x: seq<Row>, y: seq<Row>, z: seq<Row>)
    ensures x + y + z == x + (y + z)
  {
  }

  /** Every bucket holds exactly the rows the files contributed to its state,
      after the rows it held before, in file order. */
  lemma {:induction false} CollectLookup(b: Buckets, files: seq<File>, s: string)
    requires Valid(b) && CollectFrom(b, files).Ok?
    ensures Lookup(CollectFrom(b, files).value, s) == Lookup(b, s) + Contributed(files, s)
    decreases |files|
  {
    if |files| > 0 {
      assert AllRead(files);
      assert ProcessFile(files[0]).Ok?;
      var scan := ProcessFile(files[0]).value;
      var b' := if scan.resolution.Resolved? then InsertAll(b, scan.resolution.code, scan.kept) else b;
      CollectStep(b, files[0], s);
      assert CollectFrom(b, files) == CollectFrom(b', files[1..]);
      CollectLookup(b', files[1..], s);
      assert Contributed(files, s) == Contribution(files[0], s) + Contributed(files[1..], s);
      AppendAssoc(Lookup(b, s), Contribution(files[0], s), Contributed(files[1..], s));
    }
  }

  /** The keys are the states in order of the first file resolving to each:
      a new state's bucket goes after all existing ones. */
  lemma {:induction false} CollectKeys(b: Buckets, files: seq<File>)
    requires Valid(b) && CollectFrom(b, files).Ok?
    ensures Keys(CollectFrom(b, files).value) == FirstSeen(Keys(b), files)
    decreases |files|
  {
    if |files| > 0 {
      var scan := ProcessFile(files[0]).value;
      var b' := if scan.resolution.Resolved? then InsertAll(b, scan.resolution.code, scan.kept) else b;
      CollectKeys(b', files[1..]);
      assert CollectFrom(b, files) == CollectFrom(b', files[1..]);
    }
  }

  /** The buckets of one year, built from an empty dictionary. */
  function CollectYear(files: seq<File>): (r: Result<Buckets>)
    ensures r.Ok? <==> AllRead(files)
    ensures r.Ok? ==> Valid(r.value)
    ensures r.Ok? ==> forall s :: s in Keys(r.value) ==> s in StatesToConsider
  {
    CollectFrom([], files)
  }

  /** What the year's buckets hold: exactly the contributed rows, under keys
      in order of first appearance. */
  lemma CollectYearContents(files: seq<File>)
    requires AllRead(files)
    ensures Keys(CollectYear(files).value) == FirstSeen([], files)
    ensures forall s :: Lookup(CollectYear(files).value, s) == Contributed(files, s)
  {
    CollectKeys([], files);
    forall s
      ensures Lookup(CollectYear(files).value, s) == Contributed(files, s)
    {
      CollectLookup([], files, s);
    }
  }

  /** One summary row per bucket, in bucket order; the first bucket that
      cannot be summarized aborts the run with its error. */
  function SummarizeYear(year: int, b: Buckets, parse: Parse): (r: Result<seq<Entry>>)
    ensures r.Ok? <==> forall i :: 0 <= i < |b| ==> SummarizeBucket(year, b[i], parse).Ok?
    ensures r.Ok? ==> |r.value| == |b|
    ensures r.Ok? ==> forall i :: 0 <= i < |b| ==> SummarizeBucket(year, b[i], parse) == Ok(r.value[i])
    ensures r.Err? ==> exists i :: 0 <= i < |b| && SummarizeBucket(year, b[i], parse) == Err(r.error)
                                  && forall k :: 0 <= k < i ==> SummarizeBucket(year, b[k], parse).Ok?
  {
    var rs := seq(|b|, k requires 0 <= k < |b| => SummarizeBucket(year, b[k], parse));
    assert forall i :: 0 <= i < |b| ==> rs[i] == SummarizeBucket(year, b[i], parse);
    AllOk(rs)
  }

  /** The states of a list of summary rows, in order. */
  function StatesOf(entries: seq<Entry>): (states: seq<string>)
    ensures |states| == |entries|
    ensures forall i :: 0 <= i < |entries| ==> states[i] == entries[i].state
  {
    seq(|entries|, i requires 0 <= i < |entries| => entries[i].state)
  }

  /** One year: read every file, then summarize every bucket. */
  function YearSummary(year: int, files: seq<File>, parse: Parse): (r: Result<seq<Entry>>)
    ensures r.Ok? ==> AllRead(files)
    ensures r.Ok? ==> forall i :: 0 <= i < |r.value| ==>
              && r.value[i].year == year
              && r.value[i].state in StatesToConsider
              && |r.value[i].means| == |ValuesToAverage|
    ensures r.Ok? ==> forall i, j :: 0 <= i < j < |r.value| ==> r.value[i].state != r.value[j].state
  {
    var b :- CollectYear(files);
    var r := SummarizeYear(year, b, parse);
    assert r.Ok? ==> forall i :: 0 <= i < |b| ==> r.value[i].state == b[i].state;
    r
  }

  /** What a year's summary rows hold: a row for a state exactly when the
      year's files contributed rows to it, in order of the first file that
      did, and each mean is the column total over those rows divided by their
      number. */
  lemma YearSummaryContents(year: int, files: seq<File>, parse: Parse)
    requires YearSummary(year, files, parse).Ok?
    ensures StatesOf(YearSummary(year, files, parse).value) == FirstSeen([], files)
    ensures forall s :: s in StatesOf(YearSummary(year, files, parse).value) <==> Contributed(files, s) != []
    ensures var entries := YearSummary(year, files, parse).value;
            forall i, j :: 0 <= i < |entries| && 0 <= j < |ValuesToAverage| ==>
              entries[i].means[j]
                == ColumnTotal(Contributed(files, entries[i].state), ValuesToAverage[j], parse)
                   / (|Contributed(files, entries[i].state)| as real)
  {
    var b := CollectYear(files).value;
    CollectYearContents(files);
    var entries := YearSummary(year, files, parse).value;
    assert StatesOf(entries) == Keys(b);
    forall s
      ensures s in StatesOf(entries) <==> Contributed(files, s) != []
    {
      LookupValid(b, s);
    }
    forall i | 0 <= i < |entries|
      ensures b[i].rows == Contributed(files, entries[i].state)
      ensures forall j :: 0 <= j < |ValuesToAverage| ==>
                entries[i].means[j] == ColumnTotal(b[i].rows, ValuesToAverage[j], parse) / (|b[i].rows| as real)
    {
      LookupValid(b, b[i].state);
      SummarizeBucketMeans(year, b[i], parse);
    }
  }

  /** Two files resolving to the same code: one bucket, first file's rows first. */
  lemma SameStateFiles(f1: File, f2: File, code: string)
    requires ProcessFile(f1).Ok? && ProcessFile(f1).value.resolution == Resolved(code)
    requires ProcessFile(f2).Ok? && ProcessFile(f2).value.resolution == Resolved(code)
    ensures FirstSeen([], [f1, f2]) == [code]
    ensures Contributed([f1, f2], code) == ProcessFile(f1).value.kept + ProcessFile(f2).value.kept
  {
    var files := [f1, f2];
    assert files[0] == f1 && files[1..] == [f2] && files[1..][0] == f2 && files[1..][1..] == [];
    var scan := ProcessFile(f1).value;
    assert scan.resolution.Resolved? && scan.resolution.code == code;
    assert code !in [];
    assert [] + [code] == [code];
    assert FirstSeen([], files) == FirstSeen([] + [code], files[1..]);
    assert FirstSeen([code], [f2]) == FirstSeen([code], []);
    assert Contributed(files, code) == ProcessFile(f1).value.kept + Contributed([f2], code);
    assert Contributed([f2], code) == ProcessFile(f2).value.kept + Contributed([], code);
  }

  /** The per-year outcome of the run, as a function of the year. */
  type Summaries = int -> Result<seq<Entry>>

  /** The year loop over any per-year outcome: each year's rows in turn from
      `year` to the last; the first failing year ends the run. */
  function Concatenate(year: int, summary: Summaries): (r: Result<seq<Entry>>)
    ensures r.Ok? <==> forall y :: year <= y < EndYear ==> summary(y).Ok?
    decreases EndYear - year
  {
    if year >= EndYear then Ok([])
    else
      var entries :- summary(year);
      var rest :- Concatenate(year + 1, summary);
      Ok(entries + rest)
  }

  /** A failed run fails with the error of the first year that failed. */
  lemma {:induction false} ConcatenateError(year: int, summary: Summaries)
    requires Concatenate(year, summary).Err?
    ensures exists y :: year <= y < EndYear && summary(y) == Err(Concatenate(year, summary).error)
                        && forall k :: year <= k < y ==> summary(k).Ok?
    decreases EndYear - year
  {
    if summary(year).Ok? {
      ConcatenateError(year + 1, summary);
    } else {
      assert forall k :: year <= k < year ==> summary(k).Ok?;
    }
  }

  /** The rows of year `y`: all carry that year, and no state is named twice. */
  predicate YearRows(y: int, entries: seq<Entry>) {
    && (forall i :: 0 <= i < |entries| ==> entries[i].year == y)
    && (forall i, j :: 0 <= i < j < |entries| ==> entries[i].state != entries[j].state)
  }

  /** Every row names one of `codes`. */
  predicate AcceptedRows(entries: seq<Entry>, codes: seq<string>) {
    forall i :: 0 <= i < |entries| ==> entries[i].state in codes
  }

  /** Every successful year's rows are rows of that year naming one of `codes`. */
  ghost predicate Tagged(summary: Summaries, codes: seq<string>) {
    forall y :: summary(y).Ok? ==> YearRows(y, summary(y).value) && AcceptedRows(summary(y).value, codes)
  }

  /** One step of the year loop: a successful run from `year` is that year's
      rows followed by a successful run from the next year. */
  lemma ConcatenateStep(year: int, summary: Summaries)
    requires year < EndYear && Concatenate(year, summary).Ok?
    ensures summary(year).Ok? && Concatenate(year + 1, summary).Ok?
    ensures Concatenate(year, summary).value == summary(year).value + Concatenate(year + 1, summary).value
  {
  }

  /** Every row of a successful run from `year` has a year in range and
      names one of `codes`. */
  lemma {:induction false} ConcatenateRows(year: int, summary: Summaries, codes: seq<string>)
    requires Tagged(summary, codes) && Concatenate(year, summary).Ok?
    ensures var all := Concatenate(year, summary).value;
            && AcceptedRows(all, codes)
            && forall i :: 0 <= i < |all| ==> year <= all[i].year < EndYear
    decreases EndYear - year
  {
    if year < EndYear {
      ConcatenateStep(year, summary);
      ConcatenateRows(year + 1, summary, codes);
      var entries := summary(year).value;
      var rest := Concatenate(year + 1, summary).value;
      assert YearRows(year, entries) && AcceptedRows(entries, codes);
      var all := entries + rest;
      forall i | 0 <= i < |all|
        ensures year <= all[i].year < EndYear && all[i].state in codes
      {
        if i < |entries| {
          assert all[i] == entries[i];
        } else {
          assert all[i] == rest[i - |entries|];
        }
      }
    }
  }

  /** Rows in ascending year order, with no (year, state) pair twice. */
  predicate Ordered(all: seq<Entry>) {
    forall i, j :: 0 <= i < j < |all| ==>
      all[i].year < all[j].year || (all[i].year == all[j].year && all[i].state != all[j].state)
  }

  /** One year's rows followed by the ordered rows of later years are ordered. */
  lemma OrderedAppend(year: int, entries: seq<Entry>, rest: seq<Entry>)
    requires YearRows(year, entries)
    requires forall i :: 0 <= i < |rest| ==> rest[i].year > year
    requires Ordered(rest)
    ensures Ordered(entries + rest)
  {
    var all := entries + rest;
    forall i, j | 0 <= i < j < |all|
      ensures all[i].year < all[j].year || (all[i].year == all[j].year && all[i].state != all[j].state)
    {
      if j < |entries| {
        assert all[i] == entries[i] && all[j] == entries[j];
      } else if i < |entries| {
        assert all[i] == entries[i] && all[j] == rest[j - |entries|];
      } else {
        assert all[i] == rest[i - |entries|] && all[j] == rest[j - |entries|];
      }
    }
  }

  /** Summary rows come in ascending year order, and no (year, state) pair
      appears twice. */
  lemma {:induction false} ConcatenateOrdered(year: int, summary: Summaries, codes: seq<string>)
    requires Tagged(summary, codes) && Concatenate(year, summary).Ok?
    ensures Ordered(Concatenate(year, summary).value)
    decreases EndYear - year
  {
    if year < EndYear {
      ConcatenateStep(year, summary);
      ConcatenateRows(year + 1, summary, codes);
      ConcatenateOrdered(year + 1, summary, codes);
      var entries := summary(year).value;
      assert YearRows(year, entries);
      OrderedAppend(year, entries, Concatenate(year + 1, summary).value);
    }
  }

  /** The rows of year `y`, in order. */
  function WithYear(all: seq<Entry>, y: int): (r: seq<Entry>)
    ensures |r| <= |all|
    ensures forall i :: 0 <= i < |r| ==> r[i].year == y
  {
    if |all| == 0 then []
    else (if all[0].year == y then [all[0]] else []) + WithYear(all[1..], y)
  }

  /** Selecting a year distributes over concatenation. */
  lemma {:induction false} WithYearAppend(a: seq<Entry>, b: seq<Entry>, y: int)
    ensures WithYear(a + b, y) == WithYear(a, y) + WithYear(b, y)
    decreases |a|
  {
    if |a| == 0 {
      assert a + b == b;
    } else {
      assert (a + b)[0] == a[0];
      assert (a + b)[1..] == a[1..] + b;
      WithYearAppend(a[1..], b, y);
    }
  }

  /** A list of rows all of year `y` is its own selection. */
  lemma {:induction false} WithYearAll(a: seq<Entry>, y: int)
    requires forall i :: 0 <= i < |a| ==> a[i].year == y
    ensures WithYear(a, y) == a
    decreases |a|
  {
    if |a| > 0 {
      WithYearAll(a[1..], y);
      assert [a[0]] + a[1..] == a;
    }
  }

  /** A list with no row of year `y` selects nothing. */
  lemma {:induction false} WithYearNone(a: seq<Entry>, y: int)
    requires forall i :: 0 <= i < |a| ==> a[i].year != y
    ensures WithYear(a, y) == []
    decreases |a|
  {
    if |a| > 0 {
      WithYearNone(a[1..], y);
    }
  }

  /** Selecting year `y` from one year's rows followed by later years' rows
      gives the first part when `y` is that year, and the later rows'
      selection otherwise. */
  lemma SelectYear(year: int, y: int, entries: seq<Entry>, rest: seq<Entry>, target: seq<Entry>)
    requires YearRows(year, entries)
    requires forall i :: 0 <= i < |rest| ==> rest[i].year > year
    requires y == year ==> target == entries
    requires y != year ==> target == WithYear(rest, y)
    ensures WithYear(entries + rest, y) == target
  {
    WithYearAppend(entries, rest, y);
    if y == year {
      WithYearAll(entries, y);
      WithYearNone(rest, y);
      assert entries + [] == entries;
    } else {
      WithYearNone(entries, y);
      assert [] + WithYear(rest, y) == WithYear(rest, y);
    }
  }

  /** The rows of year `y` in a successful run are exactly that year's rows,
      in order: each year's summary appears once, in one piece. */
  lemma {:induction false} ConcatenateYear(year: int, summary: Summaries, codes: seq<string>, y: int)
    requires Tagged(summary, codes) && Concatenate(year, summary).Ok?
    requires year <= y < EndYear
    ensures WithYear(Concatenate(year, summary).value, y) == summary(y).value
    decreases EndYear - year
  {
    ConcatenateStep(year, summary);
    ConcatenateRows(year + 1, summary, codes);
    var entries := summary(year).value;
    assert YearRows(year, entries);
    if y != year {
      ConcatenateYear(year + 1, summary, codes, y);
    }
    SelectYear(year, y, entries, Concatenate(year + 1, summary).value, summary(y).value);
  }

  /** The per-year outcome of the real run. */
  function YearSummaries(listing: int -> seq<File>, parse: Parse): (summary: Summaries)
    ensures forall y :: summary(y) == YearSummary(y, listing(y), parse)
  {
    y => YearSummary(y, listing(y), parse)
  }

  /** Each year's summary rows carry the year, accepted codes, and no
      state twice. */
  lemma SummariesTagged(listing: int -> seq<File>, parse: Parse)
    ensures Tagged(YearSummaries(listing, parse), StatesToConsider)
  {
    var summary := YearSummaries(listing, parse);
    forall y | summary(y).Ok?
      ensures YearRows(y, summary(y).value) && AcceptedRows(summary(y).value, StatesToConsider)
    {
      assert summary(y) == YearSummary(y, listing(y), parse);
    }
  }

  /** The whole run: `listing(y)` gives the station files of year `y` in
      directory-listing order; the years from 1980 to 2021 are read in turn. */
  function Construct(listing: int -> seq<File>, parse: Parse): (r: Result<seq<Entry>>)
    ensures r.Ok? <==> forall y :: FirstYear <= y < EndYear ==> YearSummary(y, listing(y), parse).Ok?
    ensures r.Err? ==> exists y :: FirstYear <= y < EndYear && YearSummary(y, listing(y), parse) == Err(r.error)
                                   && forall k :: FirstYear <= k < y ==> YearSummary(k, listing(k), parse).Ok?
  {
    var r := Concatenate(FirstYear, YearSummaries(listing, parse));
    if r.Err? then
      ConcatenateError(FirstYear, YearSummaries(listing, parse));
      r
    else r
  }

  /** Every output row has a year from 1980 to 2021 and an accepted code,
      the rows are ordered by year, and each (year, state) pair appears at
      most once. */
  lemma ConstructOrdered(listing: int -> seq<File>, parse: Parse)
    requires Construct(listing, parse).Ok?
    ensures var all := Construct(listing, parse).value;
            forall i :: 0 <= i < |all| ==> FirstYear <= all[i].year < EndYear && all[i].state in StatesToConsider
    ensures Ordered(Construct(listing, parse).value)
  {
    SummariesTagged(listing, parse);
    ConcatenateRows(FirstYear, YearSummaries(listing, parse), StatesToConsider);
    ConcatenateOrdered(FirstYear, YearSummaries(listing, parse), StatesToConsider);
  }

  /** What the whole run says about year `y`: exactly that year's summary
      rows, which name the states the year's files contributed to, in order
      of the first file that did, and no other state. */
  lemma ConstructYearContents(listing: int -> seq<File>, parse: Parse, y: int)
    requires Construct(listing, parse).Ok?
    requires FirstYear <= y < EndYear
    ensures WithYear(Construct(listing, parse).value, y) == YearSummary(y, listing(y), parse).value
    ensures StatesOf(WithYear(Construct(listing, parse).value, y)) == FirstSeen([], listing(y))
    ensures forall s :: (s in StatesOf(WithYear(Construct(listing, parse).value, y)))
                          <==> Contributed(listing(y), s) != []
  {
    SummariesTagged(listing, parse);
    ConcatenateYear(FirstYear, YearSummaries(listing, parse), StatesToConsider, y);
    YearSummaryContents(y, listing(y), parse);
  }
}
