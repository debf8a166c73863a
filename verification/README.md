# GSOD year–state aggregation, modelled in Dafny

This project models the core of `construct()` in
`src/data_preparation/construct_gsod_final_dataset.py`. That function builds
a dataset of yearly, per-state weather averages from the Global Surface
Summary of the Day (GSOD) station files. Each year it works in two steps:

1. It reads every station file of the year into a dictionary from state code
   to rows.
   - The header row is skipped.
   - The station's state comes from the location field (column 5) of the
     first row that names one.
   - A station whose code is not among the accepted codes is dropped, and so
     is all of its file.
   - Every row from the resolving row onward is cleaned and appended to that
     state's bucket.
2. For every bucket, in insertion order, it emits `[year, state]` followed by
   the column means of 17 selected columns.

The years run from 1980 to 2021, and their rows are concatenated in year order.

Modules, one per stage of the script:

| module | file | what it holds |
|---|---|---|
| `Outcomes` | outcomes.dfy | `Option`, `Result`, and the crashes of the script as `Error` values |
| `PyStrings` | pystrings.dfy | Python's `str.split(sep)`, `sep.join`, and argument-less `strip()` |
| `Location` | location.dfy | the accepted code list, and how a location field yields a candidate code |
| `Cleaning` | cleaning.dfy | field and row cleaning |
| `StationFile` | stationfile.dfy | the per-file state machine, folded over the rows |
| `StateBuckets` | buckets.dfy | the insertion-ordered dictionary, as an association list |
| `Averages` | averages.dfy | column selection, numeric conversion and means over `real` |
| `Years` | years.dfy | the file loop of a year, its summary rows, and the run over all years |

How the model treats the script's crashes:
- The script never catches an exception, so any crash ends the run before
  the output is written.
- A crash is therefore an `Err` that the whole run propagates; the run
  fails with the error of the first year, file or bucket that failed.
- There are three crashes on the rows the model reads:
  - a row too short to have a location field, met while the state is
    unknown;
  - a bucket that cannot form a matrix holding the selected columns;
  - a selected field that is not a number.

The accepted code list is modelled as written: 53 entries. That includes
`DC`, `PR` and `VI`, although the comment above the list speaks of official
US states only. The model follows the code.

## Model

| member | source | states |
|---|---|---|
| Location.StatesToConsiderSize | src/data_preparation/construct_gsod_final_dataset.py:30-35 | the accepted list has 53 codes |
| Location.DistrictAccepted | src/data_preparation/construct_gsod_final_dataset.py:30 | the District of Columbia is accepted despite the comment speaking of states only |
| Location.PuertoRicoAccepted | src/data_preparation/construct_gsod_final_dataset.py:33 | Puerto Rico is accepted, although the comment says territories are ignored |
| Location.VirginIslandsAccepted | src/data_preparation/construct_gsod_final_dataset.py:34 | the US Virgin Islands are accepted, although the comment says territories are ignored |
| Location.GuamExcluded | src/data_preparation/construct_gsod_final_dataset.py:30-35 | Guam is not an accepted code |
| PyStrings.Split | src/data_preparation/construct_gsod_final_dataset.py:80 | splitting at a separator gives at least one piece, no piece holds the separator, joining the pieces gives back the string, there is one piece exactly when the separator is absent, and the first piece is a prefix |
| PyStrings.SplitJoin | src/data_preparation/construct_gsod_final_dataset.py:86 | the other half of the round trip: splitting the join of separator-free pieces gives the pieces back |
| PyStrings.SplitLast | src/data_preparation/construct_gsod_final_dataset.py:93 | the last piece of a split is the longest separator-free suffix |
| PyStrings.LastPiece | src/data_preparation/construct_gsod_final_dataset.py:93 | the last piece of a split at a separator holds no separator; see also SplitLast |
| PyStrings.Strip | src/data_preparation/construct_gsod_final_dataset.py:85-86 | a stripped string is empty or starts and ends with a non-whitespace character, and it is the slice of the input left when whitespace only is cut from both ends |
| PyStrings.StripChars | src/data_preparation/construct_gsod_final_dataset.py:85-86 | stripping introduces no character that was not in the input |
| PyStrings.StripUnchanged | src/data_preparation/construct_gsod_final_dataset.py:85-86 | stripping leaves a string alone exactly when neither end is whitespace |
| Location.ParseLocation | src/data_preparation/construct_gsod_final_dataset.py:75-86 | an empty field is skipped, and only it; a non-empty field without a comma is skipped, and only it; any candidate code has no comma or space and does not begin or end with whitespace |
| Location.CodeOf | src/data_preparation/construct_gsod_final_dataset.py:85-86 | the candidate taken from the piece after the comma has no space and does not begin or end with whitespace; CodeAfterComma gives its value |
| Location.CodeAfterComma | src/data_preparation/construct_gsod_final_dataset.py:80-86 | for a field `name,dCODE` followed by nothing, a space or a comma, where `name` has no comma, `d` is any character other than a comma and is dropped, and `CODE` is non-empty without whitespace or commas, the code is `CODE` |
| Location.DenverExample | src/data_preparation/construct_gsod_final_dataset.py:73-86 | "Denver Airport, OH" gives the code OH |
| Location.DenverCountryExample | src/data_preparation/construct_gsod_final_dataset.py:73-86 | "Denver Airport, OH US" gives the code OH |
| Location.NoSpaceAfterCommaExample | src/data_preparation/construct_gsod_final_dataset.py:85 | without a space after the comma the first letter of the code is lost: "Denver Airport,OH" gives H |
| Location.BlankExample | src/data_preparation/construct_gsod_final_dataset.py:77-78 | an empty location is skipped |
| Location.NoCommaExample | src/data_preparation/construct_gsod_final_dataset.py:80-83 | a location without a comma is skipped |
| Location.OneLetterCodeExcluded | src/data_preparation/construct_gsod_final_dataset.py:88-90 | the truncated code H of a comma-without-space location is never accepted |
| Cleaning.CleanField | src/data_preparation/construct_gsod_final_dataset.py:93-94 | a cleaned field is never empty and has no space; CleanFieldShape gives its value |
| Cleaning.CleanFieldShape | src/data_preparation/construct_gsod_final_dataset.py:93-94 | a cleaned field is non-empty and has no space; it is "0" for an empty field or one ending in a space, and otherwise the longest space-free suffix of the field |
| Cleaning.CleanFieldIdempotent | src/data_preparation/construct_gsod_final_dataset.py:93-94 | cleaning a cleaned field changes nothing |
| Cleaning.CleanFieldFixedPoints | src/data_preparation/construct_gsod_final_dataset.py:93-94 | a field is left alone exactly when it is non-empty and has no space |
| Cleaning.CleanRow | src/data_preparation/construct_gsod_final_dataset.py:93-94 | cleaning keeps the number of fields, and every cleaned field is non-empty and space-free |
| Cleaning.CleanRowIdempotent | src/data_preparation/construct_gsod_final_dataset.py:93-94 | cleaning a cleaned row changes nothing |
| Cleaning.MissingReadingExample | src/data_preparation/construct_gsod_final_dataset.py:94 | an empty field becomes "0" |
| Cleaning.PaddedReadingExample | src/data_preparation/construct_gsod_final_dataset.py:93 | left padding is dropped: "  29.9" becomes "29.9" |
| Cleaning.TrailingSpaceExample | src/data_preparation/construct_gsod_final_dataset.py:93-94 | a trailing space loses the reading: "29.9 " becomes "0" |
| StationFile.Visit | src/data_preparation/construct_gsod_final_dataset.py:72-90 | a resolved state stays as it is; a short row crashes while the state is unknown, and only then; an empty or comma-free location keeps it unknown; an accepted code resolves it to that code; any other code excludes the file |
| StationFile.Scan | src/data_preparation/construct_gsod_final_dataset.py:64-100 | an excluded file yields nothing; once resolved, every remaining row is kept cleaned; nothing is kept unless the file ends resolved; a resolution reached during the scan is an accepted code and keeps at least its resolving row |
| StationFile.ScanKept | src/data_preparation/construct_gsod_final_dataset.py:72-100 | the kept rows are the cleaned rows of a suffix of the input, in order |
| StationFile.ProcessFile | src/data_preparation/construct_gsod_final_dataset.py:58-100 | a file that resolves keeps rows and is keyed by an accepted code; one that does not keeps no row |
| StationFile.ProcessFileKept | src/data_preparation/construct_gsod_final_dataset.py:64-68 | the kept rows are a cleaned suffix of the file that never reaches the header |
| StationFile.HeaderIgnored | src/data_preparation/construct_gsod_final_dataset.py:66-68 | the header's content has no influence on the result |
| StationFile.SkipRow | src/data_preparation/construct_gsod_final_dataset.py:77-83 | an unresolved row with an empty or comma-free location leaves no trace, and resolution is retried on the next row |
| StationFile.SkipRows | src/data_preparation/construct_gsod_final_dataset.py:77-83 | a run of such rows at the front leaves no trace |
| StationFile.NeverResolved | src/data_preparation/construct_gsod_final_dataset.py:72-83 | a file whose locations never name a code contributes no row |
| StationFile.ResolvedAt | src/data_preparation/construct_gsod_final_dataset.py:72-100 | the first row naming an accepted code fixes the state, and it and every later row are kept, cleaned, in file order |
| StationFile.ExcludedAt | src/data_preparation/construct_gsod_final_dataset.py:88-90 | the first row naming a code outside the list ends the file, which contributes no row |
| StationFile.FailsAt | src/data_preparation/construct_gsod_final_dataset.py:75 | a short row before resolution crashes the run |
| StationFile.TerritoryFileExample | src/data_preparation/construct_gsod_final_dataset.py:88-90 | a Guam station's file is dropped whole |
| StateBuckets.Find | src/data_preparation/construct_gsod_final_dataset.py:97 | the key lookup gives the first entry with the key, or the end when there is none |
| StateBuckets.LookupValid | src/data_preparation/construct_gsod_final_dataset.py:97-100 | in a valid dictionary a key's rows are its entry's rows, and a key is present exactly when it has rows |
| StateBuckets.Insert | src/data_preparation/construct_gsod_final_dataset.py:97-100 | insertion keeps keys distinct and buckets non-empty; a new key goes after all existing keys, and an existing key keeps its place |
| StateBuckets.InsertLookup | src/data_preparation/construct_gsod_final_dataset.py:97-100 | after insertion the key's rows are its old rows plus the new row, and every other key keeps its rows |
| StateBuckets.InsertAll | src/data_preparation/construct_gsod_final_dataset.py:97-100 | inserting a file's rows keeps the dictionary valid and adds the key at the end if it is new and there are rows |
| StateBuckets.InsertAllAppended | src/data_preparation/construct_gsod_final_dataset.py:97-100 | inserting rows one by one is appending them, in order, to the key's bucket, or creating it at the end |
| StateBuckets.InsertAllLookup | src/data_preparation/construct_gsod_final_dataset.py:97-100 | after a file's rows are added, the key has its old rows followed by them, and every other key keeps its rows |
| Averages.ConvertRow | src/data_preparation/construct_gsod_final_dataset.py:115-118 | a row converts exactly when each selected field converts, giving one number per selected column, in column order |
| Averages.ToMatrix | src/data_preparation/construct_gsod_final_dataset.py:114-118 | the bucket converts exactly when every selected field of every row converts; row k, column j holds the converted field |
| Averages.ColumnMeans | src/data_preparation/construct_gsod_final_dataset.py:121 | one mean per column, and each mean times the number of rows is the column's sum |
| Averages.ColumnSumIsTotal | src/data_preparation/construct_gsod_final_dataset.py:121 | summing a matrix column sums the converted fields of that column of the rows |
| Averages.SummarizeBucket | src/data_preparation/construct_gsod_final_dataset.py:113-122 | a bucket crashes exactly when it is not a matrix holding the selected columns (malformed) or a selected field is not a number; otherwise it gives the year, the state and one value per selected column |
| Averages.SummarizeBucketMeans | src/data_preparation/construct_gsod_final_dataset.py:109-122 | each value is the column total over the bucket's rows divided by their number |
| Averages.ThreeReadingsExample | src/data_preparation/construct_gsod_final_dataset.py:121 | readings 1.0, 3.0 and 2.0 average to 2.0 |
| Outcomes.AllOk | src/data_preparation/construct_gsod_final_dataset.py:113-122 | a loop that stops at its first crash: all results when none failed, otherwise the error of the first failure |
| Years.CollectFrom | src/data_preparation/construct_gsod_final_dataset.py:53-100 | the file loop succeeds exactly when every file is read; the dictionary stays valid and every new key is an accepted code |
| Years.CollectStep | src/data_preparation/construct_gsod_final_dataset.py:97-100 | one file's step appends its contribution to its state and leaves the others alone |
| Years.CollectLookup | src/data_preparation/construct_gsod_final_dataset.py:53-100 | every bucket ends up as its old rows followed by what the files contributed to its state, in file order |
| Years.CollectKeys | src/data_preparation/construct_gsod_final_dataset.py:53-100 | the keys are the states in the order of the first file resolving to each |
| Years.CollectYear | src/data_preparation/construct_gsod_final_dataset.py:50-100 | a year's dictionary exists exactly when every file is read, and it is keyed by accepted codes |
| Years.CollectYearContents | src/data_preparation/construct_gsod_final_dataset.py:50-100 | a year's buckets hold exactly the contributed rows, keyed in order of first appearance |
| Years.SummarizeYear | src/data_preparation/construct_gsod_final_dataset.py:113-122 | a year is summarized exactly when every bucket is, with one entry per bucket in bucket order; a failure reports the error of the first bucket that fails |
| Years.YearSummary | src/data_preparation/construct_gsod_final_dataset.py:43-122 | a year's rows carry the year, an accepted code and 17 values, and no state appears twice |
| Years.YearSummaryContents | src/data_preparation/construct_gsod_final_dataset.py:50-122 | a year has a row for a state exactly when its files contributed rows to it, in order of the first such file, and each value is that state's column total divided by its row count |
| Years.SameStateFiles | src/data_preparation/construct_gsod_final_dataset.py:97-100 | two files of one state share one bucket, the first file's rows first |
| Years.Concatenate | src/data_preparation/construct_gsod_final_dataset.py:43-122 | the year loop succeeds exactly when every year from the first on succeeds |
| Years.ConcatenateError | src/data_preparation/construct_gsod_final_dataset.py:43-122 | a failed year loop fails with the error of the first year that failed, every earlier year having succeeded |
| Years.ConcatenateRows | src/data_preparation/construct_gsod_final_dataset.py:43-122 | every row of the year loop's output has a year in range and an accepted code |
| Years.ConcatenateOrdered | src/data_preparation/construct_gsod_final_dataset.py:43-122 | the rows are in ascending year order, and no (year, state) pair repeats |
| Years.ConcatenateYear | src/data_preparation/construct_gsod_final_dataset.py:43-122 | the rows of any one year in the output are exactly that year's summary rows, in order |
| Years.Construct | src/data_preparation/construct_gsod_final_dataset.py:38-122 | the run succeeds exactly when every year from 1980 to 2021 is summarized, and otherwise fails with the first failing year's error |
| Years.ConstructOrdered | src/data_preparation/construct_gsod_final_dataset.py:38-122 | every output row has a year from 1980 to 2021 and an accepted code; the output is ordered by year with no (year, state) pair twice |
| Years.ConstructYearContents | src/data_preparation/construct_gsod_final_dataset.py:38-122 | for each year the output holds one row per state the year's files contributed rows to, in order of the first such file, and no other row of that year |

## Left out

- File I/O: the directory listing and the CSV reading (lines 45-46 and 56-57). A year's station files are a parameter `listing: int -> seq<File>`, each file already split into rows of fields. The order of the files is whatever the listing gives.
- The output CSV writer, its header row and its quoting (lines 127-134). These are I/O; the model returns the rows.
- The progress messages printed at lines 44, 49, 105 and 125.
- String-to-float conversion (`astype(float)`, line 118) is a foreign call. It is the parameter `parse: string -> Option<real>`, where `None` means the conversion raises.
- Averages.SummarizeBucket: the means are exact `real` quotients, not IEEE doubles. The rounding of `np.mean` is not modelled.
- Averages.SummarizeBucket: numpy's two failures when it builds the array and picks the columns, ragged rows and a too-narrow row, are merged into one error, `MalformedBucket`. The numpy exception types are not modelled.
- The I/O crashes are not modelled, since the files are a parameter: a missing year folder (`listdir`, line 46), a file that cannot be opened or decoded (line 56), and a malformed CSV line (`csv.Error` from the reader, line 64).
