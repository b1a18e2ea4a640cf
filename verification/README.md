# Agent-report merger: a Dafny model

`pdagent.py` merges call-centre agent reports. Each uploaded spreadsheet holds
rows that carry the agent's `Collector Name`. The program
concatenates the sheets and drops the administrative columns (`SNo.`,
`Total Calls`, `Pause Count`). It then keeps the rows that name an agent and
reads the eight duration columns (`Spent Time`, `Talk Time`, …,
`Pause Time`) as seconds. Next it adds the durations up per agent and appends
an `Average` row. Finally it exports the result twice: as a preview with
durations rendered `H:MM:SS`, and as a workbook whose duration cells carry the
`[h]:mm:ss` number format.

This project restates that core as pure functions over already-decoded
tables and proves what each step promises.

- `results.dfy`: `Option` and `Result`.
- `strings.dfy`: `str.strip`, `str.split`, Python `int()` on a signed decimal
  string, and `str()` of an integer.
- `tables.dfy`: the cell, row and table model. A row is a map from column
  name to cell, and a key that is missing reads as null. It also holds the
  fixed column lists.
- `codec.dfy`: `time_to_seconds` and `seconds_to_time`, and their round trip.
- `ordering.dfy`: Python's `<` on strings, the order in which `groupby`
  emits its keys.
- `grouping.dfy`: `groupby("Collector Name").agg(...)`.
  - A single-pass accumulator is proved equal to a reference definition:
    the sum of the agent's rows, or the first non-null value among them.
  - It also builds the `Average` row.
- `merger.dfy`: `merge_excel_files` after the files are read, as `Merge`.
  - Concatenation, the administrative drop, the identity check, the row
    filter, normalisation and aggregation.
  - The two error messages.
- `merge_laws.dfy`: end-to-end laws of `Merge`, stated against the raw input
  rows. They cover the shape of the result, each agent's sums and firsts, the
  Average row and the degenerate case.
- `export.dfy`: the display copy, the workbook copy (durations as fractions
  of a day) and the per-cell style directives.
- `pipeline.dfy`: `Merge`'s result meets what the export step needs, and
  the identity column receives no style.

Cells are `Null | Num(real) | Text(string) | Other(tag)`. `Other` stands for
any value that is neither a number nor a string, such as a date.

Four details follow from pandas' defaults and the code as written:

- Agent rows come out in ascending name order, because `groupby` sorts its
  keys. They do not come out in first-appearance order.
- Grouping is on the raw, untrimmed name, so `"Alice"` and `"Alice "` are two
  agents. Only the row filter strips.
- "First" is pandas' `first`, which is the first non-null value of the group.
  It is not the value of the group's first row.
- The output columns are `Collector Name`, then the present duration columns
  in the fixed list's order, then the remaining columns in the order they
  first appear across the uploaded headers. This follows `agg_dict` and
  `reset_index`, not the concatenation order.

## Model

| member | source | states |
|---|---|---|
| `Strings.Strip` | pdagent.py:119 | The result is the input with leading and trailing whitespace removed. It is empty exactly when the input is all whitespace. |
| `Strings.Split` | pdagent.py:118 | Splitting on a separator gives one more part than there are separators, no part holds the separator, and joining the parts gives the input back. |
| `Strings.SplitJoin` | pdagent.py:118 | Splitting a join of separator-free parts gives those parts back. |
| `Strings.IntRoundTrip` | pdagent.py:121 | `int()` reads the decimal rendering of any integer, negative ones included, back as that integer. |
| `Codec.ReadClock` | pdagent.py:120-128 | Three stripped parts that `int()` accepts read as `h*3600 + m*60 + s`, two as `m*60 + s`. Any other number of parts, or any part `int()` rejects, reads as 0. |
| `Codec.ClockToSeconds` | pdagent.py:117-128 | Text that does not split on ':' into two or three parts reads as 0. |
| `Codec.RejectedPart` | pdagent.py:119-128 | For every text: if any colon-separated part is one that `int()` rejects after stripping, the whole reading is 0, whatever the number of parts. |
| `Codec.TimeToSeconds` | pdagent.py:111-128 | A null or non-numeric, non-text cell reads as 0. A number passes through unchanged. Text reads by the clock rule. |
| `Codec.PartCountRule` | pdagent.py:117-128 | Text with neither one nor two colons reads as 0. |
| `Codec.ClockThreeParts` | pdagent.py:120-122 | Three colon-separated integers, each stripped, read as `h*3600 + m*60 + s`, with no range check on any field. |
| `Codec.ClockTwoParts` | pdagent.py:123-125 | Two colon-separated integers read as `m*60 + s`, with minutes not capped. |
| `Codec.ExampleUncappedMinutes` | pdagent.py:123-125 | `"90:00"` reads as 5400 seconds. |
| `Codec.ExampleSigned` | pdagent.py:123-125 | Signs are accepted, so `"-1:30"` reads as -30 seconds. |
| `Codec.ExampleEmptyPart` | pdagent.py:120-128 | `"1::2"` reads as 0, because an empty part is not an integer. |
| `Codec.ExampleLetters` | pdagent.py:123-128 | `"a:30"` reads as 0. |
| `Codec.SecondsToTime` | pdagent.py:131-139 | The rendering is `H:MM:SS`. H reads back as the floor of n/3600, and for n ≥ 0 it is unpadded digits. MM and SS are two digits each below 60, and together they make n mod 3600. |
| `Codec.ExampleRender` | pdagent.py:131-139 | 5400 renders as `"1:30:00"` and 0 as `"0:00:00"`. |
| `Codec.Truncate` | pdagent.py:134 | `int()` on a float truncates toward zero. |
| `Codec.FormatCell` | pdagent.py:131-139 | A null renders as `"0:00:00"`. A number renders as the `H:MM:SS` rendering of its truncation to whole seconds, which reads back as that truncation. |
| `Codec.ClockRoundTrip` | pdagent.py:111-139 | Reading back the rendering of any integer n gives n. |
| `Codec.RoundTrip` | pdagent.py:111-139 | `time_to_seconds(seconds_to_time(n)) == n` for every integer n. |
| `Ordering.LessTransitive` | pdagent.py:179 | The key order is transitive. |
| `Ordering.LessTotal` | pdagent.py:179 | Of two different keys, one comes before the other. |
| `Ordering.LessAsymmetric` | pdagent.py:179 | No two keys come before each other. |
| `Ordering.LessIrreflexive` | pdagent.py:179 | No key comes before itself. |
| `Ordering.Insert` | pdagent.py:179 | Placing a key into a sorted key list keeps it strictly sorted and adds exactly that key. |
| `Ordering.SortedDistinct` | pdagent.py:179 | The group keys are strictly ascending and are exactly the names that occur. |
| `Ordering.SortedCount` | pdagent.py:179 | Strictly sorted keys repeat nothing, so their number is the number of distinct names. |
| `Ordering.SortedUnique` | pdagent.py:179 | Only one strictly sorted sequence holds a given set of names, so the key order is determined. |
| `Tables.Without` | pdagent.py:155 | Removing listed columns keeps exactly the others and adds no repeats. Removing columns that are absent changes nothing. |
| `Tables.WithoutOrder` | pdagent.py:155 | From a list without repeats, the columns that remain keep their relative order. |
| `Tables.Within` | pdagent.py:166 | The present duration columns are exactly the fixed ones that are present, without repeats. When none is present, there are none. |
| `Tables.WithinOrder` | pdagent.py:166 | The present duration columns come in the fixed list's order. |
| `Merger.IdentityAlone` | pdagent.py:166 | A frame holding only `Collector Name` has no duration column. |
| `Merger.UnionColumns` | pdagent.py:153 | The concatenated header lists every column of every table once, in the order of first appearance across the uploaded headers taken one after another. |
| `Merger.AppendNewFollows` | pdagent.py:153 | Adding a table's header to the columns seen so far keeps first-appearance order over the headers read so far. |
| `Merger.AppendNew` | pdagent.py:153 | Columns seen earlier keep their position, and a new column is appended once. |
| `Merger.Concat` | pdagent.py:153 | Every input row appears once, in order. It holds exactly the union columns, with null where its own table lacks the column. |
| `Merger.DropAdmin` | pdagent.py:154-155 | No administrative column survives and every other column and cell is kept. When no administrative column is present, the table is unchanged. |
| `Merger.KeepNamed` | pdagent.py:158 | The rows kept are exactly those whose name is present and not blank after stripping. |
| `Merger.FilterNamed` | pdagent.py:157-158 | The filter keeps exactly the rows that name an agent and leaves the columns alone. |
| `Merger.NormaliseRow` | pdagent.py:168-169 | A duration cell becomes its reading in seconds, and every other cell is unchanged. |
| `Merger.Normalise` | pdagent.py:162-169 | Every present duration cell becomes its reading in seconds. Every other cell, and every row's key set, is unchanged. |
| `Merger.MergedColumns` | pdagent.py:153-155 | The merged columns are distinct, and they are exactly the non-administrative columns of some input table. |
| `Merger.OtherColumns` | pdagent.py:172 | The columns aggregated with "first" are exactly the present columns that are neither durations nor `Collector Name`, in frame order. |
| `Merger.LayoutOrder` | pdagent.py:171-179 | The aggregated table's columns are `Collector Name`, then the duration columns in the fixed list's order, then the other columns in frame order. |
| `Merger.Message` | pdagent.py:160 | Each failure has its own message: "Collector Name column not found in the data." exactly for the missing column, and "No valid Excel files uploaded." (line 192) exactly for no files. |
| `Merger.GroupedLast` | pdagent.py:179-188 | The grouped table has one row per distinct key and then one more, whose identity is "Average". |
| `Merger.Assemble` | pdagent.py:171-190 | The result starts with `Collector Name` and has distinct columns, exactly the given ones. The duration columns come next in the fixed list's order, and the remaining columns follow in their given order. With more than the identity, it ends with the "Average" row. Otherwise it is the given rows, unchanged. |
| `Merger.Merge` | pdagent.py:152-192 | No tables gives "No valid Excel files uploaded.". With at least one table, the result is an error exactly when no table has `Collector Name`, and that error is "Collector Name column not found in the data.". A success has distinct columns, starts with `Collector Name`, and holds exactly the non-administrative input columns. With any other column, it ends with the "Average" row. |
| `MergeLaws.MergeOneTable` | pdagent.py:152-190 | A single uploaded table that has `Collector Name` and one more kept column merges successfully. The result holds exactly that table's non-administrative columns and ends with the "Average" row. |
| `MergeLaws.ExampleMerged` | pdagent.py:152-190 | One table with `Collector Name` and `Talk Time` and a single row merges, whatever the name and duration text. The result has exactly those two columns and ends with the "Average" row. |
| `MergeLaws.MergeColumnOrder` | pdagent.py:153-179 | A merged table's columns are `Collector Name`, then the present duration columns in the fixed list's order, then every other column in order of first appearance across the uploaded headers. |
| `Grouping.GroupOf` | pdagent.py:179 | An agent's group holds only that agent's rows, and it is non-empty exactly when the agent occurs. |
| `Grouping.GroupComplete` | pdagent.py:179 | Every row of an agent is in that agent's group, so the group is exactly the agent's rows. |
| `Grouping.FirstNonNull` | pdagent.py:174 | The result is null exactly when every cell of the column is null. Otherwise it is the cell of the earliest row that has one. |
| `Grouping.AccumulateKeys` | pdagent.py:179 | The single-pass grouping holds a row for exactly the agents that occur. |
| `Grouping.AccumulateAgrees` | pdagent.py:171-179 | The single-pass grouping gives each agent its reference row. Each duration column is the group's sum and each other column is its first non-null value. |
| `Grouping.Keys` | pdagent.py:179 | The keys are the agents that occur, strictly ascending. |
| `Grouping.Aggregate` | pdagent.py:171-179 | There is one row per key, in key order, each the agent's reference row. The columns are the identity, then the durations, then the others. |
| `Grouping.Mean` | pdagent.py:183 | As many copies of the mean as there are values add up to their total. `Grouping.TimesIsProduct` shows that such a sum is the product. |
| `Grouping.AverageRow` | pdagent.py:181-186 | The identity is "Average". A duration is the mean over the agent rows: as many copies of it as there are agents add up to the column total. With no agents it is null. Every other column is null. |
| `MergeLaws.RawFirstSpec` | pdagent.py:174 | The first non-null value in upload order is null only when all are. Otherwise it is the earliest non-null cell. |
| `MergeLaws.TotalsAgree` | pdagent.py:169-179 | Summing the normalised group equals summing the raw cells read as seconds. |
| `MergeLaws.KeepWiden` | pdagent.py:153-158 | Filtering the concatenated frame keeps exactly the input rows whose raw name is non-blank text, in order. |
| `MergeLaws.PreparedGroups` | pdagent.py:153-179 | An agent's group after concatenation, drop, filter and normalisation is its raw input rows, in order, each so transformed. |
| `MergeLaws.MergeShape` | pdagent.py:157-188 | With any column besides the identity, there is one row per distinct untrimmed non-blank name, strictly ascending and covering every name, then one "Average" row. |
| `MergeLaws.MergeAgentRow` | pdagent.py:162-179 | In an agent row, a duration is the sum over that agent's input rows of the cell read as seconds, and a missing column counts 0. Every other column is the agent's first non-null value in upload order. |
| `MergeLaws.MergeAverage` | pdagent.py:181-188 | In the Average row, as many copies of a duration as there are agent rows add up to the column's total over the agent rows alone. With no agents it is null. Every other column is null. |
| `MergeLaws.DegenerateParts` | pdagent.py:176-177 | When nothing besides `Collector Name` survives, the merge returns the prepared rows under that single column. |
| `MergeLaws.DegeneratePrepared` | pdagent.py:153-169 | With only the identity left after the drop, the prepared rows are the named input rows in order, each reduced to its identity cell. |
| `MergeLaws.MergeDegenerate` | pdagent.py:176-177 | With no column besides the identity, the result is that column alone and holds one row per named input row, in order, ungrouped, with no Average row. |
| `Export.FormatRun` | pdagent.py:231-234 | Data rows 2..n+1 of a duration column get the duration format and right alignment, and nothing else. |
| `Export.AlignRun` | pdagent.py:243-246 | Rows 1..n+1 of a column get right alignment and nothing else. |
| `Export.TimeDirectivesSpec` | pdagent.py:228-237 | The first loop styles exactly the present duration columns: their data cells get format and alignment, and their header gets alignment. |
| `Export.OtherDirectives` | pdagent.py:239-246 | The second loop right-aligns rows 1..n+1 of exactly the non-identity, non-duration columns. |
| `Export.Directives` | pdagent.py:228-246 | A cell gets a number format exactly when its column is a duration and its row a data row, and that format is `[h]:mm:ss`. A cell is right-aligned exactly when its column is not `Collector Name` and its row is between 1 and n+1. |
| `Export.DisplayCopy` | pdagent.py:207-214 | In the preview, every duration cell is the `H:MM:SS` text of its truncated seconds, which reads back as those seconds, or `"0:00:00"` for a null. Every other cell is unchanged. |
| `Export.SheetCopy` | pdagent.py:218-222 | In the workbook copy, every numeric duration is the seconds divided by 86400. Nulls and other columns are unchanged. |
| `Pipeline.MergedDurations` | pdagent.py:168-188 | Every duration cell of a merged table is a number or, for the mean over no agents, null. So it can be rendered. |
| `Pipeline.MergedExport` | pdagent.py:207-246 | The directives of a merged table never style the `Collector Name` column, and the merged table can be rendered. |
| `Pipeline.NoIdentityStyle` | pdagent.py:239-246 | When `Collector Name` is the first column, no directive touches column 1. |

## Left out

- The Streamlit page, uploader, preview widget, banners and download button
  are presentation only and are not modelled (pdagent.py:1-103, 198-206,
  215-216, 250-265).
- Writing uploads to a temporary directory, `pd.read_excel` and the cleanup
  are filesystem I/O. The model takes the already-decoded tables as input.
- The workbook bytes and `get_column_letter` belong to the spreadsheet
  library. The model stops at the list of style directives it is driven by,
  with columns numbered from 1.
- Floating point is not modelled. Numbers are exact reals, so the mean and the
  division by 86400 carry no rounding.
- `Codec.TimeToSeconds`: `int()` extras are not modelled. Underscores
  and non-ASCII digits are left out, and a stripped part is an optional sign
  followed by ASCII digits.
- `Merger.Merge` requires every `Collector Name` cell to be text or null.
  Names of other kinds take paths through pandas that the model leaves out
  (pdagent.py:158, 179, 194-195):
  - when no name is text, the `.str` accessor raises and the generic handler
    returns its message;
  - when text and numbers mix, `.str.strip()` gives NaN for the numbers, so
    those rows pass the filter, and `groupby` sorts the numeric keys before
    the text ones.
- `Merger.Merge`: a `Collector Name` column that is null throughout makes
  pandas' `.str` accessor raise. The model instead filters every row out.
- `Grouping.AverageRow`: the mean over no agents is NaN in pandas. The model
  gives null, which the preview shows as `"0:00:00"` as `seconds_to_time`
  does for NaN.
- `Export.Directives` requires distinct column names. `get_loc` has no single
  position to give for a repeated name, and a merged table never repeats one
  (`Pipeline.MergedExport`).
- Boolean cells, which are `int` to Python, are not modelled. Any
  non-numeric, non-text value is `Other` and reads as 0 seconds.
- Merging the same inputs with and without the administrative columns gives
  the same table. This is not proved as a whole-pipeline law.
  `Merger.DropAdmin` states its per-table form: dropping absent columns is
  a no-op.
