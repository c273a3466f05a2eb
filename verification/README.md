# SMHI temperature harvester — Dafny model

The harvester (`XMLParse.main`) reads every weather station's
"corrected-archive" CSV export of one SMHI observation parameter. From these
it builds a sparse matrix, date → station → reading, in which a later reading
for the same pair replaces an earlier one. It then writes the matrix into an
Excel workbook:

- Dates run down the rows in ascending order.
- Stations run across the columns in ascending order, 200 stations to a
  sheet.
- Row 0 of every sheet the stations reach holds the station keys. Sheets
  allocated beyond those have no rows at all.
- Column 0 of every date row holds the date.

The model is made of these modules:

| module | file | models |
|---|---|---|
| `Results` | results.dfy | `Option` and `Result` |
| `Text` | text.dfy | string order, prefix test, `String.split` with a one-character pattern |
| `SortedKeys` | sorted_keys.dfy | a sorted string set (tree set) as a strictly sorted sequence |
| `Ingestion` | ingestion.dfy | reading one station's CSV export into observations |
| `ObservationMatrix` | matrix.dfy | the nested hash map and its insert-or-overwrite |
| `Harvesting` | harvesting.dfy | the station/period loops that fill the matrix |
| `KeyOrder` | key_order.dfy | the sorted date keys and the merged, sorted station keys |
| `Layout` | layout.dfy | sheet count and the sheet/column address of each station |
| `Workbook` | workbook.dfy | sheets, rows and cells, with row-creation semantics |
| `Emission` | emission.dfy | the header pass, the data pass and the whole export |
| `Pipeline` | pipeline.dfy | one run: harvest, then export |

Inputs and outputs are modelled as follows:

- **Input.** Each station's periods are given as input. A station is its
  identifier plus its periods in catalog order. A period is its name plus its
  CSV export as a sequence of lines.
- **Number parsing.** `Double.valueOf` is a parameter `parse: string ->
  Option<real>`, where `None` stands for a `NumberFormatException`. Readings
  are `real`.
- **Output.** The result is the workbook, as a value. It is modelled as its
  contents (sheet → row → column → cell), not as a list of write
  instructions. The reason is that the program creates some rows twice:
  row 0 of sheet 0 at lines 297 and 301, and each date row of sheet 0 at
  lines 310 and 316. A second creation discards what the row held. The
  contracts state the final content of every cell.

The Java program lets an `ArrayIndexOutOfBoundsException`, a
`NoSuchElementException` or a `NumberFormatException` escape `main`. Any of
these ends the run before a workbook is written. The model returns
`Failure(e)` for the whole run in each such case.

Three behaviours of the code are worth noting; the model follows the code:

- **End of the data table.** The table ends at the first line with fewer than
  two fields (`XMLParse.java:235`). A line with two or three fields aborts
  the run (`ShortRecord`). A two-field line fails at the index `array[2]`
  (line 238); a three-field line gets as far as `array[3]` (line 245).
- **Bad data aborts everything.** Malformed data is not isolated per station:
  one bad line in any export aborts the whole run.
- **Sheet width.** A sheet holds 200 station columns (line 29). Sheets are
  allocated with the divisor 195, as `stations / 195 + 1` (lines 270-274).
  More sheets are allocated than the stations reach exactly when 195k ≤ S ≤
  200k for some k ≥ 1: 195 to 200 stations, 390 to 400, and so on, and every
  count from 7605 on. The sheets beyond the reached ones stay empty
  (`Layout.SpareSheet`).

## Model

| member | source | states |
|---|---|---|
| Text.SplitFields | src/smhi/XMLParse.java:232 | the Java split with `;`: no field contains `;`, and there are no fields exactly when the line is non-empty and nothing but `;` |
| Text.AllPiecesEmpty | src/smhi/XMLParse.java:232 | every piece of a split (empty pieces kept) is empty exactly when the line is nothing but delimiters |
| Text.SplitJoin | src/smhi/XMLParse.java:232 | splitting the `;`-joined fields of a line gives the fields back |
| Text.JoinSplit | src/smhi/XMLParse.java:232 | joining the pieces of a split with `;` gives the line back |
| Text.SplitFieldsKeepsLine | src/smhi/XMLParse.java:232 | the Java split (trailing empty fields dropped) loses nothing from a line that does not end with `;`; it has at least one field |
| Text.LessTotal | src/smhi/XMLParse.java:279 | the key order used by the sorted sets is total on distinct strings |
| Text.LessTransitive | src/smhi/XMLParse.java:279 | the key order is transitive |
| Text.LessIrreflexive | src/smhi/XMLParse.java:279 | no key sorts before itself |
| Text.LessAsymmetric | src/smhi/XMLParse.java:279 | two keys never sort before each other |
| SortedKeys.Insert | src/smhi/XMLParse.java:283-291 | adding a key to the sorted set keeps it sorted and duplicate-free and adds exactly that key; adding a present key changes nothing |
| SortedKeys.SortedDistinct | src/smhi/XMLParse.java:269 | a sorted key sequence is as long as its key set, so the station count is the number of sorted station keys |
| SortedKeys.SortedUnique | src/smhi/XMLParse.java:278-291 | a key set has exactly one ascending order: two sorted sequences with the same keys are equal |
| Ingestion.FindMarker | src/smhi/XMLParse.java:224-228 | finds the first line at or after line 2 that starts with "Från Datum Tid"; there is none exactly when no such line exists |
| Ingestion.TableLength | src/smhi/XMLParse.java:230-237 | the data table runs up to the first record with fewer than two fields, or to the end of the input |
| Ingestion.ReadTable | src/smhi/XMLParse.java:230-247 | reading the split data lines succeeds exactly when every table record has at least four fields and a parsable field 3; it then yields one (field 2, parsed field 3) observation per table record, in order; failures are short records or bad readings only |
| Ingestion.Ingest | src/smhi/XMLParse.java:221-247 | an export with fewer than two lines fails as a missing line; a station line of no fields fails; an export without a marker line after the preamble fails as a missing marker, each exactly in those cases |
| Ingestion.PreambleIgnored | src/smhi/XMLParse.java:221-228 | the caption, the station line and the lines before the marker do not affect the observations: reading the export equals reading the split lines after the marker |
| Ingestion.TableEndsAtShortLine | src/smhi/XMLParse.java:235-237 | nothing after the first record with fewer than two fields is read |
| ObservationMatrix.Record | src/smhi/XMLParse.java:238-246 | an insertion sets the pair's reading, leaves every other pair as it was, adds the date key, and keeps every date non-empty |
| ObservationMatrix.RecordStations | src/smhi/XMLParse.java:238-246 | an insertion adds exactly its station to the set of stations with readings |
| ObservationMatrix.Apply | src/smhi/XMLParse.java:238-246 | after a sequence of insertions the date keys are the old ones plus the inserted dates |
| ObservationMatrix.ApplyWellFormed | src/smhi/XMLParse.java:238-246 | insertions never leave a date key without a reading |
| ObservationMatrix.ApplyStations | src/smhi/XMLParse.java:265-268 | the stations with readings after a sequence of insertions are the old ones plus the inserted stations |
| ObservationMatrix.RecordOverwrites | src/smhi/XMLParse.java:244-245 | inserting the same pair twice equals inserting only the second reading |
| ObservationMatrix.RecordCommutes | src/smhi/XMLParse.java:238-246 | insertions for different pairs commute |
| ObservationMatrix.ApplyUntouched | src/smhi/XMLParse.java:238-246 | a pair that no insertion names keeps its reading or its absence |
| ObservationMatrix.ApplyLastWins | src/smhi/XMLParse.java:244-246 | a pair holds the reading of the last insertion that names it |
| ObservationMatrix.ApplyHasReading | src/smhi/XMLParse.java:238-246 | a pair has a reading after a sequence of insertions exactly when it had one before or some insertion names it |
| ObservationMatrix.ApplyValueSource | src/smhi/XMLParse.java:238-246 | every reading after a sequence of insertions was there before or was put by one of the insertions |
| ObservationMatrix.LastWrite | src/smhi/XMLParse.java:244-246 | the reading of the last insertion naming a pair: some insertion carries it and none after it names the pair; no reading exactly when no insertion names it |
| ObservationMatrix.ApplyLast | src/smhi/XMLParse.java:238-246 | after any sequence of insertions a pair holds the last reading written to it, or its old value when none was |
| ObservationMatrix.LastWriteConcat | src/smhi/XMLParse.java:244-246 | of two runs of insertions, the later run's last write to a pair wins over the earlier's |
| ObservationMatrix.NoStationsNoDates | src/smhi/XMLParse.java:238-240 | in a matrix built by insertions there are stations exactly when there are dates |
| ObservationMatrix.SameReadings | src/smhi/XMLParse.java:173 | two matrices with the same dates and the same readings per pair are equal |
| Harvesting.TagExact | src/smhi/XMLParse.java:244-245 | tagging a period's observations with the station keeps every observation and adds nothing |
| Harvesting.PeriodInsertions | src/smhi/XMLParse.java:213-220 | a period that is not "corrected-archive" contributes nothing; otherwise it fails with its export's error, or contributes exactly that export's observations tagged with the station |
| Harvesting.FeedInsertions | src/smhi/XMLParse.java:213-248 | one station's periods yield insertions exactly when every "corrected-archive" export of the station reads; they are then exactly the observations of those exports, tagged with the station |
| Harvesting.HarvestInsertions | src/smhi/XMLParse.java:203-250 | all stations yield insertions exactly when every qualifying export of every station reads; they are then exactly the observations some station's qualifying exports yield, tagged with that station, so they name only input stations |
| Harvesting.HarvestContents | src/smhi/XMLParse.java:238-246 | inserting exactly what the exports yield gives a matrix in which a pair has a reading exactly when some export of the station yields an observation for the date, and the reading is one of those |
| Harvesting.Harvest | src/smhi/XMLParse.java:173-250 | the matrix is built exactly when every qualifying export reads; a (date, station) pair has a reading exactly when some qualifying export of that station has a record for the date, and the reading held is one of that station's readings for the date; every date has a reading and every station is an input station |
| Harvesting.LastIn | src/smhi/XMLParse.java:230-246 | the reading of the last record of an export for a date: some record carries it and no later record has that date; none exactly when no record has the date |
| Harvesting.LastPresent | src/smhi/XMLParse.java:203-246 | the last present entry of a sequence of optional readings: every later entry is absent; none exactly when all are absent |
| Harvesting.LastInPeriods | src/smhi/XMLParse.java:213-246 | the reading for a date of the last period of a station whose qualifying, readable export has one; no later period has one |
| Harvesting.LastInFeeds | src/smhi/XMLParse.java:203-246 | the reading for a (date, station) pair of the last feed of that station whose periods have one; no later feed of the station has one |
| Harvesting.TagLast | src/smhi/XMLParse.java:244-246 | the last write of an export's tagged insertions is its last record for the date, for the tagged station only |
| Harvesting.FeedLast | src/smhi/XMLParse.java:213-246 | the last write of a station's insertions is the reading of its last period that has one |
| Harvesting.HarvestLast | src/smhi/XMLParse.java:203-246 | the last write of all insertions of a run is the reading of the last feed of the station that has one |
| Harvesting.HarvestLastWins | src/smhi/XMLParse.java:203-246 | last report wins: the matrix holds, for every pair, the reading of the last record for the date in the last qualifying period of the last feed of the station that reports it, and nothing when none does |
| Harvesting.FeedIgnoresOtherPeriods | src/smhi/XMLParse.java:213-215 | removing a station's periods that are not "corrected-archive" leaves its insertions unchanged |
| Harvesting.OnlyCorrectedArchiveCounts | src/smhi/XMLParse.java:203-215 | removing every period that is not "corrected-archive", whatever its export holds, leaves the insertions and the matrix of the run unchanged |
| KeyOrder.SortDates | src/smhi/XMLParse.java:278-279 | the date keys come out strictly ascending and are exactly the matrix's dates |
| KeyOrder.SortStations | src/smhi/XMLParse.java:281-291 | the merged station keys come out strictly ascending and are exactly the stations with a reading |
| Layout.SheetCount | src/smhi/XMLParse.java:270-274 | the sheets allocated are the fewest (at least one) whose capacity at 195 stations a sheet exceeds the station count |
| Layout.ColumnInRange | src/smhi/XMLParse.java:303 | a station column is never column 0 (the date column) and never beyond column 200 |
| Layout.AddressRoundTrip | src/smhi/XMLParse.java:299-303 | reading back the station at a station's (sheet, column) address gives the station's position |
| Layout.AddressInverse | src/smhi/XMLParse.java:299-303 | every station column 1..200 of every sheet is the address of exactly one position |
| Layout.AddressInjective | src/smhi/XMLParse.java:299-303 | no two stations share a sheet and column |
| Layout.SheetsUsedIsCeiling | src/smhi/XMLParse.java:299-302 | the sheets the stations reach are the ceiling of the station count over 200, and at least one |
| Layout.SheetsUsedMonotone | src/smhi/XMLParse.java:299-302 | more stations never reach fewer sheets |
| Layout.SheetCountCovers | src/smhi/XMLParse.java:269-277 | the allocated `S / 195 + 1` sheets cover every sheet the stations reach |
| Layout.SheetInBounds | src/smhi/XMLParse.java:270-274 | no station is addressed to a sheet outside the allocated array |
| Layout.AddressStep | src/smhi/XMLParse.java:314-318 | the next station moves to column 1 of the next sheet after a full sheet, else to the next column of the same sheet |
| Layout.SpareSheet | src/smhi/XMLParse.java:270-277 | more sheets are allocated than the stations reach exactly when 195k ≤ S ≤ 200k for some k ≥ 1 |
| Workbook.NewBook | src/smhi/XMLParse.java:274-277 | a new workbook has the requested number of sheets and no rows |
| Workbook.CreateRow | src/smhi/XMLParse.java:297 | creating a row leaves an empty row there, replacing any earlier one, and changes nothing else |
| Workbook.SetCell | src/smhi/XMLParse.java:303 | writing a cell sets that cell only, and creates or removes no row |
| Emission.HeaderPass | src/smhi/XMLParse.java:295-304 | row 0 of every sheet the stations reach holds each station key at its Layout address and nothing else; all other rows and sheets are untouched |
| Emission.DateRow | src/smhi/XMLParse.java:307-327 | a date's row on every reached sheet holds the date in column 0 and each present reading at its station's address; a station without a reading leaves its cell unwritten; nothing else changes |
| Emission.DataPass | src/smhi/XMLParse.java:306-328 | the date at sorted position j fills row j + 1 on every reached sheet; row 0 and all other rows are untouched |
| Emission.Export | src/smhi/XMLParse.java:263-328 | the export allocates `S / 195 + 1` sheets; rows exist exactly for row 0 and the date rows on the reached sheets; every header and data cell is as Layout and the matrix dictate |
| Emission.Aligned | src/smhi/XMLParse.java:299-325 | the header key above a column and the readings below it belong to the same station: the cell at (date row, station column) is the matrix value for that pair, unwritten when absent |
| Emission.Deterministic | src/smhi/XMLParse.java:278-291 | any two exports of the same matrix give the same workbook, whatever order the hash maps yield their keys in |
| Emission.EmptyExport | src/smhi/XMLParse.java:263-304 | an empty matrix exports to one sheet holding only an empty row 0 |
| Emission.HeaderCellStep | src/smhi/XMLParse.java:303 | writing station i into the header fills exactly its own address |
| Emission.DataCellStep | src/smhi/XMLParse.java:320-325 | visiting station i in a date row fills at most its own address |
| Pipeline.Run | src/smhi/XMLParse.java:171-328 | a run fails exactly when harvesting fails, with the same error; otherwise its workbook is the export of the harvested matrix over its sorted dates and stations, and every exported station is an input station |

## Left out

- Catalog discovery over the network (`XMLParse.java:42-169`, `187-209`).
  This means the XML parameter and station catalogs and the URL building and
  downloads. The model takes each station's identifier and period list, and
  each period's CSV lines, as input.
- The console prompts for the parameter key and the number of stations
  (lines 178-201). The prefix of stations taken is the input itself.
- The checked exceptions caught at lines 251-259. After an `IOException` the
  Java program exports whatever the matrix holds at that point. No I/O
  happens in the model, so this path does not exist in it.
- Writing the workbook to `smhi_workbook.xls` (lines 331-341). Also left
  out: the failure message when that file is locked, and the sheet names
  "Min temp #n" (line 276). The model's result is the workbook value.
- Console output (lines 223, 272-273, 293). It has no effect on the result.
- Floating point: readings are `real`. Which strings parse, and to which
  values, is the `parse` parameter.
- `Scanner` line splitting. The CSV export is given already split into lines.
- `Text.Less`: compares strings character by character (code points). Java's
  `String.compareTo` compares UTF-16 units. The two orders differ only for
  characters outside the Basic Multilingual Plane, which station keys and
  ISO dates do not contain.
- `Ingestion.Ingest`: an export of exactly two lines fails as `MissingMarker`,
  not as a missing third line. In Java both end the run the same way.
- `Harvesting.Harvest`: its contract does not say which error a failed run
  reports. The body returns the first failing export in station and period
  order, and `Pipeline.Run` passes that error on unchanged.
- `Pipeline.Run`: does not model the limits of the `.xls` format that
  `HSSFWorkbook` (line 263) enforces. A sheet takes row indices up to 65,535.
  With 65,536 dates or more, `createRow` at lines 310 and 316 throws an
  uncaught `IllegalArgumentException` and no file is written, whereas the
  model returns a workbook. The 256-column limit is never reached, since
  station columns stop at 200.
- The concrete error of a failed `Double.valueOf` or array index is
  abstracted to `BadReading` or `ShortRecord`, which carry the offending
  reading text or the fields of the offending line.
