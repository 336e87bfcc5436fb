# NYCSBusApp table pipeline, modelled in Dafny

NYCSBusApp collects telemetry for New York City school buses. It takes Geotab
metric exports (engine RPM), battery-voltage exports and bus-breakdown exports,
which are stored as CSV files on a shared Google Drive. It normalises them, joins
them with the table that maps each Geotab device to a bus number, and publishes
"view" CSV files that a Streamlit dashboard reads back and charts.

This project models the table logic of that pipeline and proves what it does:

- **Device-id extraction.** `get_id_from_json` is modelled over a real model of
  Python's `json.loads`.
- **Chunk normalisation.**
  - Metrics: the `format_metric_df` loop, written as a method with its invariant.
  - Breakdowns: `parse_breakdown_data` and `format_breakdown_df`.
  - Battery: `format_battery_df`.
- **Views.** The inner joins with the Geotab mapping.
- **Publishing.**
  - The merge of a new table into the published view: concatenate, stable sort on
    (timestamp, Bus #), drop duplicates keeping the first.
  - The snapshot-if-changed rule.
  - The uploads, recorded as effects on a `DriveService` object.
- **Helpers.** `chunk_list` and the id listing.
- **Dashboard table shaping.** Cutting the UTC offset, the breakdown timeline,
  the per-bus counts, the per-bus chart rows, and the read options.

Modules, one per file:

- `common.dfy`: `Option`, `Result`, the error kinds, concatenation of frames,
  and first-failure-wins processing of a sequence.
- `tables.dfy`: the pandas frame operations as sequence functions.
  - keep-first `drop_duplicates` → `Dedup`;
  - stable `sort_values` → `SortBy`;
  - concat + sort + dedup → `Merge`;
  - inner `merge` → `Join`;
  - column selection → `Project`;
  - `loc` masks → `Filter`.
- `pyjson.dfy`: `json.loads` on a `str`.
- `drive.dfy`: folder listings and uploads (create or update).
- `utilities.dfy`: `data/utilities.py` and the `get_id_from_json` copies.
- `timestamps.dfy`: timestamp columns. Parsing, localising and formatting are
  functions passed in as a `TimeLib`. `tz_convert` is concrete.
- `publish.dfy`: the Geotab mapping, the CSV text `to_csv(index=False)` writes,
  and snapshot names.
- `metrics.dfy`, `breakdown.dfy`, `battery.dfy`: the three transformation modules
  under `data/`.
- `dashboard.dfy`: `streamlit_utilities.py`.

Inputs that come from outside the core are parameters:

- the Drive downloads: the fetched view, each raw file, the folder listing, the
  Geotab mapping after its rename (data/reference_data.py:27-28);
- the clock string used in snapshot names;
- the timestamp library (`pd.to_datetime`, pytz localisation, `astype(str)`,
  `strftime`).

The model follows the code as written, including where it does less than its
docstrings suggest:

- An empty raw folder makes `pd.concat` raise ("No objects to concatenate"); the
  run does not carry on with an empty table.
- The battery raw table is not deduplicated across files.
- File ids come in listing order, with no filtering.
- `upload_metrics_view_data` publishes the table it fetched, not the merged one
  (see Findings).

## Model

| member | source | states |
|---|---|---|
| Utilities.ReplaceQuotes | data/metrics_transformation.py:26 | every `'` of the cell becomes `"` and every other character stays, so the length is kept |
| Utilities.IdRoundTrip | data/metrics_transformation.py:14-32 | a cell `{'id':'S'}`, where S has no quote, backslash or control character, gives back S |
| Utilities.MissingIdKept | data/metrics_transformation.py:28-32 | a well-formed one-member object whose key is not "id" makes the lookup raise, and the cell is returned unchanged |
| Utilities.NonObjectKept | data/utilities.py:70-77 | a cell with no `{` never decodes to an object, so the cell itself is returned |
| Utilities.MalformedKept | data/utilities.py:70-77 | malformed JSON such as `{'id':}`, a member with no value under any plain key, is caught and the cell is returned unchanged |
| Utilities.OneMemberLoads | data/utilities.py:71 | after quote replacement, `json.loads` of a one-member cell is exactly the object with that key and string |
| PyJson.LookupFacts | data/utilities.py:72 | `dict_data["id"]` finds a value iff some member has the key, and the value is that of the last such member |
| PyJson.LoadsValue | data/utilities.py:71 | `json.loads` yields a value when the text is that value with only whitespace around it |
| PyJson.LoadsObject | data/utilities.py:71 | text that decodes to an object starts, after whitespace, with `{` |
| Utilities.ChunkList | data/utilities.py:26-37 | a zero step fails (ValueError), a negative step gives no chunks, and a positive step gives the chunking |
| Utilities.ChunksFlatten | data/utilities.py:37 | concatenating the chunks gives back the list exactly |
| Utilities.ChunkLengths | data/utilities.py:37 | every chunk but the last has n items; the last has 1 to n; there are no chunks iff the list is empty |
| Utilities.ChunkAt | data/utilities.py:37 | chunk k exists iff k·n < len, and it is the slice [k·n, min(k·n+n, len)) |
| Utilities.ChunksAreSlices | data/utilities.py:37 | the ChunkAt facts for every k at once |
| Utilities.GetRawDataFileIds | data/utilities.py:13-23 | a failed listing (None, turned into `[]`) gives no ids; otherwise one id per entry, in listing order |
| Utilities.Ids | data/utilities.py:88-92 | the id of each listed entry, in order, with nothing filtered, sorted or removed |
| Drive.WriteFor | connnections/google_drive.py:146-185 | an upload with an empty file id creates a file with that name in that folder; otherwise it updates that file; either way it carries the content |
| Drive.DriveService.UploadFile | connnections/google_drive.py:146-185 | each upload appends exactly its effect to the log of writes |
| Timestamps.ParseColumn | data/battery_data_transformation.py:69-71 | `pd.to_datetime` of a column succeeds iff every value parses, and then yields each value's parse in order |
| Timestamps.StrictParseWins | data/metrics_transformation.py:72-80 | when every value matches the strict format, the strict parse is the result |
| Timestamps.MixedParseFallback | data/metrics_transformation.py:72-80 | when one value fails the strict format, success and the values are exactly those of the mixed parse |
| Timestamps.ConvertColumn | data/metrics_transformation.py:82-84 | `tz_convert` fails iff some value is naive; otherwise each value keeps its instant and takes the new zone |
| Timestamps.ConvertTwice | data/breakdown_transformation.py:69-71 | converting twice equals converting once to the last zone |
| Timestamps.AsTypeZone | data/breakdown_transformation.py:57-68 | the cast to a zoned dtype succeeds iff every value can be cast; a zoned value keeps its instant; every result is in the target zone |
| Publish.CsvAppend | data/metrics_transformation.py:156 | each further row adds exactly its own newline-terminated line at the end of the CSV text |
| Publish.BeforeFirst | data/breakdown_transformation.py:139 | `split(".csv")[0]` is the longest prefix with no earlier ".csv": either the whole name, or the text up to the first ".csv" |
| Publish.SnapshotOfCsvName | data/breakdown_transformation.py:138-141 | the snapshot of `stem.csv`, where stem has no dot, is named `stem_<clock>.csv` |
| Metrics.ProcessMetricChunkFacts | data/metrics_transformation.py:67-87 | an empty chunk passes as it is. Otherwise the chunk succeeds iff the strict-then-mixed parse succeeds with only zoned values. Each row then keeps its data, takes `get_id_from_json` of its device, and renders its parsed time and the same instant in US/Eastern |
| Metrics.FormatMetricDf | data/metrics_transformation.py:55-88 | the loop's result equals the recursive reading of `format_metric_df` (loop invariant over the remaining chunks) |
| Metrics.MetricsLastChunkOnly | data/metrics_transformation.py:65-88 | once earlier chunks process without raising, they have no effect; the result is the last chunk processed and deduplicated |
| Metrics.MetricsEmpty | data/metrics_transformation.py:65-67 | no chunks, or an empty last chunk, give the empty table |
| Metrics.MetricsFirstFailure | data/metrics_transformation.py:66-84 | the first chunk that raises decides the outcome |
| Metrics.MetricViewMembers | data/metrics_transformation.py:100-104 | a view row appears iff some metric row and some mapping row agree on the device; unmapped devices vanish |
| Metrics.MetricViewRowByRow | data/metrics_transformation.py:100-104 | the view of concatenated rows is the concatenation of the views (no deduplication) |
| Metrics.MetricsPublishEffects | data/metrics_transformation.py:132-166 | two uploads iff merged differs from current. The first is a new snapshot of the merged table named after the file and clock. The last always updates the view with the current table |
| Metrics.UploadMetricsViewData | data/metrics_transformation.py:107-166 | the drive log grows by exactly MetricsPublishEffects |
| Metrics.MetricsFinalIgnoresNew | data/metrics_transformation.py:160-166 | the final upload is the same whatever the new rows are |
| Metrics.MetricsNeverSettles | data/metrics_transformation.py:138-166 | one new row onto an empty view: a snapshot is taken, yet the view is republished empty, without the row |
| Metrics.IntendedMetricsPublishEffects | data/metrics_transformation.py:107-116 | the documented behaviour: a snapshot iff the merged table differs, and the final upload carries the merged table |
| Metrics.IntendedMetricsSettle | data/metrics_transformation.py:107-116 | with the merged table published, publishing the same rows again takes no snapshot and republishes the same table |
| Metrics.EarlierChunkLost | data/metrics_transformation.py:65-88 | two one-row chunks, whatever their device and timestamp: the loop as written returns only the second chunk's row, while the documented table keeps both |
| Metrics.IntendedMetricsKeepsAll | data/metrics_transformation.py:55-64 | the documented table holds every processed row of every chunk, once |
| Breakdown.EasternTimes | data/breakdown_transformation.py:57-68 | on success every estReportedAt is in US/Eastern, one per row |
| Breakdown.EasternStrictFirst | data/breakdown_transformation.py:57-62 | when the strict format parses every value, the mixed parser is not consulted |
| Breakdown.ParseBreakdownData | data/breakdown_transformation.py:53-79 | success iff the Eastern parse succeeds. Rows keep geotab and description. estReportedAt is formatted `%Y-%m-%d %H:%M:%S%z`. reportedAt is the same instant in UTC, formatted the same way |
| Breakdown.FormatBreakdownRows | data/breakdown_transformation.py:44-50 | when every chunk parses, a row is in the result iff some chunk parses to it, and it is there once |
| Breakdown.FormatBreakdownFirstFailure | data/breakdown_transformation.py:44-49 | the first chunk that fails decides the error |
| Breakdown.BreakdownViewMembers | data/breakdown_transformation.py:92-98 | view rows are duplicate-free. A view row appears iff some row and some mapping row agree on geotab = Geotab Device |
| Breakdown.DropNonAsciiFacts | data/breakdown_transformation.py:135 | `encode("ascii", "ignore")` keeps exactly the ASCII characters, and leaves ASCII text unchanged |
| Breakdown.StripLeftFacts | data/breakdown_transformation.py:135 | the leading part of `strip()`: the result is a suffix, everything cut is a blank, and it does not start with a blank |
| Breakdown.StripRightFacts | data/breakdown_transformation.py:135 | the trailing part of `strip()`: the result is a prefix, everything cut is a blank, and it does not end with a blank |
| Breakdown.AsciiStripClean | data/breakdown_transformation.py:134-136 | the text sent is ASCII with no blank at either end, and cleaning it again changes nothing |
| Breakdown.BreakdownPublishEffects | data/breakdown_transformation.py:121-165 | two uploads iff merged differs from current. The snapshot goes to the breakdown snapshot folder. The last upload always carries the merged table as cleaned CSV |
| Breakdown.UploadBreakdownViewData | data/breakdown_transformation.py:101-165 | the drive log grows by exactly BreakdownPublishEffects |
| Breakdown.BreakdownKnownRowsNoSnapshot | data/breakdown_transformation.py:121-128 | new rows already in a sorted, duplicate-free view cause no snapshot, and the view is republished unchanged |
| Breakdown.BreakdownSettles | data/breakdown_transformation.py:121-165 | when the view read back equals the rows last merged, publishing the same rows again takes no snapshot |
| Breakdown.PayloadDropsNonAscii | data/breakdown_transformation.py:134-136 | a character outside ASCII is absent from the published text, so a view whose CSV holds one is published as different text |
| Battery.FormatBatteryDfFacts | data/battery_data_transformation.py:52-73 | an empty frame is returned as it is. Otherwise one unparseable dateTime fails the frame, and a naive one fails `tz_convert`. On success the row count and order are kept; device and diagnostic become their ids; other columns are untouched; estDateTime is the same instant in US/Eastern |
| Battery.GenerateDataframeForBatteryRawData | data/battery_data_transformation.py:16-31 | with no file ids the concatenation raises |
| Battery.BatteryRawRows | data/battery_data_transformation.py:23-30 | when every file loads, the result is the formatted files concatenated in listing order; a row is there iff some file yields it |
| Battery.BatteryFirstFailure | data/battery_data_transformation.py:25-30 | the first file, in listing order, that fails to load decides the error |
| Battery.BatteryFetchFailure | data/battery_data_transformation.py:27 | a file whose download fails stops the run with that file's id |
| Battery.BatteryViewMembers | data/battery_data_transformation.py:43-49 | a view row appears iff some row and some mapping row agree on the device |
| Battery.BatteryViewRowByRow | data/battery_data_transformation.py:43-49 | the view of concatenated rows is the concatenation of the views (no deduplication) |
| Battery.UploadBatteryViewData | data/battery_data_transformation.py:77-88 | when the raw table fails, nothing is written. Otherwise exactly one write of the fresh view to `battery_view_data.csv`: no merge, no snapshot |
| Dashboard.StripTz | streamlit_utilities.py:33 | the result is a prefix of the value. With no `-` it is the whole value. Otherwise a `-` follows it and no `-` comes after that one |
| Dashboard.StripTzRebuilds | streamlit_utilities.py:33 | the kept part, the `-`, and the cut part rebuild the value |
| Dashboard.StripTzColumn | streamlit_utilities.py:33 | the column keeps its length; missing cells stay missing; present ones become prefixes of themselves; values with no `-` are unchanged |
| Dashboard.Frame.RemoveEstTzInfo | streamlit_utilities.py:22-35 | only the named column changes, to its cut values; Bus # becomes categorical with its values kept |
| Dashboard.ReadCsvKwargs | streamlit_utilities.py:54-77 | four distinct keys. dtype, usecols and dtype_backend "pyarrow" are kept. "nrows" comes first for a row count, and "chunksize" 2000 otherwise |
| Dashboard.GetRpmReadKwargs | streamlit_utilities.py:54-77 | the RPM read options, with the int16 data dtype |
| Dashboard.GetBatteryReadKwargs | streamlit_utilities.py:117-140 | the battery read options, with the float32 data dtype |
| Dashboard.GetBreakdownData | streamlit_utilities.py:164-168 | the same rows, duplicate-free, in the order of their first occurrence |
| Dashboard.TimelineMembers | streamlit_utilities.py:171-176 | a timeline row appears iff some view row gives it (Bus #, cut estReportedAt) |
| Dashboard.TimelineIgnoresRepeats | streamlit_utilities.py:171-176 | the timeline equals deduplicating the projected view once; the first duplicate removal is redundant |
| Dashboard.Buses | streamlit_utilities.py:182 | the groups are the distinct non-null Bus # values, strictly ascending |
| Dashboard.CountByBusOrder | streamlit_utilities.py:179-185 | one row per bus, ascending; Breakdowns is that bus's count of timeline rows with a Reported At |
| Dashboard.CountByBusGroups | streamlit_utilities.py:179-185 | a bus has a row iff some view row names it |
| Dashboard.CountsAddUp | streamlit_utilities.py:181-184 | the Breakdowns add up to the timeline rows that have both a Bus # and a Reported At |
| Dashboard.ChartKeepsOrder | streamlit_utilities.py:190 | the per-bus selection works row by row, so timeline order is kept |
| Dashboard.ChartMatchesCount | streamlit_utilities.py:188-192 | the chart rows of a bus that have a Reported At are exactly as many as its Breakdowns |
| Tables.Dedup | data/metrics_transformation.py:88 | `drop_duplicates`: the same set of rows, with no duplicates |
| Tables.DedupOrder | data/breakdown_transformation.py:50 | rows are kept in the order of their first occurrences |
| Tables.DedupUnique | data/breakdown_transformation.py:50 | the keep-first result is the only duplicate-free, first-occurrence-ordered table of those rows |
| Tables.SortBy | data/metrics_transformation.py:134 | the result is a permutation of the input, sorted by the key |
| Tables.MergeContents | data/metrics_transformation.py:132-137 | every distinct row of either table appears exactly once, in sorted order |
| Tables.MergeOfKnownRows | data/breakdown_transformation.py:121-126 | merging rows already in a sorted, duplicate-free table returns the table unchanged |
| Tables.JoinHas | data/metrics_transformation.py:101-103 | a pair is in the inner join iff both rows are present and their keys are equal |
| Tables.JoinCount | data/battery_data_transformation.py:44-46 | a pair with equal keys occurs (copies of its left row) × (copies of its right row) times; any other pair never occurs |
| Tables.Filter | streamlit_utilities.py:190 | `loc` with a mask keeps exactly the rows that satisfy it |

## Left out

- Floating point: `astype(float)` of `data` (data/metrics_transformation.py:69, data/battery_data_transformation.py:63) and `_downcast_data` are not modelled. Values stay as their text, and a non-numeric cell that would make the cast raise is not an error in the model.
- NaN cells in the transformation tables: every cell there is a string. Only the dashboard tables carry missing cells (`Cell = Option<string>`).
- Drive I/O, OAuth, HttpError handling, paging of listings, `mimetype`, and the return value of `upload_file` are left out. Fetched tables, listings and the Geotab mapping are parameters.
- The call shapes that do not match the helpers they call are left out. These are the `drive_service` arguments to `get_csv_from_drive_as_dataframe` and `get_raw_data_file_ids`, and the misspelled dtype `"sring[pyarrow]"` at data/breakdown_transformation.py:118. The model starts from the tables those calls are meant to return.
- The `Random` sampling branch, `get_random_sample_of_chunks` and Streamlit caching are left out: they are randomness and framework behaviour.
- Calendar, daylight-saving and format rules of `pd.to_datetime`, pytz and `strftime` are functions of a `TimeLib` parameter. A column that mixes offsets or mixes naive and aware values is not modelled beyond "a naive value makes `tz_convert` fail".
- `DataFrame.equals` is modelled as equality of row sequences. Its sensitivity to dtypes and to the index is left out.
- pandas' multi-column `sort_values` is modelled as a stable sort.
- The column set of an empty frame is left out: an empty result is the empty row sequence.
- Column dtype inference when the dashboard reads a view is left out. Bus # is read as text.
- `json.loads` limits are left out: recursion depth, the int digit limit, and lone surrogate escapes (a Dafny `char` cannot hold one, so the model rejects them).
- Battery.FormatBatteryDfFacts: the frame is modified in place and also returned. The model returns a new table, so aliasing of the caller's frame is not captured.
- Battery.GenerateDataframeForBatteryRawData: its contract states only the empty-listing case. The rows and the first-failure rule are stated by BatteryRawRows and BatteryFirstFailure.
- Breakdown.BreakdownSettles: the view read back on the next run is taken to be the merged rows themselves. The text actually published is `encode("ascii", "ignore").strip()` of their CSV, so a row holding a character outside ASCII, or a last field ending in blanks, reads back changed (PayloadDropsNonAscii). Such a view never settles: every run takes a snapshot and merges in rows that match once cleaned.
- The `print` diagnostics of `get_id_from_json` (data/metrics_transformation.py:29-31, data/utilities.py:74-76) and of `upload_breakdown_view_data` (data/breakdown_transformation.py:142-149) are console output only and are not modelled.
- The rest of `get_rpm_data` and `get_battery_data` is not modelled: the reading itself, the concatenation and `_downcast_data`. Only the assembly of the read options is.
- The pages, charts, statistics, orchestration (`main.py`, `data/metric_generation_upload.py`) and the commented-out `data/rpm_data_transformation.py` are not part of this model.

## Findings

| source | as written | input that shows it | evidently intended | confidence | as-written member | corrected member |
|---|---|---|---|---|---|---|
| data/metrics_transformation.py:164 | the final upload sends `current_view_metrics_df`, the table that was fetched | an empty published view and one new row: a snapshot is taken, the view is republished empty, and every later run snapshots again | publish the merged table, as the docstring says and as `upload_breakdown_view_data` does | not executed; high | Metrics.MetricsNeverSettles | Metrics.IntendedMetricsSettle |
| data/metrics_transformation.py:66 | the loop variable `metrics_raw_df` is rebound to each chunk, so only the last chunk is returned | two one-row chunks that both parse: only the second chunk's row comes back | concatenate every processed chunk, then drop duplicates | not executed; high | Metrics.EarlierChunkLost | Metrics.IntendedMetricsKeepsAll |
