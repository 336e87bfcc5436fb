/**
 * `data/metrics_transformation.py`: normalising the chunks of a raw metric
 * export, joining them with the Geotab mapping, and publishing the metric
 * view with a snapshot whenever it changes.
 */
module Metrics {
  import opened Common
  import opened PyJson
  import opened Tables
  import opened Timestamps
  import opened Publish
  import opened Drive
  import opened Utilities

  /** A row of a raw metric chunk, reduced to the three columns the code selects. */
  datatype MetricRecord = MetricRecord(data: string, device: string, dateTime: string)

  /** A normalised metric row: columns data, device, dateTime, estDateTime. */
  datatype MetricRow = MetricRow(data: string, device: Json, dateTime: string, estDateTime: string)

  const METRIC_FORMAT: string := "%Y-%m-%d %H:%M:%S.%f%z"

  function DateTimeOf(r: MetricRecord): string { r.dateTime }

  /** The rows of a chunk once every timestamp is parsed (utc) and converted to Eastern (est). */
  function MetricRows(chunk: seq<MetricRecord>, utc: seq<Stamp>, est: seq<Stamp>, lib: TimeLib): (rows: seq<MetricRow>)
    requires |utc| == |chunk| && |est| == |chunk|
    ensures |rows| == |chunk|
    ensures forall k :: 0 <= k < |chunk| ==>
      rows[k] == MetricRow(chunk[k].data, GetIdFromJson(chunk[k].device), lib.render(utc[k]), lib.render(est[k]))
  {
    if |chunk| == 0 then []
    else
      [MetricRow(chunk[0].data, GetIdFromJson(chunk[0].device), lib.render(utc[0]), lib.render(est[0]))]
      + MetricRows(chunk[1..], utc[1..], est[1..], lib)
  }

  /**
   * The body of the loop in `format_metric_df` for one chunk. An empty chunk
   * is taken as it is. Otherwise each device cell becomes its id, the
   * timestamps are parsed with the strict format and, if that raises, with
   * the mixed parser, and estDateTime is the same instant in US/Eastern;
   * both are then rendered as text. A naive timestamp makes `tz_convert` raise.
   */
  function ProcessMetricChunk(chunk: seq<MetricRecord>, lib: TimeLib): Result<seq<MetricRow>> {
    if |chunk| == 0 then Success([])
    else
      var p := ParseStrictThenMixed(Project(chunk, DateTimeOf), METRIC_FORMAT, lib);
      if p.Failure? then Failure(p.error)
      else
        var utc := p.value;
        assert |utc| == |chunk| by {
          var texts := Project(chunk, DateTimeOf);
          var strict := (s: string) => lib.parseFormat(s, METRIC_FORMAT);
          assert ParseColumn(texts, strict).Some? ==> |ParseColumn(texts, strict).value| == |texts|;
          assert ParseColumn(texts, lib.parseMixed).Some? ==> |ParseColumn(texts, lib.parseMixed).value| == |texts|;
        }
        var c := ConvertColumn(utc, EASTERN);
        if c.Failure? then Failure(c.error)
        else Success(MetricRows(chunk, utc, c.value, lib))
  }

  /**
   * An empty chunk passes as it is. Otherwise the chunk succeeds iff its
   * timestamps parse (strictly, else mixed) to zoned values only, and then
   * row k carries the device id and both renderings of timestamp k.
   */
  lemma ProcessMetricChunkFacts(chunk: seq<MetricRecord>, lib: TimeLib)
    ensures |chunk| == 0 ==> ProcessMetricChunk(chunk, lib) == Success([])
    ensures |chunk| > 0 ==>
      var r := ProcessMetricChunk(chunk, lib);
      var p := ParseStrictThenMixed(Project(chunk, DateTimeOf), METRIC_FORMAT, lib);
      && (r.Success? <==> p.Success? && forall k :: 0 <= k < |p.value| ==> p.value[k].zone.Zoned?)
      && (r.Success? ==> |r.value| == |chunk| && forall k :: 0 <= k < |chunk| ==>
            r.value[k] == MetricRow(chunk[k].data, GetIdFromJson(chunk[k].device),
              lib.render(p.value[k]), lib.render(Stamp(p.value[k].instant, Zoned(EASTERN)))))
  {
    if |chunk| > 0 {
      var p := ParseStrictThenMixed(Project(chunk, DateTimeOf), METRIC_FORMAT, lib);
      if p.Success? {
        var c := ConvertColumn(p.value, EASTERN);
        assert c.Success? <==> forall k :: 0 <= k < |p.value| ==> p.value[k].zone.Zoned?;
      }
    }
  }

  /**
   * The loop of `format_metric_df` from a given point on: `last` is what the
   * loop variable holds, and each chunk replaces it. At the end the rows are
   * deduplicated.
   */
  function MetricsAfter(chunks: seq<seq<MetricRecord>>, last: seq<MetricRow>, lib: TimeLib): Result<seq<MetricRow>>
    decreases |chunks|
  {
    if |chunks| == 0 then Success(Dedup(last))
    else
      match ProcessMetricChunk(chunks[0], lib)
      case Failure(e) => Failure(e)
      case Success(rows) => MetricsAfter(chunks[1..], rows, lib)
  }

  /** What `format_metric_df` returns, starting from the empty `pd.DataFrame({})`. */
  function FormattedMetrics(chunks: seq<seq<MetricRecord>>, lib: TimeLib): Result<seq<MetricRow>> {
    MetricsAfter(chunks, [], lib)
  }

  /** `format_metric_df(chunks)`. */
  method FormatMetricDf(chunks: seq<seq<MetricRecord>>, lib: TimeLib) returns (r: Result<seq<MetricRow>>)
    ensures r == FormattedMetrics(chunks, lib)
  {
    var metricsRaw: seq<MetricRow> := [];
    var i := 0;
    while i < |chunks|
      invariant 0 <= i <= |chunks|
      invariant MetricsAfter(chunks[i..], metricsRaw, lib) == FormattedMetrics(chunks, lib)
    {
      assert chunks[i..][1..] == chunks[i + 1..];
      var processed := ProcessMetricChunk(chunks[i], lib);
      if processed.Failure? {
        return Failure(processed.error);
      }
      metricsRaw := processed.value;
      i := i + 1;
    }
    return Success(Dedup(metricsRaw));
  }

  predicate AllProcess(chunks: seq<seq<MetricRecord>>, lib: TimeLib) {
    forall k :: 0 <= k < |chunks| ==> ProcessMetricChunk(chunks[k], lib).Success?
  }

  /** Chunks that process without raising only move the loop variable along. */
  lemma {:induction false} MetricsSkip(a: seq<seq<MetricRecord>>, b: seq<seq<MetricRecord>>, last: seq<MetricRow>, lib: TimeLib)
    requires AllProcess(a, lib)
    ensures MetricsAfter(a + b, last, lib) ==
      MetricsAfter(b, if |a| == 0 then last else ProcessMetricChunk(a[|a| - 1], lib).value, lib)
    decreases |a|
  {
    if |a| > 0 {
      assert (a + b)[0] == a[0];
      assert (a + b)[1..] == a[1..] + b;
      MetricsSkip(a[1..], b, ProcessMetricChunk(a[0], lib).value, lib);
    } else {
      assert a + b == b;
    }
  }

  /**
   * Only the last chunk reaches the output: earlier chunks that process
   * without raising have no effect on the result.
   */
  lemma MetricsLastChunkOnly(earlier: seq<seq<MetricRecord>>, last: seq<MetricRecord>, lib: TimeLib)
    requires AllProcess(earlier, lib)
    ensures FormattedMetrics(earlier + [last], lib) == FormattedMetrics([last], lib)
    ensures FormattedMetrics([last], lib) ==
      match ProcessMetricChunk(last, lib)
      case Failure(e) => Failure(e)
      case Success(rows) => Success(Dedup(rows))
  {
    MetricsSkip(earlier, [last], [], lib);
    assert [last][1..] == [];
  }

  /** With no chunks, or an empty last chunk, the result is the empty table. */
  lemma MetricsEmpty(earlier: seq<seq<MetricRecord>>, lib: TimeLib)
    requires AllProcess(earlier, lib)
    ensures FormattedMetrics([], lib) == Success([])
    ensures FormattedMetrics(earlier + [[]], lib) == Success([])
  {
    MetricsLastChunkOnly(earlier, [], lib);
  }

  /** The first chunk that raises decides the outcome; later chunks are never read. */
  lemma MetricsFirstFailure(earlier: seq<seq<MetricRecord>>, bad: seq<MetricRecord>, later: seq<seq<MetricRecord>>, lib: TimeLib)
    requires AllProcess(earlier, lib) && ProcessMetricChunk(bad, lib).Failure?
    ensures FormattedMetrics(earlier + [bad] + later, lib) == Failure(ProcessMetricChunk(bad, lib).error)
  {
    assert earlier + [bad] + later == earlier + ([bad] + later);
    MetricsSkip(earlier, [bad] + later, [], lib);
    var last := if |earlier| == 0 then [] else ProcessMetricChunk(earlier[|earlier| - 1], lib).value;
    assert ([bad] + later)[0] == bad;
    assert MetricsAfter([bad] + later, last, lib) == Failure(ProcessMetricChunk(bad, lib).error);
  }

  // ---------------------------------------------------------------------
  // format_metric_df as its documentation describes it
  // ---------------------------------------------------------------------

  /**
   * Every chunk normalised and concatenated, then deduplicated: the table
   * the documentation of `format_metric_df` promises.
   */
  function IntendedMetrics(chunks: seq<seq<MetricRecord>>, lib: TimeLib): Result<seq<MetricRow>> {
    match ProcessAll(chunks, c => ProcessMetricChunk(c, lib))
    case Failure(e) => Failure(e)
    case Success(parts) => Success(Dedup(Flatten(parts)))
  }

  /** The intended table holds every normalised row of every chunk, once. */
  lemma IntendedMetricsKeepsAll(chunks: seq<seq<MetricRecord>>, lib: TimeLib, k: nat, row: MetricRow)
    requires AllProcess(chunks, lib)
    requires k < |chunks| && row in ProcessMetricChunk(chunks[k], lib).value
    ensures IntendedMetrics(chunks, lib).Success?
    ensures row in IntendedMetrics(chunks, lib).value
    ensures NoDups(IntendedMetrics(chunks, lib).value)
  {
    var process := c => ProcessMetricChunk(c, lib);
    assert forall j :: 0 <= j < |chunks| ==> process(chunks[j]).Success?;
    var parts := ProcessAll(chunks, process).value;
    assert parts[k] == ProcessMetricChunk(chunks[k], lib).value;
    FlattenHas(parts, row);
  }

  /** A time library under which every timestamp parses to the same zoned instant. */
  function ConstantClock(): TimeLib {
    TimeLib(
      (s, f) => Some(Stamp(0, Zoned(UTC))),
      s => Some(Stamp(0, Zoned(UTC))),
      (t: Stamp, z: string) => Some(t.instant),
      t => "t",
      (t, f) => "t")
  }

  /**
   * Two one-row chunks: the loop as written returns only the row of the
   * second chunk, while the intended table keeps both.
   */
  lemma EarlierChunkLost(device: string, dateTime: string)
    ensures var lib := ConstantClock();
      var first := [MetricRecord("1", device, dateTime)];
      var second := [MetricRecord("2", device, dateTime)];
      && FormattedMetrics([first, second], lib).Success?
      && (forall row :: row in FormattedMetrics([first, second], lib).value ==> row.data == "2")
      && IntendedMetrics([first, second], lib).Success?
      && (exists row :: row in IntendedMetrics([first, second], lib).value && row.data == "1")
  {
    var lib := ConstantClock();
    var first := [MetricRecord("1", device, dateTime)];
    var second := [MetricRecord("2", device, dateTime)];
    var row1 := OneRowChunk("1", device, dateTime);
    var row2 := OneRowChunk("2", device, dateTime);
    assert AllProcess([first, second], lib);
    MetricsLastChunkOnly([first], second, lib);
    assert [first] + [second] == [first, second];
    assert forall row :: row in Dedup([row2]) ==> row == row2;
    IntendedMetricsKeepsAll([first, second], lib, 0, row1);
  }

  /** Under the constant clock, a one-row chunk always processes to one row. */
  lemma OneRowChunk(data: string, device: string, dateTime: string) returns (row: MetricRow)
    ensures row.data == data
    ensures ProcessMetricChunk([MetricRecord(data, device, dateTime)], ConstantClock()) == Success([row])
  {
    var lib := ConstantClock();
    var chunk := [MetricRecord(data, device, dateTime)];
    var p := ParseStrictThenMixed(Project(chunk, DateTimeOf), METRIC_FORMAT, lib);
    StrictParseWins(Project(chunk, DateTimeOf), METRIC_FORMAT, lib);
    ProcessMetricChunkFacts(chunk, lib);
    assert p.Success? && |p.value| == 1 && p.value[0].zone.Zoned?;
    var r := ProcessMetricChunk(chunk, lib);
    assert r.Success? && |r.value| == 1;
    row := r.value[0];
    assert r.value == [row];
  }

  // ---------------------------------------------------------------------
  // generate_metric_view_data
  // ---------------------------------------------------------------------

  /** A row of the metric view: data, dateTime, estDateTime, Bus #. */
  datatype MetricViewRow = MetricViewRow(data: string, dateTime: string, estDateTime: string, bus: string)

  function DeviceOf(r: MetricRow): Json { r.device }

  function MetricView(p: (MetricRow, GeotabMapping)): MetricViewRow {
    MetricViewRow(p.0.data, p.0.dateTime, p.0.estDateTime, p.1.bus)
  }

  /**
   * `generate_metric_view_data`: the inner join of the rows with the mapping
   * on device = "Geotab Device", projected to the view columns, with no
   * duplicate removal.
   */
  function GenerateMetricViewData(rows: seq<MetricRow>, mapping: seq<GeotabMapping>): seq<MetricViewRow> {
    Project(Join(rows, mapping, DeviceOf, MappingKey), MetricView)
  }

  /**
   * A view row appears exactly when some row and some mapping row agree on
   * the device; a device no mapping row names contributes nothing.
   */
  lemma MetricViewMembers(rows: seq<MetricRow>, mapping: seq<GeotabMapping>, v: MetricViewRow)
    ensures v in GenerateMetricViewData(rows, mapping) <==>
      exists r, m :: r in rows && m in mapping && r.device == JString(m.device) && v == MetricView((r, m))
  {
    var j := Join(rows, mapping, DeviceOf, MappingKey);
    ProjectHas(j, MetricView, v);
    if v in GenerateMetricViewData(rows, mapping) {
      var q :| q in j && MetricView(q) == v;
      JoinHas(rows, mapping, DeviceOf, MappingKey, q);
    }
    if exists r, m :: r in rows && m in mapping && r.device == JString(m.device) && v == MetricView((r, m)) {
      var r, m :| r in rows && m in mapping && r.device == JString(m.device) && v == MetricView((r, m));
      JoinHas(rows, mapping, DeviceOf, MappingKey, (r, m));
    }
  }

  /** A row meets each mapping row of its device once: the join is row by row. */
  lemma MetricViewRowByRow(a: seq<MetricRow>, b: seq<MetricRow>, mapping: seq<GeotabMapping>)
    ensures GenerateMetricViewData(a + b, mapping) ==
      GenerateMetricViewData(a, mapping) + GenerateMetricViewData(b, mapping)
  {
    JoinAppend(a, b, mapping, DeviceOf, MappingKey);
    var ja := Join(a, mapping, DeviceOf, MappingKey);
    var jb := Join(b, mapping, DeviceOf, MappingKey);
    ProjectAppend(ja, jb, MetricView);
  }

  // ---------------------------------------------------------------------
  // upload_metrics_view_data
  // ---------------------------------------------------------------------

  const METRIC_VIEW_HEADER: seq<string> := ["data", "dateTime", "estDateTime", "Bus #"]

  function MetricViewFields(v: MetricViewRow): seq<string> {
    [v.data, v.dateTime, v.estDateTime, v.bus]
  }

  function MetricViewCsv(rows: seq<MetricViewRow>): string {
    Csv(METRIC_VIEW_HEADER, Project(rows, MetricViewFields))
  }

  /** The sort key of the metric view: (dateTime, Bus #). */
  function MetricViewKey(v: MetricViewRow): Key {
    (v.dateTime, v.bus)
  }

  /** Current rows then new rows, sorted by (dateTime, Bus #), duplicates dropped. */
  function MergeMetricViews(current: seq<MetricViewRow>, incoming: seq<MetricViewRow>): seq<MetricViewRow> {
    Merge(current, incoming, MetricViewKey)
  }

  /**
   * The uploads `upload_metrics_view_data` makes: a snapshot of the merged
   * table when it differs from the current one, then the final upload,
   * which carries the current table as fetched.
   */
  function MetricsPublishEffects(fileId: string, fileName: string, current: seq<MetricViewRow>,
                                 incoming: seq<MetricViewRow>, clock: string): (w: seq<Write>)
    ensures |w| == 2 <==> MergeMetricViews(current, incoming) != current
    ensures |w| == 1 || |w| == 2
    ensures |w| == 2 ==> w[0] == Create(SnapshotName(fileName, clock), MetricsSnapshotFolder,
                                        MetricViewCsv(MergeMetricViews(current, incoming)))
    ensures w[|w| - 1] == WriteFor(fileName, MetricsFinalizedDataFolder, MetricViewCsv(current), fileId)
  {
    var merged := MergeMetricViews(current, incoming);
    (if merged != current
     then [WriteFor(SnapshotName(fileName, clock), MetricsSnapshotFolder, MetricViewCsv(merged), "")]
     else [])
    + [WriteFor(fileName, MetricsFinalizedDataFolder, MetricViewCsv(current), fileId)]
  }

  /** `upload_metrics_view_data(file_id, file_name, metric_df)` with the fetched view and the clock given. */
  method UploadMetricsViewData(drive: DriveService, fileId: string, fileName: string,
                               current: seq<MetricViewRow>, metricDf: seq<MetricViewRow>, clock: string)
    modifies drive
    ensures drive.writes == old(drive.writes) + MetricsPublishEffects(fileId, fileName, current, metricDf, clock)
  {
    var merged := MergeMetricViews(current, metricDf);
    if merged != current {
      var snapshotFileName := SnapshotName(fileName, clock);
      drive.UploadFile(snapshotFileName, MetricsSnapshotFolder, MetricViewCsv(merged), "");
    }
    drive.UploadFile(fileName, MetricsFinalizedDataFolder, MetricViewCsv(current), fileId);
  }

  /** New rows never reach the published view: the final upload ignores them. */
  lemma MetricsFinalIgnoresNew(fileId: string, fileName: string, current: seq<MetricViewRow>,
                               a: seq<MetricViewRow>, b: seq<MetricViewRow>, clock: string)
    ensures var wa := MetricsPublishEffects(fileId, fileName, current, a, clock);
      var wb := MetricsPublishEffects(fileId, fileName, current, b, clock);
      wa[|wa| - 1] == wb[|wb| - 1]
  {
  }

  /**
   * Publishing one new row onto an empty view: a snapshot is taken, yet the
   * view is published empty again, so every later run takes a snapshot too.
   */
  lemma MetricsNeverSettles(fileId: string, fileName: string, row: MetricViewRow, clock: string)
    ensures var w := MetricsPublishEffects(fileId, fileName, [], [row], clock);
      && |w| == 2
      && w[1].content == MetricViewCsv([])
      && w[1].content != MetricViewCsv([row])
  {
    var merged := MergeMetricViews([], [row]);
    MergeContents([], [row], MetricViewKey);
    assert row in merged;
    CsvAppend(METRIC_VIEW_HEADER, [], MetricViewFields(row));
    assert Project([row], MetricViewFields) == [] + [MetricViewFields(row)];
  }

  // ---------------------------------------------------------------------
  // upload_metrics_view_data as its documentation describes it
  // ---------------------------------------------------------------------

  /** The uploads with the merged table published, as the documentation says. */
  function IntendedMetricsPublishEffects(fileId: string, fileName: string, current: seq<MetricViewRow>,
                                         incoming: seq<MetricViewRow>, clock: string): (w: seq<Write>)
    ensures |w| == 2 <==> MergeMetricViews(current, incoming) != current
    ensures |w| == 1 || |w| == 2
    ensures w[|w| - 1].content == MetricViewCsv(MergeMetricViews(current, incoming))
  {
    var merged := MergeMetricViews(current, incoming);
    (if merged != current
     then [WriteFor(SnapshotName(fileName, clock), MetricsSnapshotFolder, MetricViewCsv(merged), "")]
     else [])
    + [WriteFor(fileName, MetricsFinalizedDataFolder, MetricViewCsv(merged), fileId)]
  }

  /**
   * Once the merged table is published, publishing the same rows again
   * changes nothing and takes no snapshot.
   */
  lemma IntendedMetricsSettle(fileId: string, fileName: string, current: seq<MetricViewRow>,
                              incoming: seq<MetricViewRow>, clock: string)
    ensures var published := MergeMetricViews(current, incoming);
      IntendedMetricsPublishEffects(fileId, fileName, published, incoming, clock) ==
        [WriteFor(fileName, MetricsFinalizedDataFolder, MetricViewCsv(published), fileId)]
  {
    var published := MergeMetricViews(current, incoming);
    MergeContents(current, incoming, MetricViewKey);
    MergeOfKnownRows(published, incoming, MetricViewKey);
  }
}
