/**
 * `data/battery_data_transformation.py`: normalising every raw battery
 * file of the raw-data folder, concatenating them, joining the result with
 * the Geotab mapping, and publishing the battery view over the previous one.
 */
module Battery {
  import opened Common
  import opened PyJson
  import opened Tables
  import opened Timestamps
  import opened Publish
  import opened Drive
  import opened Utilities

  /**
   * A row of a raw battery file as read with every column as text: data,
   * device, diagnostic, dateTime, and the remaining columns in file order.
   */
  datatype BatteryRecord = BatteryRecord(data: string, device: string, diagnostic: string, dateTime: string,
                                         rest: seq<string>)

  /** A normalised battery row: the ids of device and diagnostic, dateTime parsed, estDateTime added. */
  datatype BatteryRow = BatteryRow(data: string, device: Json, diagnostic: Json, dateTime: Stamp,
                                   estDateTime: Stamp, rest: seq<string>)

  function BatteryDateTimeOf(r: BatteryRecord): string { r.dateTime }

  /** The rows once every timestamp is parsed (utc) and converted to Eastern (est). */
  function BatteryRows(raw: seq<BatteryRecord>, utc: seq<Stamp>, est: seq<Stamp>): (rows: seq<BatteryRow>)
    requires |utc| == |raw| && |est| == |raw|
    ensures |rows| == |raw|
    ensures forall k :: 0 <= k < |raw| ==>
      rows[k] == BatteryRow(raw[k].data, GetIdFromJson(raw[k].device), GetIdFromJson(raw[k].diagnostic),
                            utc[k], est[k], raw[k].rest)
  {
    if |raw| == 0 then []
    else
      [BatteryRow(raw[0].data, GetIdFromJson(raw[0].device), GetIdFromJson(raw[0].diagnostic),
                  utc[0], est[0], raw[0].rest)]
      + BatteryRows(raw[1..], utc[1..], est[1..])
  }

  /** Every dateTime of the file parses with the mixed parser. */
  predicate AllParse(raw: seq<BatteryRecord>, lib: TimeLib) {
    forall k :: 0 <= k < |raw| ==> lib.parseMixed(raw[k].dateTime).Some?
  }

  /**
   * `format_battery_df`: an empty frame is returned as it is. Otherwise the
   * device and diagnostic cells become their ids, dateTime is parsed with
   * `format="mixed"` (one unparseable value raises), and estDateTime is the
   * same instant in US/Eastern (one naive value makes `tz_convert` raise).
   * Rows keep their number and order, and the other columns are untouched.
   */
  function FormatBatteryDf(raw: seq<BatteryRecord>, lib: TimeLib): Result<seq<BatteryRow>> {
    if |raw| == 0 then Success([])
    else
      var texts := Project(raw, BatteryDateTimeOf);
      match ParseColumn(texts, lib.parseMixed)
      case None => Failure(TimestampUnparseable)
      case Some(utc) =>
        match ConvertColumn(utc, EASTERN)
        case Failure(e) => Failure(e)
        case Success(est) => Success(BatteryRows(raw, utc, est))
  }

  /** What `format_battery_df` returns, case by case. */
  lemma FormatBatteryDfFacts(raw: seq<BatteryRecord>, lib: TimeLib)
    ensures var r := FormatBatteryDf(raw, lib);
      && (|raw| == 0 ==> r == Success([]))
      && (|raw| > 0 && !AllParse(raw, lib) ==> r == Failure(TimestampUnparseable))
      && (|raw| > 0 && AllParse(raw, lib) ==>
           (r.Success? <==> forall k :: 0 <= k < |raw| ==> lib.parseMixed(raw[k].dateTime).value.zone.Zoned?))
      && (r.Failure? ==> r.error == TimestampUnparseable || r.error == NaiveTimestamps)
      && (r.Success? ==> |r.value| == |raw| && forall k :: 0 <= k < |raw| ==>
           var t := lib.parseMixed(raw[k].dateTime).value;
           r.value[k] == BatteryRow(raw[k].data, GetIdFromJson(raw[k].device), GetIdFromJson(raw[k].diagnostic),
                                    t, Stamp(t.instant, Zoned(EASTERN)), raw[k].rest))
  {
    if |raw| > 0 {
      var texts := Project(raw, BatteryDateTimeOf);
      assert forall k :: 0 <= k < |raw| ==> texts[k] == raw[k].dateTime;
    }
  }

  /** One raw file: downloaded and read (None when that fails), then formatted. */
  function LoadBatteryFile(fileId: string, fetch: string -> Option<seq<BatteryRecord>>, lib: TimeLib): Result<seq<BatteryRow>> {
    match fetch(fileId)
    case None => Failure(FetchFailed(fileId))
    case Some(raw) => FormatBatteryDf(raw, lib)
  }

  /**
   * `generate_dataframe_for_battery_raw_data`: every file of the folder
   * listing, in listing order, loaded and formatted, the frames
   * concatenated. With no file at all `pd.concat` raises; the first file
   * that fails decides the error. Nothing is deduplicated.
   */
  function GenerateDataframeForBatteryRawData(listing: Option<seq<FileEntry>>,
                                              fetch: string -> Option<seq<BatteryRecord>>,
                                              lib: TimeLib): (r: Result<seq<BatteryRow>>)
    ensures |GetRawDataFileIds(listing)| == 0 ==> r == Failure(NoObjectsToConcatenate)
  {
    var ids := GetRawDataFileIds(listing);
    if |ids| == 0 then Failure(NoObjectsToConcatenate)
    else
      match ProcessAll(ids, id => LoadBatteryFile(id, fetch, lib))
      case Failure(e) => Failure(e)
      case Success(parts) => Success(Flatten(parts))
  }

  /** The formatted rows of each file, in order, when every file loads. */
  function LoadedFiles(ids: seq<string>, fetch: string -> Option<seq<BatteryRecord>>, lib: TimeLib): (parts: seq<seq<BatteryRow>>)
    requires forall k :: 0 <= k < |ids| ==> LoadBatteryFile(ids[k], fetch, lib).Success?
    ensures |parts| == |ids|
    ensures forall k :: 0 <= k < |ids| ==> parts[k] == LoadBatteryFile(ids[k], fetch, lib).value
  {
    var load := id => LoadBatteryFile(id, fetch, lib);
    assert forall k :: 0 <= k < |ids| ==> load(ids[k]).Success?;
    ProcessAll(ids, load).value
  }

  /**
   * When every file of a non-empty listing loads, the result is the
   * formatted files one after another: a row is there exactly when some
   * file yields it, and rows repeated across files are all kept.
   */
  lemma BatteryRawRows(listing: Option<seq<FileEntry>>, fetch: string -> Option<seq<BatteryRecord>>,
                       lib: TimeLib, row: BatteryRow)
    requires var ids := GetRawDataFileIds(listing);
      |ids| > 0 && forall k :: 0 <= k < |ids| ==> LoadBatteryFile(ids[k], fetch, lib).Success?
    ensures var ids := GetRawDataFileIds(listing);
      var r := GenerateDataframeForBatteryRawData(listing, fetch, lib);
      && r.Success?
      && r.value == Flatten(LoadedFiles(ids, fetch, lib))
      && (row in r.value <==> exists k :: 0 <= k < |ids| && row in LoadBatteryFile(ids[k], fetch, lib).value)
  {
    var ids := GetRawDataFileIds(listing);
    var load := id => LoadBatteryFile(id, fetch, lib);
    assert forall k :: 0 <= k < |ids| ==> load(ids[k]).Success?;
    var parts := ProcessAll(ids, load).value;
    assert parts == LoadedFiles(ids, fetch, lib);
    FlattenHas(parts, row);
  }

  /** The first file, in listing order, that cannot be loaded decides the error. */
  lemma BatteryFirstFailure(listing: Option<seq<FileEntry>>, fetch: string -> Option<seq<BatteryRecord>>,
                            lib: TimeLib, k: nat)
    requires var ids := GetRawDataFileIds(listing);
      k < |ids| && LoadBatteryFile(ids[k], fetch, lib).Failure?
      && forall j :: 0 <= j < k ==> LoadBatteryFile(ids[j], fetch, lib).Success?
    ensures var ids := GetRawDataFileIds(listing);
      GenerateDataframeForBatteryRawData(listing, fetch, lib) == Failure(LoadBatteryFile(ids[k], fetch, lib).error)
  {
    var ids := GetRawDataFileIds(listing);
    var load := id => LoadBatteryFile(id, fetch, lib);
    assert load(ids[k]).Failure?;
    assert forall j :: 0 <= j < k ==> load(ids[j]).Success?;
    ProcessAllFirstFailure(ids, load, k);
  }

  /** A file whose download fails stops the run with that file's id. */
  lemma BatteryFetchFailure(listing: Option<seq<FileEntry>>, fetch: string -> Option<seq<BatteryRecord>>,
                            lib: TimeLib, k: nat)
    requires var ids := GetRawDataFileIds(listing);
      k < |ids| && fetch(ids[k]).None?
      && forall j :: 0 <= j < k ==> LoadBatteryFile(ids[j], fetch, lib).Success?
    ensures GenerateDataframeForBatteryRawData(listing, fetch, lib) ==
      Failure(FetchFailed(GetRawDataFileIds(listing)[k]))
  {
    BatteryFirstFailure(listing, fetch, lib, k);
  }

  // ---------------------------------------------------------------------
  // generate_battery_view_data
  // ---------------------------------------------------------------------

  /** A row of the battery view: data, dateTime, estDateTime, Bus #. */
  datatype BatteryViewRow = BatteryViewRow(data: string, dateTime: Stamp, estDateTime: Stamp, bus: string)

  function BatteryDeviceOf(r: BatteryRow): Json { r.device }

  function BatteryView(p: (BatteryRow, GeotabMapping)): BatteryViewRow {
    BatteryViewRow(p.0.data, p.0.dateTime, p.0.estDateTime, p.1.bus)
  }

  /**
   * `generate_battery_view_data`: the inner join of the rows with the
   * mapping on device = "Geotab Device", projected to the view columns.
   */
  function GenerateBatteryViewData(rows: seq<BatteryRow>, mapping: seq<GeotabMapping>): seq<BatteryViewRow> {
    Project(Join(rows, mapping, BatteryDeviceOf, MappingKey), BatteryView)
  }

  /**
   * A view row appears exactly when some row and some mapping row agree on
   * the device; rows of devices no mapping row names vanish.
   */
  lemma BatteryViewMembers(rows: seq<BatteryRow>, mapping: seq<GeotabMapping>, v: BatteryViewRow)
    ensures v in GenerateBatteryViewData(rows, mapping) <==>
      exists r, m :: r in rows && m in mapping && r.device == JString(m.device) && v == BatteryView((r, m))
  {
    var j := Join(rows, mapping, BatteryDeviceOf, MappingKey);
    ProjectHas(j, BatteryView, v);
    if v in GenerateBatteryViewData(rows, mapping) {
      var q :| q in j && BatteryView(q) == v;
      JoinHas(rows, mapping, BatteryDeviceOf, MappingKey, q);
    }
    if exists r, m :: r in rows && m in mapping && r.device == JString(m.device) && v == BatteryView((r, m)) {
      var r, m :| r in rows && m in mapping && r.device == JString(m.device) && v == BatteryView((r, m));
      JoinHas(rows, mapping, BatteryDeviceOf, MappingKey, (r, m));
    }
  }

  /** The view of two files' rows is the view of the first followed by the view of the second. */
  lemma BatteryViewRowByRow(a: seq<BatteryRow>, b: seq<BatteryRow>, mapping: seq<GeotabMapping>)
    ensures GenerateBatteryViewData(a + b, mapping) ==
      GenerateBatteryViewData(a, mapping) + GenerateBatteryViewData(b, mapping)
  {
    JoinAppend(a, b, mapping, BatteryDeviceOf, MappingKey);
    var ja := Join(a, mapping, BatteryDeviceOf, MappingKey);
    var jb := Join(b, mapping, BatteryDeviceOf, MappingKey);
    ProjectAppend(ja, jb, BatteryView);
  }

  // ---------------------------------------------------------------------
  // upload_battery_view_data
  // ---------------------------------------------------------------------

  const BATTERY_VIEW_FILE_NAME: string := "battery_view_data.csv"
  const BATTERY_VIEW_HEADER: seq<string> := ["data", "dateTime", "estDateTime", "Bus #"]

  /** The CSV fields of a view row; timestamps are written as `str` renders them. */
  function BatteryViewFields(v: BatteryViewRow, lib: TimeLib): seq<string> {
    [v.data, lib.render(v.dateTime), lib.render(v.estDateTime), v.bus]
  }

  function BatteryViewCsv(rows: seq<BatteryViewRow>, lib: TimeLib): string {
    Csv(BATTERY_VIEW_HEADER, Project(rows, v => BatteryViewFields(v, lib)))
  }

  /**
   * `upload_battery_view_data`: build the whole view from the raw folder and
   * upload it over the battery view file in one write, with no merge and no
   * snapshot. When building the raw table raises, nothing is uploaded.
   */
  method UploadBatteryViewData(drive: DriveService, batteryViewFileId: string, listing: Option<seq<FileEntry>>,
                               fetch: string -> Option<seq<BatteryRecord>>, mapping: seq<GeotabMapping>,
                               lib: TimeLib) returns (err: Option<Error>)
    modifies drive
    ensures var raw := GenerateDataframeForBatteryRawData(listing, fetch, lib);
      && (raw.Failure? ==> err == Some(raw.error) && drive.writes == old(drive.writes))
      && (raw.Success? ==> (err == None && drive.writes == old(drive.writes) +
            [WriteFor(BATTERY_VIEW_FILE_NAME, MetricsFinalizedDataFolder,
                      BatteryViewCsv(GenerateBatteryViewData(raw.value, mapping), lib), batteryViewFileId)]))
  {
    var raw := GenerateDataframeForBatteryRawData(listing, fetch, lib);
    if raw.Failure? {
      return Some(raw.error);
    }
    var batteryDf := GenerateBatteryViewData(raw.value, mapping);
    drive.UploadFile(BATTERY_VIEW_FILE_NAME, MetricsFinalizedDataFolder, BatteryViewCsv(batteryDf, lib),
                     batteryViewFileId);
    return None;
  }
}
