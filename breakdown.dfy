/**
 * `data/breakdown_transformation.py`: parsing the chunks of a bus breakdown
 * export, joining them with the Geotab mapping, and publishing the
 * breakdown view with a snapshot whenever it changes.
 */
module Breakdown {
  import opened Common
  import opened Tables
  import opened Timestamps
  import opened Publish
  import opened Drive

  /** A row of a raw breakdown chunk, reduced to geotab, description and reported_at. */
  datatype BreakdownRecord = BreakdownRecord(geotab: string, description: string, reportedAt: string)

  /** A parsed breakdown row: geotab, description, estReportedAt, reportedAt. */
  datatype BreakdownRow = BreakdownRow(geotab: string, description: string, estReportedAt: string, reportedAt: string)

  const BREAKDOWN_FORMAT: string := "%Y-%m-%dT%H:%M:%S"
  const OUTPUT_FORMAT: string := "%Y-%m-%d %H:%M:%S%z"

  function ReportedAtOf(r: BreakdownRecord): string { r.reportedAt }

  /**
   * The estReportedAt column: the strict parse and the cast to US/Eastern
   * inside `try`, the mixed parse and the cast in the `except ValueError`
   * branch. Only a failed parse is caught; a refused cast raises TypeError,
   * which propagates.
   */
  function EasternTimes(texts: seq<string>, lib: TimeLib): (r: Result<seq<Stamp>>)
    ensures r.Success? ==> |r.value| == |texts| && forall k :: 0 <= k < |texts| ==> r.value[k].zone == Zoned(EASTERN)
  {
    match ParseColumn(texts, s => lib.parseFormat(s, BREAKDOWN_FORMAT))
    case Some(c) => AsTypeZone(c, EASTERN, lib)
    case None =>
      match ParseColumn(texts, lib.parseMixed)
      case Some(c) => AsTypeZone(c, EASTERN, lib)
      case None => Failure(TimestampUnparseable)
  }

  /** When the strict format matches every value, the mixed parser is never consulted. */
  lemma EasternStrictFirst(texts: seq<string>, lib: TimeLib)
    requires forall k :: 0 <= k < |texts| ==> lib.parseFormat(texts[k], BREAKDOWN_FORMAT).Some?
    ensures EasternTimes(texts, lib) ==
      AsTypeZone(ParseColumn(texts, s => lib.parseFormat(s, BREAKDOWN_FORMAT)).value, EASTERN, lib)
  {
    var strict := s => lib.parseFormat(s, BREAKDOWN_FORMAT);
    assert forall k :: 0 <= k < |texts| ==> strict(texts[k]).Some?;
  }

  /** The rows once estReportedAt (est) is known; reportedAt is the same instant in UTC. */
  function BreakdownRows(chunk: seq<BreakdownRecord>, est: seq<Stamp>, lib: TimeLib): (rows: seq<BreakdownRow>)
    requires |est| == |chunk|
    ensures |rows| == |chunk|
    ensures forall k :: 0 <= k < |chunk| ==>
      rows[k] == BreakdownRow(chunk[k].geotab, chunk[k].description,
        lib.strftime(est[k], OUTPUT_FORMAT), lib.strftime(Stamp(est[k].instant, Zoned(UTC)), OUTPUT_FORMAT))
  {
    if |chunk| == 0 then []
    else
      [BreakdownRow(chunk[0].geotab, chunk[0].description,
        lib.strftime(est[0], OUTPUT_FORMAT), lib.strftime(Stamp(est[0].instant, Zoned(UTC)), OUTPUT_FORMAT))]
      + BreakdownRows(chunk[1..], est[1..], lib)
  }

  /**
   * `parse_breakdown_data`: keep geotab and description, rename reported_at
   * to estReportedAt and parse it in US/Eastern, add reportedAt as the same
   * instant in UTC, and format both with `%Y-%m-%d %H:%M:%S%z`.
   */
  function ParseBreakdownData(chunk: seq<BreakdownRecord>, lib: TimeLib): (r: Result<seq<BreakdownRow>>)
    ensures r.Success? <==> EasternTimes(Project(chunk, ReportedAtOf), lib).Success?
    ensures r.Success? ==>
      var est := EasternTimes(Project(chunk, ReportedAtOf), lib).value;
      && |r.value| == |chunk|
      && forall k :: 0 <= k < |chunk| ==>
        && r.value[k].geotab == chunk[k].geotab
        && r.value[k].description == chunk[k].description
        && r.value[k].estReportedAt == lib.strftime(est[k], OUTPUT_FORMAT)
        && r.value[k].reportedAt == lib.strftime(Stamp(est[k].instant, Zoned(UTC)), OUTPUT_FORMAT)
  {
    match EasternTimes(Project(chunk, ReportedAtOf), lib)
    case Failure(e) => Failure(e)
    case Success(est) =>
      ConvertZoned(est, UTC);
      match ConvertColumn(est, UTC)
      case Failure(e) => Failure(e)
      case Success(utc) => Success(BreakdownRows(chunk, est, lib))
  }

  /** One chunk as the generator in `format_breakdown_df` yields it. */
  function ParseChunk(chunk: seq<BreakdownRecord>, lib: TimeLib): Result<seq<BreakdownRow>> {
    if |chunk| > 0 then ParseBreakdownData(chunk, lib) else Success([])
  }

  /**
   * `format_breakdown_df`: every chunk parsed (an empty one contributes no
   * rows), concatenated in order, duplicates dropped keeping the first.
   * `pd.concat` of no frames at all raises.
   */
  function FormatBreakdownDf(chunks: seq<seq<BreakdownRecord>>, lib: TimeLib): Result<seq<BreakdownRow>> {
    if |chunks| == 0 then Failure(NoObjectsToConcatenate)
    else
      match ProcessAll(chunks, c => ParseChunk(c, lib))
      case Failure(e) => Failure(e)
      case Success(parts) => Success(Dedup(Flatten(parts)))
  }

  /**
   * When every chunk parses, a row is in the result exactly when some chunk
   * parses to it, and it is there once.
   */
  lemma FormatBreakdownRows(chunks: seq<seq<BreakdownRecord>>, lib: TimeLib, row: BreakdownRow)
    requires |chunks| > 0
    requires forall k :: 0 <= k < |chunks| ==> ParseChunk(chunks[k], lib).Success?
    ensures FormatBreakdownDf(chunks, lib).Success?
    ensures NoDups(FormatBreakdownDf(chunks, lib).value)
    ensures row in FormatBreakdownDf(chunks, lib).value <==>
      exists k :: 0 <= k < |chunks| && row in ParseChunk(chunks[k], lib).value
  {
    var process := c => ParseChunk(c, lib);
    assert forall k :: 0 <= k < |chunks| ==> process(chunks[k]).Success?;
    var parts := ProcessAll(chunks, process).value;
    FlattenHas(parts, row);
    assert forall k :: 0 <= k < |chunks| ==> parts[k] == ParseChunk(chunks[k], lib).value;
  }

  /** The first chunk that fails to parse decides the error. */
  lemma FormatBreakdownFirstFailure(chunks: seq<seq<BreakdownRecord>>, lib: TimeLib, k: nat)
    requires k < |chunks| && ParseChunk(chunks[k], lib).Failure?
    requires forall j :: 0 <= j < k ==> ParseChunk(chunks[j], lib).Success?
    ensures FormatBreakdownDf(chunks, lib) == Failure(ParseChunk(chunks[k], lib).error)
  {
    var process := c => ParseChunk(c, lib);
    assert process(chunks[k]).Failure?;
    assert forall j :: 0 <= j < k ==> process(chunks[j]).Success?;
    ProcessAllFirstFailure(chunks, process, k);
  }

  // ---------------------------------------------------------------------
  // generate_breakdown_view_data
  // ---------------------------------------------------------------------

  /** A row of the breakdown view: description, reportedAt, estReportedAt, Bus #. */
  datatype BreakdownViewRow = BreakdownViewRow(description: string, reportedAt: string, estReportedAt: string, bus: string)

  function GeotabOf(r: BreakdownRow): string { r.geotab }

  function MappedDevice(m: GeotabMapping): string { m.device }

  function BreakdownView(p: (BreakdownRow, GeotabMapping)): BreakdownViewRow {
    BreakdownViewRow(p.0.description, p.0.reportedAt, p.0.estReportedAt, p.1.bus)
  }

  /**
   * `generate_breakdown_view_data`: the inner join on geotab = "Geotab
   * Device", projected to the view columns, duplicates dropped.
   */
  function GenerateBreakdownViewData(rows: seq<BreakdownRow>, mapping: seq<GeotabMapping>): seq<BreakdownViewRow> {
    Dedup(Project(Join(rows, mapping, GeotabOf, MappedDevice), BreakdownView))
  }

  /**
   * A view row appears, exactly once, when some row and some mapping row
   * agree on the geotab; rows of unmapped devices vanish.
   */
  lemma BreakdownViewMembers(rows: seq<BreakdownRow>, mapping: seq<GeotabMapping>, v: BreakdownViewRow)
    ensures NoDups(GenerateBreakdownViewData(rows, mapping))
    ensures v in GenerateBreakdownViewData(rows, mapping) <==>
      exists r, m :: r in rows && m in mapping && r.geotab == m.device && v == BreakdownView((r, m))
  {
    var j := Join(rows, mapping, GeotabOf, MappedDevice);
    var p := Project(j, BreakdownView);
    ProjectHas(j, BreakdownView, v);
    if v in p {
      var q :| q in j && BreakdownView(q) == v;
      JoinHas(rows, mapping, GeotabOf, MappedDevice, q);
    }
    if exists r, m :: r in rows && m in mapping && r.geotab == m.device && v == BreakdownView((r, m)) {
      var r, m :| r in rows && m in mapping && r.geotab == m.device && v == BreakdownView((r, m));
      JoinHas(rows, mapping, GeotabOf, MappedDevice, (r, m));
    }
  }

  // ---------------------------------------------------------------------
  // upload_breakdown_view_data
  // ---------------------------------------------------------------------

  const BREAKDOWN_VIEW_HEADER: seq<string> := ["description", "reportedAt", "estReportedAt", "Bus #"]

  function BreakdownViewFields(v: BreakdownViewRow): seq<string> {
    [v.description, v.reportedAt, v.estReportedAt, v.bus]
  }

  function BreakdownViewCsv(rows: seq<BreakdownViewRow>): string {
    Csv(BREAKDOWN_VIEW_HEADER, Project(rows, BreakdownViewFields))
  }

  /** The sort key of the breakdown view: (reportedAt, Bus #). */
  function BreakdownViewKey(v: BreakdownViewRow): Key {
    (v.reportedAt, v.bus)
  }

  /** Current rows then new rows, sorted by (reportedAt, Bus #), duplicates dropped. */
  function MergeBreakdownViews(current: seq<BreakdownViewRow>, incoming: seq<BreakdownViewRow>): seq<BreakdownViewRow> {
    Merge(current, incoming, BreakdownViewKey)
  }

  predicate IsAscii(c: char) { c as int < 128 }

  /** `bytes.strip()` removes these, and only these, from both ends. */
  const StripSpaces: set<char> := {' ', '\t', '\n', '\r', '\U{0B}', '\U{0C}'}

  predicate IsStripSpace(c: char) {
    c in StripSpaces
  }

  /** `.encode("ascii", "ignore")`: every character outside ASCII dropped. */
  function DropNonAscii(s: string): string {
    if |s| == 0 then []
    else (if IsAscii(s[0]) then [s[0]] else []) + DropNonAscii(s[1..])
  }

  predicate AllAscii(s: string) {
    forall k :: 0 <= k < |s| ==> IsAscii(s[k])
  }

  /** What survives the encoding: exactly the ASCII characters, and all of them when the text is ASCII. */
  lemma {:induction false} DropNonAsciiFacts(s: string)
    ensures var r := DropNonAscii(s);
      && AllAscii(r)
      && (forall c :: c in r <==> c in s && IsAscii(c))
      && (AllAscii(s) ==> r == s)
    decreases |s|
  {
    if |s| > 0 {
      var tail := DropNonAscii(s[1..]);
      DropNonAsciiFacts(s[1..]);
      var head := if IsAscii(s[0]) then [s[0]] else [];
      assert DropNonAscii(s) == head + tail;
      assert s == [s[0]] + s[1..];
      if AllAscii(s) {
        assert AllAscii(s[1..]) by {
          forall k | 0 <= k < |s[1..]| ensures IsAscii(s[1..][k]) {
            assert s[1..][k] == s[k + 1];
          }
        }
      }
    }
  }

  /** `lstrip` of the blanks `bytes.strip()` removes. */
  function StripLeft(s: string): string {
    if |s| > 0 && IsStripSpace(s[0]) then StripLeft(s[1..]) else s
  }

  /** Only leading blanks go, all of them; ASCII text stays ASCII. */
  lemma {:induction false} StripLeftFacts(s: string)
    ensures var r := StripLeft(s);
      && |r| <= |s| && r == s[|s| - |r|..]
      && (forall k :: 0 <= k < |s| - |r| ==> IsStripSpace(s[k]))
      && (|r| == 0 || !IsStripSpace(r[0]))
      && (AllAscii(s) ==> AllAscii(r))
      && ((|s| == 0 || !IsStripSpace(s[0])) ==> r == s)
    decreases |s|
  {
    if |s| > 0 && IsStripSpace(s[0]) {
      StripLeftFacts(s[1..]);
      var r := StripLeft(s[1..]);
      assert s[1..][|s[1..]| - |r|..] == s[|s| - |r|..];
      forall k | 0 <= k < |s| - |r| ensures IsStripSpace(s[k]) {
        if k > 0 {
          assert s[1..][k - 1] == s[k];
        }
      }
      if AllAscii(s) {
        assert AllAscii(s[1..]) by {
          forall k | 0 <= k < |s[1..]| ensures IsAscii(s[1..][k]) {
            assert s[1..][k] == s[k + 1];
          }
        }
      }
    }
  }

  /** `rstrip` of the blanks `bytes.strip()` removes. */
  function StripRight(s: string): string {
    if |s| > 0 && IsStripSpace(s[|s| - 1]) then StripRight(s[..|s| - 1]) else s
  }

  /** Only trailing blanks go, all of them; ASCII text stays ASCII; a clean start stays clean. */
  lemma {:induction false} StripRightFacts(s: string)
    ensures var r := StripRight(s);
      && |r| <= |s| && r == s[..|r|]
      && (forall k :: |r| <= k < |s| ==> IsStripSpace(s[k]))
      && (|r| == 0 || !IsStripSpace(r[|r| - 1]))
      && (AllAscii(s) ==> AllAscii(r))
      && ((|s| == 0 || !IsStripSpace(s[0])) ==> (|r| == 0 || !IsStripSpace(r[0])))
      && ((|s| == 0 || !IsStripSpace(s[|s| - 1])) ==> r == s)
    decreases |s|
  {
    if |s| > 0 && IsStripSpace(s[|s| - 1]) {
      var init := s[..|s| - 1];
      StripRightFacts(init);
      var r := StripRight(init);
      assert init[..|r|] == s[..|r|];
      forall k | |r| <= k < |s| ensures IsStripSpace(s[k]) {
        if k < |s| - 1 {
          assert init[k] == s[k];
        }
      }
      if AllAscii(s) {
        assert AllAscii(init) by {
          forall k | 0 <= k < |init| ensures IsAscii(init[k]) {
            assert init[k] == s[k];
          }
        }
      }
      if |r| > 0 && |init| > 0 {
        assert r[0] == init[0] == s[0];
      }
    }
  }

  /** `.encode("ascii", "ignore").strip().decode()`. */
  function AsciiStrip(s: string): string {
    StripRight(StripLeft(DropNonAscii(s)))
  }

  /** The text both breakdown uploads carry: the merged view as cleaned CSV. */
  function BreakdownPayload(merged: seq<BreakdownViewRow>): string {
    AsciiStrip(BreakdownViewCsv(merged))
  }

  /** The text sent is ASCII, without surrounding blanks, and cleaning it again changes nothing. */
  lemma AsciiStripClean(s: string)
    ensures var r := AsciiStrip(s);
      && AllAscii(r)
      && (|r| == 0 || (!IsStripSpace(r[0]) && !IsStripSpace(r[|r| - 1])))
      && AsciiStrip(r) == r
  {
    var a := DropNonAscii(s);
    DropNonAsciiFacts(s);
    var l := StripLeft(a);
    StripLeftFacts(a);
    var r := StripRight(l);
    StripRightFacts(l);
    assert AllAscii(r);
    DropNonAsciiFacts(r);
    StripLeftFacts(r);
    assert DropNonAscii(r) == r;
    assert StripLeft(r) == r;
  }

  /**
   * A character outside ASCII never reaches the published text: a view
   * whose CSV carries one is published as different text, so reading the
   * view back cannot give the same rows.
   */
  lemma PayloadDropsNonAscii(merged: seq<BreakdownViewRow>, c: char)
    requires !IsAscii(c)
    ensures c !in BreakdownPayload(merged)
    ensures c in BreakdownViewCsv(merged) ==> BreakdownPayload(merged) != BreakdownViewCsv(merged)
  {
    var a := DropNonAscii(BreakdownViewCsv(merged));
    DropNonAsciiFacts(BreakdownViewCsv(merged));
    var l := StripLeft(a);
    StripLeftFacts(a);
    var r := StripRight(l);
    StripRightFacts(l);
    assert c !in a;
    assert c !in l;
    assert c !in r;
  }

  /**
   * The uploads `upload_breakdown_view_data` makes: a snapshot when the
   * merged table differs from the current one, then the final upload; both
   * carry the merged table as cleaned CSV text.
   */
  function BreakdownPublishEffects(fileId: string, fileName: string, current: seq<BreakdownViewRow>,
                                   incoming: seq<BreakdownViewRow>, clock: string): (w: seq<Write>)
    ensures |w| == 2 <==> MergeBreakdownViews(current, incoming) != current
    ensures |w| == 1 || |w| == 2
    ensures |w| == 2 ==> w[0] == Create(SnapshotName(fileName, clock), BusBreakdownSnapshotFolder,
                                        BreakdownPayload(MergeBreakdownViews(current, incoming)))
    ensures w[|w| - 1] == WriteFor(fileName, BreakdownViewFolder,
                                   BreakdownPayload(MergeBreakdownViews(current, incoming)), fileId)
  {
    var merged := MergeBreakdownViews(current, incoming);
    var payload := BreakdownPayload(merged);
    var last := WriteFor(fileName, BreakdownViewFolder, payload, fileId);
    if merged != current
    then [Create(SnapshotName(fileName, clock), BusBreakdownSnapshotFolder, payload), last]
    else [last]
  }

  /** `upload_breakdown_view_data(file_id, file_name, breakdown_df)` with the fetched view and the clock given. */
  method UploadBreakdownViewData(drive: DriveService, fileId: string, fileName: string,
                                 current: seq<BreakdownViewRow>, breakdownDf: seq<BreakdownViewRow>, clock: string)
    modifies drive
    ensures drive.writes == old(drive.writes) + BreakdownPublishEffects(fileId, fileName, current, breakdownDf, clock)
  {
    var merged := MergeBreakdownViews(current, breakdownDf);
    if merged != current {
      var snapshotFileName := SnapshotName(fileName, clock);
      drive.UploadFile(snapshotFileName, BusBreakdownSnapshotFolder, BreakdownPayload(merged), "");
    }
    drive.UploadFile(fileName, BreakdownViewFolder, BreakdownPayload(merged), fileId);
  }

  /**
   * New rows that are all already in a sorted, duplicate-free current view
   * cause no snapshot, and the view is republished as it was.
   */
  lemma BreakdownKnownRowsNoSnapshot(fileId: string, fileName: string, current: seq<BreakdownViewRow>,
                                     incoming: seq<BreakdownViewRow>, clock: string)
    requires SortedBy(current, BreakdownViewKey) && NoDups(current)
    requires forall v :: v in incoming ==> v in current
    ensures BreakdownPublishEffects(fileId, fileName, current, incoming, clock) ==
      [WriteFor(fileName, BreakdownViewFolder, BreakdownPayload(current), fileId)]
  {
    MergeOfKnownRows(current, incoming, BreakdownViewKey);
  }

  /** Publishing the same rows a second time onto the published view takes no snapshot. */
  lemma BreakdownSettles(fileId: string, fileName: string, current: seq<BreakdownViewRow>,
                         incoming: seq<BreakdownViewRow>, clock: string)
    ensures var published := MergeBreakdownViews(current, incoming);
      |BreakdownPublishEffects(fileId, fileName, published, incoming, clock)| == 1
  {
    var published := MergeBreakdownViews(current, incoming);
    MergeContents(current, incoming, BreakdownViewKey);
    MergeOfKnownRows(published, incoming, BreakdownViewKey);
  }
}
