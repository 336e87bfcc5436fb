/**
 * `streamlit_utilities.py`: the table shaping the dashboard does on the
 * published views before charting them. Cells read back from a view file
 * may be missing (NaN), so a cell is an optional string.
 */
module Dashboard {
  import opened Common
  import opened Tables

  /** A cell of a frame read from CSV: None stands for NaN. */
  type Cell = Option<string>

  const BUS_COLUMN: string := "Bus #"

  // ---------------------------------------------------------------------
  // _remove_est_tz_info
  // ---------------------------------------------------------------------

  /**
   * `value.rsplit("-", 1)[0]`: the text before the last "-" (which drops a
   * "-05:00" offset), or the whole value when it holds no "-".
   */
  function StripTz(s: string): (r: string)
    ensures |r| <= |s| && r == s[..|r|]
    ensures '-' !in s ==> r == s
    ensures '-' in s ==> |r| < |s| && s[|r|] == '-' && '-' !in s[|r| + 1..]
    decreases |s|
  {
    if |s| == 0 then s
    else
      var init := s[..|s| - 1];
      if s[|s| - 1] == '-' then init
      else if '-' in init then
        var r := StripTz(init);
        assert s[|r| + 1..] == init[|r| + 1..] + [s[|s| - 1]];
        r
      else
        assert s == init + [s[|s| - 1]];
        s
  }

  /** The value with its suffix cut off and the cut-off part glued back give the value. */
  lemma StripTzRebuilds(s: string)
    requires '-' in s
    ensures s == StripTz(s) + "-" + s[|StripTz(s)| + 1..]
  {
  }

  /** A missing cell stays missing; a present one is cut. */
  function StripTzCell(c: Cell): (r: Cell)
    ensures r.Some? <==> c.Some?
    ensures c.Some? ==> r.value == StripTz(c.value)
  {
    match c
    case None => None
    case Some(s) => Some(StripTz(s))
  }

  /** The cut applied to a whole column: same length, each present value replaced by a prefix of it. */
  function StripTzColumn(col: seq<Cell>): (r: seq<Cell>)
    ensures |r| == |col|
    ensures forall k :: 0 <= k < |col| ==> (r[k].Some? <==> col[k].Some?)
    ensures forall k :: 0 <= k < |col| && col[k].Some? ==>
      var v := r[k].value;
      |v| <= |col[k].value| && v == col[k].value[..|v|]
    ensures forall k :: 0 <= k < |col| && col[k].Some? && '-' !in col[k].value ==> r[k] == col[k]
  {
    Project(col, StripTzCell)
  }

  /** A frame as `_remove_est_tz_info` sees it: named columns, and the columns cast to category. */
  class Frame {
    var columns: map<string, seq<Cell>>
    var categorical: set<string>

    constructor(columns: map<string, seq<Cell>>)
      ensures this.columns == columns && categorical == {}
    {
      this.columns := columns;
      categorical := {};
    }

    /**
     * `_remove_est_tz_info(df, est_tz_column_name)`: the named column is cut
     * before its last "-", and "Bus #" becomes categorical with its values
     * unchanged. Every other column is left as it was.
     */
    method RemoveEstTzInfo(estTzColumnName: string)
      requires estTzColumnName in columns && BUS_COLUMN in columns
      modifies this
      ensures columns == old(columns)[estTzColumnName := StripTzColumn(old(columns)[estTzColumnName])]
      ensures categorical == old(categorical) + {BUS_COLUMN}
    {
      columns := columns[estTzColumnName := StripTzColumn(columns[estTzColumnName])];
      categorical := categorical + {BUS_COLUMN};
    }
  }

  // ---------------------------------------------------------------------
  // Read options of get_rpm_data and get_battery_data
  // ---------------------------------------------------------------------

  /** The `nrows` argument: "All", "Random" or a row count. */
  datatype NRows = All | Random | Rows(n: int)

  datatype KwValue =
    | Dtypes(columnTypes: seq<(string, string)>)
    | Columns(names: seq<string>)
    | Text(text: string)
    | Number(number: int)

  /** A keyword-argument dict, in insertion order. */
  type Kwargs = seq<(string, KwValue)>

  function Get(kwargs: Kwargs, key: string): Option<KwValue> {
    if |kwargs| == 0 then None
    else if kwargs[0].0 == key then Some(kwargs[0].1)
    else Get(kwargs[1..], key)
  }

  /** A key no entry carries is not found. */
  lemma {:induction false} GetAbsent(kwargs: Kwargs, key: string)
    requires forall i :: 0 <= i < |kwargs| ==> kwargs[i].0 != key
    ensures Get(kwargs, key) == None
  {
    if |kwargs| > 0 { GetAbsent(kwargs[1..], key); }
  }

  predicate DistinctKeys(kwargs: Kwargs) {
    forall i, j :: 0 <= i < j < |kwargs| ==> kwargs[i].0 != kwargs[j].0
  }

  const CHUNK_SIZE: int := 2000

  const RPM_DTYPES: seq<(string, string)> :=
    [("data", "int16[pyarrow]"), ("Bus #", "category"), ("estDateTime", "string[pyarrow]"), ("dateTime", "uint32[pyarrow]")]

  const BATTERY_DTYPES: seq<(string, string)> :=
    [("data", "float32"), ("Bus #", "category"), ("estDateTime", "string[pyarrow]"), ("dateTime", "uint32[pyarrow]")]

  /** What every read needs whatever nrows is: the column types, the columns, and the pyarrow backend. */
  predicate KeepsReadOptions(kwargs: Kwargs, dtypes: seq<(string, string)>, usecols: seq<string>) {
    && Get(kwargs, "dtype") == Some(Dtypes(dtypes))
    && Get(kwargs, "usecols") == Some(Columns(usecols))
    && Get(kwargs, "dtype_backend") == Some(Text("pyarrow"))
  }

  /**
   * The dict `get_rpm_data` and `get_battery_data` build: dtype, usecols and
   * dtype_backend, with "nrows" put in front for a row count and
   * "chunksize" 2000 for anything else.
   */
  method ReadCsvKwargs(nrows: NRows, usecols: seq<string>, dtypes: seq<(string, string)>) returns (kwargs: Kwargs)
    ensures |kwargs| == 4 && DistinctKeys(kwargs)
    ensures KeepsReadOptions(kwargs, dtypes, usecols)
    ensures Get(kwargs, "nrows") == (if nrows.Rows? then Some(Number(nrows.n)) else None)
    ensures Get(kwargs, "chunksize") == (if nrows.Rows? then None else Some(Number(CHUNK_SIZE)))
    ensures kwargs[0].0 == (if nrows.Rows? then "nrows" else "chunksize")
  {
    var options: Kwargs := [("dtype", Dtypes(dtypes)), ("usecols", Columns(usecols)), ("dtype_backend", Text("pyarrow"))];
    if nrows.Rows? {
      kwargs := [("nrows", Number(nrows.n))] + options;
    } else {
      kwargs := [("chunksize", Number(CHUNK_SIZE))] + options;
    }
    var last: Kwargs := [("dtype_backend", Text("pyarrow"))];
    assert options[1..][1..] == last && last[1..] == [];
    assert Get(last, "dtype_backend") == Some(Text("pyarrow"));
    assert Get(options[1..], "usecols") == Some(Columns(usecols));
    assert "dtype_backend" != "usecols" && "dtype_backend" != "dtype" && "usecols" != "dtype";
    assert Get(options[1..], "dtype_backend") == Some(Text("pyarrow"));
    assert Get(options, "dtype_backend") == Some(Text("pyarrow"));
    assert Get(options, "usecols") == Some(Columns(usecols));
    assert "nrows"[0] != "dtype"[0] && "nrows"[0] != "usecols"[0] && "nrows"[0] != "dtype_backend"[0];
    GetAbsent(options, "nrows");
    assert "chunksize"[0] != "dtype"[0] && "chunksize"[0] != "usecols"[0] && "chunksize"[0] != "dtype_backend"[0];
    GetAbsent(options, "chunksize");
    assert kwargs[1..] == options;
  }

  /** The read options of `get_rpm_data`: int16 data. */
  method GetRpmReadKwargs(nrows: NRows, usecols: seq<string>) returns (kwargs: Kwargs)
    ensures KeepsReadOptions(kwargs, RPM_DTYPES, usecols)
    ensures Get(kwargs, "nrows") == (if nrows.Rows? then Some(Number(nrows.n)) else None)
    ensures Get(kwargs, "chunksize") == (if nrows.Rows? then None else Some(Number(CHUNK_SIZE)))
  {
    kwargs := ReadCsvKwargs(nrows, usecols, RPM_DTYPES);
  }

  /** The read options of `get_battery_data`: float32 data. */
  method GetBatteryReadKwargs(nrows: NRows, usecols: seq<string>) returns (kwargs: Kwargs)
    ensures KeepsReadOptions(kwargs, BATTERY_DTYPES, usecols)
    ensures Get(kwargs, "nrows") == (if nrows.Rows? then Some(Number(nrows.n)) else None)
    ensures Get(kwargs, "chunksize") == (if nrows.Rows? then None else Some(Number(CHUNK_SIZE)))
  {
    kwargs := ReadCsvKwargs(nrows, usecols, BATTERY_DTYPES);
  }

  // ---------------------------------------------------------------------
  // Breakdown tables of the dashboard
  // ---------------------------------------------------------------------

  /** A row of the breakdown view file as read back: description, reportedAt, estReportedAt, Bus #. */
  datatype ViewRecord = ViewRecord(description: Cell, reportedAt: Cell, estReportedAt: Cell, bus: Cell)

  /** `get_breakdown_data`: the view without exact duplicates, first copies kept in place. */
  function GetBreakdownData(view: seq<ViewRecord>): (r: seq<ViewRecord>)
    ensures forall x :: x in r <==> x in view
    ensures NoDups(r)
    ensures InFirstOccurrenceOrder(view, r)
  {
    DedupOrder(view);
    Dedup(view)
  }

  /** A row of the timeline: Bus # and Reported At. */
  datatype TimelineRow = TimelineRow(bus: Cell, reportedAt: Cell)

  /** estReportedAt cut before its offset and renamed "Reported At", next to Bus #. */
  function TimelineOf(r: ViewRecord): TimelineRow {
    TimelineRow(r.bus, StripTzCell(r.estReportedAt))
  }

  /**
   * `get_breakdown_timeline`: the deduplicated view, estReportedAt cut,
   * projected to [Bus #, Reported At], duplicates dropped again.
   */
  function GetBreakdownTimeline(view: seq<ViewRecord>): (t: seq<TimelineRow>)
    ensures NoDups(t)
  {
    Dedup(Project(GetBreakdownData(view), TimelineOf))
  }

  /** A timeline row is there, once, exactly when some view row gives it. */
  lemma TimelineMembers(view: seq<ViewRecord>, v: TimelineRow)
    ensures v in GetBreakdownTimeline(view) <==> exists r :: r in view && TimelineOf(r) == v
  {
    ProjectHas(GetBreakdownData(view), TimelineOf, v);
  }

  /**
   * The first duplicate removal is redundant: the timeline is the view's
   * projected rows, each once, in the order they first appear.
   */
  lemma TimelineIgnoresRepeats(view: seq<ViewRecord>)
    ensures GetBreakdownTimeline(view) == Dedup(Project(view, TimelineOf))
  {
    DedupProject(view, TimelineOf);
  }

  // ---------------------------------------------------------------------
  // get_breakdown_count_by_bus
  // ---------------------------------------------------------------------

  /** Strictly ascending in Python's string order. */
  predicate Ascending(bs: seq<string>) {
    forall i, j :: 0 <= i < j < |bs| ==> StrLe(bs[i], bs[j]) && bs[i] != bs[j]
  }

  /** b added to an ascending sequence, at its place, unless it is there already. */
  function InsertBus(bs: seq<string>, b: string): (r: seq<string>)
    requires Ascending(bs)
    ensures Ascending(r)
    ensures forall x :: x in r <==> x in bs || x == b
  {
    if |bs| == 0 then [b]
    else
      var init := bs[..|bs| - 1];
      var last := bs[|bs| - 1];
      assert bs == init + [last];
      if last == b then bs
      else if StrLe(last, b) then
        forall i | 0 <= i < |bs| ensures StrLe(bs[i], b) && bs[i] != b {
          if i < |bs| - 1 {
            StrLeTrans(bs[i], last, b);
            if bs[i] == b { StrLeAntisym(b, last); }
          }
        }
        bs + [b]
      else
        StrLeTotal(last, b);
        var r' := InsertBus(init, b);
        forall x | x in r' ensures StrLe(x, last) && x != last {
          if x != b {
            var i :| 0 <= i < |init| && init[i] == x;
            assert bs[i] == x;
          }
        }
        r' + [last]
  }

  /** The distinct non-null values of Bus #, ascending: the groups of `groupby("Bus #")`. */
  function Buses(t: seq<TimelineRow>): (bs: seq<string>)
    ensures Ascending(bs)
    ensures forall b :: b in bs <==> exists r :: r in t && r.bus == Some(b)
  {
    if |t| == 0 then []
    else
      var init := t[..|t| - 1];
      var last := t[|t| - 1];
      assert t == init + [last];
      var bs := Buses(init);
      if last.bus.Some? then InsertBus(bs, last.bus.value) else bs
  }

  /** 1 when the row belongs to bus b and has a Reported At, else 0. */
  function Hit(r: TimelineRow, b: string): nat {
    if r.bus == Some(b) && r.reportedAt.Some? then 1 else 0
  }

  /** `["Reported At"].count()` of the group of bus b: its rows with a non-null Reported At. */
  function Reported(t: seq<TimelineRow>, b: string): nat {
    if |t| == 0 then 0 else Reported(t[..|t| - 1], b) + Hit(t[|t| - 1], b)
  }

  /** A row of `get_breakdown_count_by_bus`: Bus # and Breakdowns. */
  datatype BusCount = BusCount(bus: string, breakdowns: nat)

  function CountsFor(bs: seq<string>, t: seq<TimelineRow>): (r: seq<BusCount>)
    ensures |r| == |bs|
    ensures forall k :: 0 <= k < |bs| ==> r[k] == BusCount(bs[k], Reported(t, bs[k]))
  {
    if |bs| == 0 then [] else [BusCount(bs[0], Reported(t, bs[0]))] + CountsFor(bs[1..], t)
  }

  /** `get_breakdown_count_by_bus` over the timeline of a view. */
  function GetBreakdownCountByBus(view: seq<ViewRecord>): seq<BusCount> {
    var t := GetBreakdownTimeline(view);
    CountsFor(Buses(t), t)
  }

  /** The count table is ascending in Bus #, and each count is that bus's rows with a Reported At. */
  lemma CountByBusOrder(view: seq<ViewRecord>)
    ensures var c := GetBreakdownCountByBus(view);
      && (forall i, j :: 0 <= i < j < |c| ==> StrLe(c[i].bus, c[j].bus) && c[i].bus != c[j].bus)
      && forall k :: 0 <= k < |c| ==> c[k].breakdowns == Reported(GetBreakdownTimeline(view), c[k].bus)
  {
    var t := GetBreakdownTimeline(view);
    var bs := Buses(t);
    var c := GetBreakdownCountByBus(view);
    assert forall k :: 0 <= k < |c| ==> c[k].bus == bs[k];
  }

  /** The count table has a row for a bus exactly when some row of the view names that bus. */
  lemma CountByBusGroups(view: seq<ViewRecord>, b: string)
    ensures var c := GetBreakdownCountByBus(view);
      (exists k :: 0 <= k < |c| && c[k].bus == b) <==> exists r :: r in view && r.bus == Some(b)
  {
    var t := GetBreakdownTimeline(view);
    var bs := Buses(t);
    var c := GetBreakdownCountByBus(view);
    assert forall k :: 0 <= k < |c| ==> c[k].bus == bs[k];
    if exists r :: r in view && r.bus == Some(b) {
      var r :| r in view && r.bus == Some(b);
      TimelineMembers(view, TimelineOf(r));
      assert TimelineOf(r) in t;
      assert b in bs;
      var k :| 0 <= k < |bs| && bs[k] == b;
      assert c[k].bus == b;
    }
    if exists k :: 0 <= k < |c| && c[k].bus == b {
      var k :| 0 <= k < |c| && c[k].bus == b;
      assert bs[k] == b;
      var tr :| tr in t && tr.bus == Some(b);
      TimelineMembers(view, tr);
    }
  }

  /** The total of the counts of a set of buses. */
  function SumReported(t: seq<TimelineRow>, bs: seq<string>): nat {
    if |bs| == 0 then 0 else Reported(t, bs[0]) + SumReported(t, bs[1..])
  }

  /** The rows that have both a Bus # and a Reported At. */
  function Counted(t: seq<TimelineRow>): nat {
    if |t| == 0 then 0
    else Counted(t[..|t| - 1]) + (if t[|t| - 1].bus.Some? && t[|t| - 1].reportedAt.Some? then 1 else 0)
  }

  /** How many buses of bs a row counts for. */
  function Hits(bs: seq<string>, r: TimelineRow): nat {
    if |bs| == 0 then 0 else Hit(r, bs[0]) + Hits(bs[1..], r)
  }

  lemma {:induction false} HitsOnce(bs: seq<string>, r: TimelineRow)
    requires NoDups(bs)
    ensures Hits(bs, r) == if r.bus.Some? && r.reportedAt.Some? && r.bus.value in bs then 1 else 0
  {
    if |bs| > 0 {
      HitsOnce(bs[1..], r);
      assert bs == [bs[0]] + bs[1..];
      if r.bus == Some(bs[0]) {
        assert bs[0] !in bs[1..];
      }
    }
  }

  lemma {:induction false} SumReportedSnoc(t: seq<TimelineRow>, r: TimelineRow, bs: seq<string>)
    ensures SumReported(t + [r], bs) == SumReported(t, bs) + Hits(bs, r)
  {
    assert (t + [r])[..|t|] == t;
    if |bs| > 0 {
      SumReportedSnoc(t, r, bs[1..]);
    }
  }

  lemma {:induction false} SumReportedEmpty(bs: seq<string>)
    ensures SumReported([], bs) == 0
  {
    if |bs| > 0 { SumReportedEmpty(bs[1..]); }
  }

  /**
   * Over any duplicate-free list of buses that covers the table, the
   * counts add up to the rows that have both a Bus # and a Reported At.
   */
  lemma {:induction false} SumReportedCounted(t: seq<TimelineRow>, bs: seq<string>)
    requires NoDups(bs)
    requires forall r :: r in t && r.bus.Some? ==> r.bus.value in bs
    ensures SumReported(t, bs) == Counted(t)
    decreases |t|
  {
    if |t| == 0 {
      SumReportedEmpty(bs);
    } else {
      var init := t[..|t| - 1];
      var last := t[|t| - 1];
      assert t == init + [last];
      SumReportedCounted(init, bs);
      SumReportedSnoc(init, last, bs);
      HitsOnce(bs, last);
    }
  }

  /** The sum of the Breakdowns column. */
  function TotalBreakdowns(c: seq<BusCount>): nat {
    if |c| == 0 then 0 else c[0].breakdowns + TotalBreakdowns(c[1..])
  }

  lemma {:induction false} TotalOfCounts(bs: seq<string>, t: seq<TimelineRow>)
    ensures TotalBreakdowns(CountsFor(bs, t)) == SumReported(t, bs)
  {
    if |bs| > 0 {
      TotalOfCounts(bs[1..], t);
      assert CountsFor(bs, t)[1..] == CountsFor(bs[1..], t);
    }
  }

  /**
   * No breakdown is lost or counted twice: the counts add up to the
   * timeline rows that have both a Bus # and a Reported At.
   */
  lemma CountsAddUp(view: seq<ViewRecord>)
    ensures TotalBreakdowns(GetBreakdownCountByBus(view)) == Counted(GetBreakdownTimeline(view))
  {
    var t := GetBreakdownTimeline(view);
    var bs := Buses(t);
    TotalOfCounts(bs, t);
    assert NoDups(bs);
    SumReportedCounted(t, bs);
  }

  // ---------------------------------------------------------------------
  // format_breakdown_for_chart
  // ---------------------------------------------------------------------

  function OfBus(b: string): TimelineRow -> bool {
    (r: TimelineRow) => r.bus == Some(b)
  }

  /**
   * `format_breakdown_for_chart(selected_bus)`: the timeline rows of that
   * bus, in timeline order ("Reported At" is renamed "estDateTime").
   */
  function FormatBreakdownForChart(view: seq<ViewRecord>, selectedBus: string): seq<TimelineRow> {
    Filter(GetBreakdownTimeline(view), OfBus(selectedBus))
  }

  /** The rows with a Reported At. */
  function WithReportedAt(rows: seq<TimelineRow>): nat {
    if |rows| == 0 then 0
    else WithReportedAt(rows[..|rows| - 1]) + (if rows[|rows| - 1].reportedAt.Some? then 1 else 0)
  }

  /** Selecting by bus keeps timeline order: it works row by row. */
  lemma ChartKeepsOrder(a: seq<TimelineRow>, b: seq<TimelineRow>, selectedBus: string)
    ensures Filter(a + b, OfBus(selectedBus)) == Filter(a, OfBus(selectedBus)) + Filter(b, OfBus(selectedBus))
  {
    FilterAppend(a, b, OfBus(selectedBus));
  }

  lemma WithReportedAtAppend(a: seq<TimelineRow>, b: seq<TimelineRow>)
    ensures WithReportedAt(a + b) == WithReportedAt(a) + WithReportedAt(b)
    decreases |b|
  {
    if |b| == 0 {
      assert a + b == a;
    } else {
      var b' := b[..|b| - 1];
      assert (a + b)[..|a + b| - 1] == a + b';
      WithReportedAtAppend(a, b');
    }
  }

  lemma {:induction false} SelectedReported(t: seq<TimelineRow>, b: string)
    ensures WithReportedAt(Filter(t, OfBus(b))) == Reported(t, b)
    decreases |t|
  {
    if |t| > 0 {
      var init := t[..|t| - 1];
      var last := t[|t| - 1];
      SelectedReported(init, b);
      var tail := if OfBus(b)(last) then [last] else [];
      assert Filter(t, OfBus(b)) == Filter(init, OfBus(b)) + tail;
      WithReportedAtAppend(Filter(init, OfBus(b)), tail);
      assert tail == [] ==> Filter(init, OfBus(b)) + tail == Filter(init, OfBus(b));
    }
  }

  /**
   * The chart of a bus and its count agree: the chart rows that have a
   * Reported At are exactly as many as the Breakdowns of that bus.
   */
  lemma ChartMatchesCount(view: seq<ViewRecord>, selectedBus: string)
    ensures WithReportedAt(FormatBreakdownForChart(view, selectedBus)) ==
      Reported(GetBreakdownTimeline(view), selectedBus)
  {
    SelectedReported(GetBreakdownTimeline(view), selectedBus);
  }
}
