/**
 * Timestamp columns as the pipeline uses them through pandas. A parsed
 * timestamp is an instant on a time line together with its zone: tz-naive,
 * or attached to a named zone. Calendar and daylight-saving rules are not
 * part of the model: parsing text, localising a naive value, rendering and
 * `strftime` are the functions of a `TimeLib` that callers pass in.
 * Converting between zones (`tz_convert`) keeps the instant and changes the
 * zone, which is all the pipeline relies on.
 */
module Timestamps {
  import opened Common

  datatype Zone = Naive | Zoned(tz: string)

  /** A timestamp: the instant it denotes (for a naive one, its wall time) and its zone. */
  datatype Stamp = Stamp(instant: int, zone: Zone)

  const EASTERN: string := "US/Eastern"
  const UTC: string := "UTC"

  /**
   * The parts of pandas and pytz the model treats as given.
   *  - parseFormat(text, fmt): `pd.to_datetime` of one value with an explicit format;
   *  - parseMixed(text): `pd.to_datetime(..., format="mixed")` of one value;
   *  - localizeNaive(stamp, tz): the instant a naive value denotes as wall
   *    time in tz, for `astype(DatetimeTZDtype(tz))` (None where pandas
   *    refuses, as pandas 2 does, with TypeError);
   *  - render(stamp): `astype(str)`;
   *  - strftime(stamp, fmt): `dt.strftime(fmt)`.
   */
  datatype TimeLib = TimeLib(
    parseFormat: (string, string) -> Option<Stamp>,
    parseMixed: string -> Option<Stamp>,
    localizeNaive: (Stamp, string) -> Option<int>,
    render: Stamp -> string,
    strftime: (Stamp, string) -> string)

  /**
   * `pd.to_datetime` of a whole column: it fails if any value fails, and
   * otherwise parses every value.
   */
  function ParseColumn<A>(texts: seq<A>, parse: A -> Option<Stamp>): (r: Option<seq<Stamp>>)
    ensures r.Some? <==> forall k :: 0 <= k < |texts| ==> parse(texts[k]).Some?
    ensures r.Some? ==> (|r.value| == |texts| &&
      forall k :: 0 <= k < |texts| ==> parse(texts[k]) == Some(r.value[k]))
  {
    if |texts| == 0 then Some([])
    else
      var init := texts[..|texts| - 1];
      match ParseColumn(init, parse)
      case None => None
      case Some(c) =>
        match parse(texts[|texts| - 1])
        case None => None
        case Some(t) => Some(c + [t])
  }

  /**
   * A parse with an explicit format inside `try`, falling back to
   * `format="mixed"` on ValueError; a failure of the fallback propagates.
   */
  function ParseStrictThenMixed(texts: seq<string>, fmt: string, lib: TimeLib): (r: Result<seq<Stamp>>)
  {
    match ParseColumn(texts, s => lib.parseFormat(s, fmt))
    case Some(c) => Success(c)
    case None =>
      match ParseColumn(texts, lib.parseMixed)
      case Some(c) => Success(c)
      case None => Failure(TimestampUnparseable)
  }

  /** When every value matches the format, the fallback is never consulted. */
  lemma StrictParseWins(texts: seq<string>, fmt: string, lib: TimeLib)
    requires forall k :: 0 <= k < |texts| ==> lib.parseFormat(texts[k], fmt).Some?
    ensures ParseStrictThenMixed(texts, fmt, lib).Success?
    ensures forall k :: 0 <= k < |texts| ==>
      lib.parseFormat(texts[k], fmt) == Some(ParseStrictThenMixed(texts, fmt, lib).value[k])
  {
  }

  /**
   * One value that does not match the format sends the whole column to the
   * mixed parse, which then decides the outcome alone.
   */
  lemma MixedParseFallback(texts: seq<string>, fmt: string, lib: TimeLib, bad: nat)
    requires bad < |texts| && lib.parseFormat(texts[bad], fmt).None?
    ensures ParseStrictThenMixed(texts, fmt, lib).Success? <==>
      forall k :: 0 <= k < |texts| ==> lib.parseMixed(texts[k]).Some?
    ensures ParseStrictThenMixed(texts, fmt, lib).Success? ==>
      forall k :: 0 <= k < |texts| ==>
        lib.parseMixed(texts[k]) == Some(ParseStrictThenMixed(texts, fmt, lib).value[k])
  {
    var strict := s => lib.parseFormat(s, fmt);
    assert strict(texts[bad]).None?;
  }

  /**
   * `series.dt.tz_convert(tz)`: every value keeps its instant and takes the
   * zone; a naive value makes the whole conversion raise TypeError.
   */
  function ConvertColumn(col: seq<Stamp>, tz: string): (r: Result<seq<Stamp>>)
    ensures r.Failure? <==> exists k :: 0 <= k < |col| && col[k].zone.Naive?
    ensures r.Failure? ==> r.error == NaiveTimestamps
    ensures r.Success? ==> (|r.value| == |col| &&
      forall k :: 0 <= k < |col| ==> r.value[k] == Stamp(col[k].instant, Zoned(tz)))
  {
    if |col| == 0 then Success([])
    else
      var init := col[..|col| - 1];
      var last := col[|col| - 1];
      match ConvertColumn(init, tz)
      case Failure(e) => Failure(e)
      case Success(c) =>
        if last.zone.Naive? then Failure(NaiveTimestamps)
        else Success(c + [Stamp(last.instant, Zoned(tz))])
  }

  /** Converting a column that is already zoned always succeeds. */
  lemma ConvertZoned(col: seq<Stamp>, tz: string)
    requires forall k :: 0 <= k < |col| ==> col[k].zone.Zoned?
    ensures ConvertColumn(col, tz).Success?
  {
  }

  /** Converting twice is converting once to the last zone: instants never move. */
  lemma ConvertTwice(col: seq<Stamp>, tz1: string, tz2: string)
    requires ConvertColumn(col, tz1).Success?
    ensures ConvertColumn(ConvertColumn(col, tz1).value, tz2) == ConvertColumn(col, tz2)
  {
    var once := ConvertColumn(col, tz1).value;
    ConvertZoned(once, tz2);
    var lhs := ConvertColumn(once, tz2);
    var rhs := ConvertColumn(col, tz2);
    assert lhs.value == rhs.value;
  }

  /** `astype(DatetimeTZDtype(tz))` of one value. */
  function AsZone(t: Stamp, tz: string, lib: TimeLib): (r: Option<Stamp>)
    ensures t.zone.Zoned? ==> r == Some(Stamp(t.instant, Zoned(tz)))
    ensures r.Some? ==> r.value.zone == Zoned(tz)
  {
    if t.zone.Zoned? then Some(Stamp(t.instant, Zoned(tz)))
    else
      match lib.localizeNaive(t, tz)
      case None => None
      case Some(instant) => Some(Stamp(instant, Zoned(tz)))
  }

  /**
   * `astype(DatetimeTZDtype(tz))` of a column: zoned values are converted,
   * naive ones localised; a refused localisation raises TypeError.
   */
  function AsTypeZone(col: seq<Stamp>, tz: string, lib: TimeLib): (r: Result<seq<Stamp>>)
    ensures r.Success? <==> forall k :: 0 <= k < |col| ==> AsZone(col[k], tz, lib).Some?
    ensures r.Failure? ==> r.error == NaiveTimestamps
    ensures r.Success? ==> (|r.value| == |col| &&
      forall k :: 0 <= k < |col| ==> AsZone(col[k], tz, lib) == Some(r.value[k]))
  {
    match ParseColumn(col, (t: Stamp) => AsZone(t, tz, lib))
    case Some(c) => Success(c)
    case None => Failure(NaiveTimestamps)
  }
}
