/**
 * What the publish steps share: the reference table that maps Geotab
 * devices to buses, the CSV text `DataFrame.to_csv(index=False)` writes,
 * and the name given to a snapshot of a view file.
 */
module Publish {
  import opened PyJson

  /**
   * One row of `geotab-mappings.csv`, with "Geotab Name" already renamed to
   * "Bus #" as `get_geotab_mappings_dataframe` does.
   */
  datatype GeotabMapping = GeotabMapping(device: string, bus: string)

  /**
   * The join key of a mapping row as seen from a telemetry row: the device
   * column of those rows holds what `get_id_from_json` returned, and only a
   * string equal to "Geotab Device" matches it.
   */
  function MappingKey(m: GeotabMapping): Json {
    JString(m.device)
  }

  // ---------------------------------------------------------------------
  // CSV text (QUOTE_MINIMAL, "," separator, "\n" line ends)
  // ---------------------------------------------------------------------

  predicate NeedsQuotes(field: string) {
    exists k :: 0 <= k < |field| && field[k] in {',', '"', '\n', '\r'}
  }

  /** A field with every `"` doubled. */
  function DoubleQuotes(field: string): (r: string)
    ensures |r| >= |field|
  {
    if |field| == 0 then []
    else (if field[0] == '"' then "\"\"" else [field[0]]) + DoubleQuotes(field[1..])
  }

  function CsvField(field: string): string {
    if NeedsQuotes(field) then "\"" + DoubleQuotes(field) + "\"" else field
  }

  function JoinFields(fields: seq<string>): string {
    if |fields| == 0 then []
    else if |fields| == 1 then CsvField(fields[0])
    else CsvField(fields[0]) + "," + JoinFields(fields[1..])
  }

  /** One record: its fields separated by commas, ended by a newline. */
  function CsvLine(fields: seq<string>): (r: string)
    ensures |r| > 0 && r[|r| - 1] == '\n'
  {
    JoinFields(fields) + "\n"
  }

  function CsvLines(rows: seq<seq<string>>): string {
    if |rows| == 0 then [] else CsvLines(rows[..|rows| - 1]) + CsvLine(rows[|rows| - 1])
  }

  /** `to_csv(index=False)`: the header line, then one line per row in order. */
  function Csv(header: seq<string>, rows: seq<seq<string>>): string {
    CsvLine(header) + CsvLines(rows)
  }

  /** Each extra row adds a non-empty line at the end of the text. */
  lemma CsvAppend(header: seq<string>, rows: seq<seq<string>>, row: seq<string>)
    ensures Csv(header, rows + [row]) == Csv(header, rows) + CsvLine(row)
    ensures |Csv(header, rows + [row])| > |Csv(header, rows)|
  {
    assert (rows + [row])[..|rows|] == rows;
  }

  // ---------------------------------------------------------------------
  // Snapshot names
  // ---------------------------------------------------------------------

  predicate OccursAt(s: string, sep: string, i: nat) {
    i + |sep| <= |s| && s[i..i + |sep|] == sep
  }

  /** The first place from i on where sep occurs in s, or |s| if there is none. */
  function FindFrom(s: string, sep: string, i: nat): (k: nat)
    requires i <= |s|
    ensures i <= k <= |s|
    ensures forall j :: i <= j < k ==> !OccursAt(s, sep, j)
    ensures k == |s| || OccursAt(s, sep, k)
    decreases |s| - i
  {
    if i == |s| || OccursAt(s, sep, i) then i else FindFrom(s, sep, i + 1)
  }

  /** `s.split(sep)[0]`: the text before the first occurrence of sep, or all of s. */
  function BeforeFirst(s: string, sep: string): (r: string)
    requires |sep| > 0
    ensures |r| <= |s| && r == s[..|r|]
    ensures forall j :: 0 <= j < |r| ==> !OccursAt(s, sep, j)
    ensures |r| == |s| || OccursAt(s, sep, |r|)
  {
    s[..FindFrom(s, sep, 0)]
  }

  /**
   * The snapshot name of a view file: the file name up to its first ".csv",
   * an underscore, the clock as `YYYY-MM-DD HH:MM`, then ".csv".
   */
  function SnapshotName(fileName: string, clock: string): string {
    BeforeFirst(fileName, ".csv") + "_" + clock + ".csv"
  }

  /** For an ordinary name `stem.csv` the snapshot is `stem_<clock>.csv`. */
  lemma SnapshotOfCsvName(stem: string, clock: string)
    requires forall k :: 0 <= k < |stem| ==> stem[k] != '.'
    ensures SnapshotName(stem + ".csv", clock) == stem + "_" + clock + ".csv"
  {
    var s := stem + ".csv";
    var r := BeforeFirst(s, ".csv");
    assert OccursAt(s, ".csv", |stem|) by {
      assert s[|stem|..|stem| + 4] == ".csv";
    }
    assert forall j :: 0 <= j < |stem| ==> !OccursAt(s, ".csv", j) by {
      forall j | 0 <= j < |stem| ensures !OccursAt(s, ".csv", j) {
        assert s[j] == stem[j];
      }
    }
  }
}
