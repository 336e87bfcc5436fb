/**
 * The small helpers of `data/utilities.py` (and the copy of
 * `get_id_from_json` in `data/metrics_transformation.py`).
 */
module Utilities {
  import opened Common
  import opened PyJson
  import opened Drive

  // ---------------------------------------------------------------------
  // get_id_from_json
  // ---------------------------------------------------------------------

  /** `x.replace("'", '"')`. */
  function ReplaceQuotes(x: string): (r: string)
    ensures |r| == |x|
    ensures forall k :: 0 <= k < |x| ==> r[k] == if x[k] == '\'' then '"' else x[k]
  {
    if |x| == 0 then []
    else [if x[0] == '\'' then '"' else x[0]] + ReplaceQuotes(x[1..])
  }

  /**
   * The device id in a cell such as `{'id':'b1'}`: the value under "id" of
   * the object the cell decodes to once single quotes become double quotes.
   * Any failure (not JSON, not an object, no "id") gives back the cell.
   */
  function GetIdFromJson(x: string): Json {
    match Loads(ReplaceQuotes(x))
    case Some(JObject(members)) =>
      (match Lookup(members, "id")
       case Some(v) => v
       case None => JString(x))
    case _ => JString(x)
  }

  /** Text that can sit between the quotes of a JSON string as it is. */
  predicate Plain(text: string) {
    forall k :: 0 <= k < |text| ==> text[k] != '\'' && text[k] != '"' && text[k] != '\\' && text[k] > '\U{1F}'
  }

  /** A string literal made of plain text decodes to that text. */
  lemma {:induction false} PlainStringFrom(s: string, i: nat, acc: string, text: string)
    requires i + |text| < |s| && s[i..i + |text|] == text && s[i + |text|] == '"' && Plain(text)
    ensures StringFrom(s, i, acc) == Some((acc + text, i + |text| + 1))
    decreases |text|
  {
    if |text| > 0 {
      assert s[i] == text[0];
      assert s[i + 1..i + 1 + |text[1..]|] == text[1..];
      PlainStringFrom(s, i + 1, acc + [text[0]], text[1..]);
      assert acc + [text[0]] + text[1..] == acc + text;
    } else {
      assert acc + text == acc;
    }
  }

  /** A one-member object written with single quotes, `{'K':'S'}`. */
  function OneMemberCell(key: string, text: string): string {
    "{'" + key + "':'" + text + "'}"
  }

  /** The text `{"K":"S"}`, character by character. */
  predicate OneMemberText(s: string, key: string, text: string) {
    var p := |key|;
    var n := |text|;
    && |s| == 7 + p + n
    && s[0] == '{' && s[1] == '"' && s[2 + p] == '"' && s[3 + p] == ':' && s[4 + p] == '"'
    && s[5 + p + n] == '"' && s[6 + p + n] == '}'
    && s[2..2 + p] == key
    && s[5 + p..5 + p + n] == text
  }

  /** Where the braces, quotes, key and text of `{'K':'S'}` sit. */
  predicate CellLayout(x: string, key: string, text: string) {
    var p := |key|;
    var n := |text|;
    && |x| == 7 + p + n
    && x[0] == '{' && x[1] == '\'' && x[2 + p] == '\'' && x[3 + p] == ':' && x[4 + p] == '\''
    && x[5 + p + n] == '\'' && x[6 + p + n] == '}'
    && (forall k :: 0 <= k < p ==> x[2 + k] == key[k])
    && (forall k :: 0 <= k < n ==> x[5 + p + k] == text[k])
  }

  lemma OneMemberCellLayout(key: string, text: string)
    ensures CellLayout(OneMemberCell(key, text), key, text)
  {
    var a := "{'" + key;
    var b := a + "':'";
    var c := b + text;
    assert OneMemberCell(key, text) == c + "'}";
  }

  /** Replacing the quotes of `{'K':'S'}` gives `{"K":"S"}`. */
  lemma OneMemberQuotes(key: string, text: string)
    requires Plain(key) && Plain(text)
    ensures OneMemberText(ReplaceQuotes(OneMemberCell(key, text)), key, text)
  {
    var x := OneMemberCell(key, text);
    OneMemberCellLayout(key, text);
    assert CellLayout(x, key, text);
    var s := ReplaceQuotes(x);
    var p := |key|;
    var n := |text|;
    assert s[2..2 + p] == key by {
      forall k | 0 <= k < p ensures s[2 + k] == key[k] {
        assert x[2 + k] == key[k];
      }
    }
    assert s[5 + p..5 + p + n] == text by {
      forall k | 0 <= k < n ensures s[5 + p + k] == text[k] {
        assert x[5 + p + k] == text[k];
      }
    }
  }

  /** The key of `{"K":"S"}` and its colon. */
  lemma OneMemberKey(s: string, key: string, text: string)
    requires Plain(key) && Plain(text) && OneMemberText(s, key, text)
    ensures KeyColon(s, 1) == Some((key, 4 + |key|))
  {
    var p := |key|;
    PlainStringFrom(s, 2, [], key);
    assert [] + key == key;
    SkipNone(s, 3 + p);
    SkipNone(s, 4 + p);
    KeyColonAt(s, 1, key, 3 + p);
  }

  /** The value of `{"K":"S"}`. */
  lemma OneMemberValue(s: string, key: string, text: string)
    requires Plain(key) && Plain(text) && OneMemberText(s, key, text)
    ensures Value(s, 4 + |key|) == Some((JString(text), 6 + |key| + |text|))
  {
    var p := |key|;
    var n := |text|;
    PlainStringFrom(s, 5 + p, [], text);
    assert [] + text == text;
    StringValue(s, 4 + p, text, 6 + p + n);
  }

  /** The member list of `{"K":"S"}`: one member, then the closing brace. */
  lemma OneMemberMembers(s: string, key: string, text: string)
    requires Plain(key) && Plain(text) && OneMemberText(s, key, text)
    ensures Members(s, 1, []) == Some((JObject([(key, JString(text))]), 7 + |key| + |text|))
  {
    var p := |key|;
    var n := |text|;
    OneMemberKey(s, key, text);
    OneMemberValue(s, key, text);
    SkipNone(s, 6 + p + n);
    LastMember(s, 1, [], key, 4 + p, JString(text), 6 + p + n);
    assert [] + [(key, JString(text))] == [(key, JString(text))];
  }

  /** `{"K":"S"}` decodes to the object {K: S}. */
  lemma OneMemberParse(s: string, key: string, text: string)
    requires Plain(key) && Plain(text) && OneMemberText(s, key, text)
    ensures Loads(s) == Some(JObject([(key, JString(text))]))
  {
    OneMemberMembers(s, key, text);
    SkipNone(s, 1);
    SkipNone(s, 0);
    ObjectValue(s, 0);
    LoadsValue(s, JObject([(key, JString(text))]), |s|);
  }

  /** `{'K':'S'}` decodes, once its quotes are replaced, to the object {K: S}. */
  lemma OneMemberLoads(key: string, text: string)
    requires Plain(key) && Plain(text)
    ensures Loads(ReplaceQuotes(OneMemberCell(key, text))) == Some(JObject([(key, JString(text))]))
  {
    OneMemberQuotes(key, text);
    OneMemberParse(ReplaceQuotes(OneMemberCell(key, text)), key, text);
  }

  /** `{'id':'S'}` yields S whenever S needs no escaping. */
  lemma IdRoundTrip(text: string)
    requires Plain(text)
    ensures GetIdFromJson(OneMemberCell("id", text)) == JString(text)
  {
    OneMemberLoads("id", text);
    assert Lookup([("id", JString(text))], "id") == Some(JString(text));
  }

  /** An object whose only key is not "id" leaves the cell as it is. */
  lemma MissingIdKept(key: string, text: string)
    requires Plain(key) && Plain(text) && key != "id"
    ensures GetIdFromJson(OneMemberCell(key, text)) == JString(OneMemberCell(key, text))
  {
    OneMemberLoads(key, text);
    assert Lookup([(key, JString(text))], "id") == None;
  }

  /** A cell with no `{` cannot decode to an object, so it is returned unchanged. */
  lemma NonObjectKept(x: string)
    requires forall k :: 0 <= k < |x| ==> x[k] != '{'
    ensures GetIdFromJson(x) == JString(x)
  {
    var s := ReplaceQuotes(x);
    if Loads(s).Some? && Loads(s).value.JObject? {
      LoadsObject(s);
    }
  }

  /** `{"K":}`: a member with no value is not JSON. */
  lemma MissingValueRejected(s: string, key: string)
    requires Plain(key) && |s| == 5 + |key|
    requires s[0] == '{' && s[1] == '"' && s[2..2 + |key|] == key
    requires s[2 + |key|] == '"' && s[3 + |key|] == ':' && s[4 + |key|] == '}'
    ensures Loads(s) == None
  {
    var p := |key|;
    PlainStringFrom(s, 2, [], key);
    assert [] + key == key;
    SkipNone(s, 3 + p);
    SkipNone(s, 4 + p);
    SkipNone(s, 1);
    SkipNone(s, 0);
    KeyColonAt(s, 1, key, 3 + p);
    assert NumberEnd(s, 4 + p) == None;
    BadMember(s, 1, [], key, 4 + p);
    ObjectValue(s, 0);
  }

  /** A member written with no value, `{'K':}`. */
  function NoValueCell(key: string): string {
    "{'" + key + "':}"
  }

  /** `{'K':}`, such as `{'id':}`, is not JSON: the cell itself is the id. */
  lemma MalformedKept(key: string)
    requires Plain(key)
    ensures GetIdFromJson(NoValueCell(key)) == JString(NoValueCell(key))
  {
    var x := NoValueCell(key);
    var p := |key|;
    assert x == ("{'" + key) + "':}";
    assert |x| == 5 + p;
    assert x[0] == '{' && x[1] == '\'' && x[2 + p] == '\'' && x[3 + p] == ':' && x[4 + p] == '}';
    var s := ReplaceQuotes(x);
    assert s[2..2 + p] == key by {
      forall k | 0 <= k < p ensures s[2 + k] == key[k] {
        assert x[2 + k] == key[k];
      }
    }
    MissingValueRejected(s, key);
  }


  // ---------------------------------------------------------------------
  // chunk_list
  // ---------------------------------------------------------------------

  /**
   * The chunks of a list for a positive step: the first n items, then the
   * chunks of the rest.
   */
  function Chunks<T>(lst: seq<T>, n: nat): seq<seq<T>>
    requires n > 0
    decreases |lst|
  {
    if |lst| == 0 then []
    else [lst[..Min(n, |lst|)]] + Chunks(lst[Min(n, |lst|)..], n)
  }

  /** `chunk_list(lst, n)`: a zero step is an error, a negative one gives no chunks. */
  function ChunkList<T>(lst: seq<T>, n: int): (r: Result<seq<seq<T>>>)
    ensures r.Failure? <==> n == 0
    ensures n < 0 ==> r == Success([])
    ensures n > 0 ==> r == Success(Chunks(lst, n))
  {
    if n == 0 then Failure(ZeroStep)
    else if n < 0 then Success([])
    else Success(Chunks(lst, n))
  }

  /**
   * Chunk k exists exactly when k*n is a start in `range(0, len(lst), n)`,
   * and it is `lst[k*n:k*n + n]`.
   */
  lemma {:induction false} ChunkAt<T>(lst: seq<T>, n: nat, k: nat)
    requires n > 0
    ensures k < |Chunks(lst, n)| <==> k * n < |lst|
    ensures k < |Chunks(lst, n)| ==> Chunks(lst, n)[k] == lst[k * n..Min(k * n + n, |lst|)]
    decreases k
  {
    if |lst| == 0 {
      assert k * n >= 0;
    } else if k > 0 {
      var prev := (k - 1) * n;
      assert prev >= 0 && k * n == prev + n by {
        assert (k - 1) * n + n == k * n;
      }
      if |lst| <= n {
        ChunkShift(lst, n, k - 1);
      } else {
        ChunkAt(lst[n..], n, k - 1);
        ChunkShift(lst, n, k - 1);
        if prev < |lst| - n {
          SliceShift(lst, n, prev);
        }
      }
    }
  }

  /** Chunk j + 1 of a list is chunk j of what follows its first chunk. */
  lemma ChunkShift<T>(lst: seq<T>, n: nat, j: nat)
    requires n > 0 && |lst| > 0
    ensures |lst| <= n ==> |Chunks(lst, n)| == 1
    ensures |lst| > n ==> (j + 1 < |Chunks(lst, n)| <==> j < |Chunks(lst[n..], n)|)
    ensures |lst| > n && j < |Chunks(lst[n..], n)| ==> Chunks(lst, n)[j + 1] == Chunks(lst[n..], n)[j]
  {
  }

  /** A slice of the tail after n items is the slice of the list shifted by n. */
  lemma SliceShift<T>(lst: seq<T>, n: nat, p: nat)
    requires |lst| > n && p < |lst| - n
    ensures lst[n..][p..Min(p + n, |lst| - n)] == lst[p + n..Min(p + n + n, |lst|)]
  {
  }

  /** The chunks are exactly the slices of `chunk_list`, for every index. */
  lemma ChunksAreSlices<T>(lst: seq<T>, n: nat)
    requires n > 0
    ensures forall k: nat :: k < |Chunks(lst, n)| <==> k * n < |lst|
    ensures forall k :: 0 <= k < |Chunks(lst, n)| ==>
      Chunks(lst, n)[k] == lst[k * n..Min(k * n + n, |lst|)]
  {
    forall k: nat ensures k < |Chunks(lst, n)| <==> k * n < |lst| {
      ChunkAt(lst, n, k);
    }
    forall k | 0 <= k < |Chunks(lst, n)| ensures Chunks(lst, n)[k] == lst[k * n..Min(k * n + n, |lst|)] {
      ChunkAt(lst, n, k);
    }
  }

  /** Joining the chunks gives back the list. */
  lemma {:induction false} ChunksFlatten<T>(lst: seq<T>, n: nat)
    requires n > 0
    ensures Flatten(Chunks(lst, n)) == lst
    decreases |lst|
  {
    if |lst| > 0 {
      var m := Min(n, |lst|);
      ChunksFlatten(lst[m..], n);
      FlattenAppend([lst[..m]], Chunks(lst[m..], n));
      assert Flatten([lst[..m]]) == Flatten([]) + lst[..m];
      assert lst == lst[..m] + lst[m..];
    }
  }

  /** Every chunk has n items except the last, which has between 1 and n. */
  lemma {:induction false} ChunkLengths<T>(lst: seq<T>, n: nat)
    requires n > 0
    ensures var c := Chunks(lst, n);
      && (forall k :: 0 <= k < |c| - 1 ==> |c[k]| == n)
      && (|c| > 0 ==> 1 <= |c[|c| - 1]| <= n)
      && (|c| == 0 <==> |lst| == 0)
    decreases |lst|
  {
    if |lst| > 0 {
      var m := Min(n, |lst|);
      ChunkLengths(lst[m..], n);
    }
  }

  // ---------------------------------------------------------------------
  // get_raw_data_file_ids
  // ---------------------------------------------------------------------

  /**
   * The ids of a folder listing, in listing order. A listing that failed
   * (`None`) counts as an empty folder.
   */
  function GetRawDataFileIds(listing: Option<seq<FileEntry>>): (ids: seq<string>)
    ensures listing.None? ==> ids == []
    ensures listing.Some? ==> |ids| == |listing.value|
    ensures listing.Some? ==> forall k :: 0 <= k < |ids| ==> ids[k] == listing.value[k].id
  {
    match listing
    case None => []
    case Some(entries) => Ids(entries)
  }

  /** The id of each entry, in order. */
  function Ids(entries: seq<FileEntry>): (ids: seq<string>)
    ensures |ids| == |entries|
    ensures forall k :: 0 <= k < |ids| ==> ids[k] == entries[k].id
  {
    if |entries| == 0 then [] else [entries[0].id] + Ids(entries[1..])
  }
}
