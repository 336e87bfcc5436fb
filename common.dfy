/**
 * Values shared by every part of the model: optional values, results of
 * operations that the Python code lets raise, and the errors they raise.
 */
module Common {

  datatype Option<+T> = None | Some(value: T)

  /** An exception in the source becomes a `Failure`; nothing catches it
      unless the source says so. */
  datatype Result<+T> = Success(value: T) | Failure(error: Error)

  datatype Error =
    /** `pd.to_datetime` raised: the lenient parse failed too, or there was no fallback. */
    | TimestampUnparseable
    /** `tz_convert` or `astype` to a zoned dtype raised TypeError on tz-naive values. */
    | NaiveTimestamps
    /** `pd.concat` was given no frames at all and raised ValueError. */
    | NoObjectsToConcatenate
    /** `range(0, len(lst), 0)` raised ValueError. */
    | ZeroStep
    /** `DriveService.get_file` raised ValueError for this file id. */
    | FetchFailed(fileId: string)

  function Min(a: int, b: int): int { if a <= b then a else b }

  /** The concatenation of a sequence of tables, as `pd.concat` of frames. */
  function Flatten<T>(parts: seq<seq<T>>): (r: seq<T>)
    ensures |parts| == 0 ==> r == []
  {
    if |parts| == 0 then [] else Flatten(parts[..|parts| - 1]) + parts[|parts| - 1]
  }

  lemma {:induction false} FlattenAppend<T>(a: seq<seq<T>>, b: seq<seq<T>>)
    ensures Flatten(a + b) == Flatten(a) + Flatten(b)
    decreases |b|
  {
    if |b| == 0 {
      assert a + b == a;
    } else {
      var b' := b[..|b| - 1];
      assert (a + b)[..|a + b| - 1] == a + b';
      FlattenAppend(a, b');
    }
  }

  /** A row is in the concatenation exactly when it is in one of the parts. */
  lemma {:induction false} FlattenHas<T>(parts: seq<seq<T>>, x: T)
    ensures x in Flatten(parts) <==> exists k :: 0 <= k < |parts| && x in parts[k]
    decreases |parts|
  {
    if |parts| > 0 {
      var init := parts[..|parts| - 1];
      FlattenHas(init, x);
      if x in parts[|parts| - 1] {
        assert x in Flatten(parts);
      }
      if exists k :: 0 <= k < |init| && x in init[k] {
        var k :| 0 <= k < |init| && x in init[k];
        assert parts[k] == init[k];
      }
      if exists k :: 0 <= k < |parts| && x in parts[k] {
        var k :| 0 <= k < |parts| && x in parts[k];
        if k < |init| {
          assert init[k] == parts[k];
        }
      }
    }
  }

  /**
   * Applying a step that may raise to every item in order, as a generator
   * consumed by `pd.concat` does: the first failure stops everything.
   */
  function ProcessAll<X, R>(items: seq<X>, process: X -> Result<R>): (r: Result<seq<R>>)
    ensures r.Success? <==> forall k :: 0 <= k < |items| ==> process(items[k]).Success?
    ensures r.Success? ==> (|r.value| == |items| &&
      forall k :: 0 <= k < |items| ==> process(items[k]) == Success(r.value[k]))
    decreases |items|
  {
    if |items| == 0 then Success([])
    else
      match process(items[0])
      case Failure(e) => Failure(e)
      case Success(v) =>
        match ProcessAll(items[1..], process)
        case Failure(e) => Failure(e)
        case Success(vs) => Success([v] + vs)
  }

  /** The error is the one of the first item that fails. */
  lemma {:induction false} ProcessAllFirstFailure<X, R>(items: seq<X>, process: X -> Result<R>, k: nat)
    requires k < |items| && process(items[k]).Failure?
    requires forall j :: 0 <= j < k ==> process(items[j]).Success?
    ensures ProcessAll(items, process) == Failure(process(items[k]).error)
    decreases k
  {
    if k > 0 {
      ProcessAllFirstFailure(items[1..], process, k - 1);
    }
  }
}
