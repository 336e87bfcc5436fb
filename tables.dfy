/**
 * The pandas frame operations the pipeline relies on, stated over a table
 * modelled as a sequence of rows:
 *  - `drop_duplicates(keep="first")`           -> Dedup
 *  - `sort_values(by=[a, b])` (stable)          -> SortBy, on a key of two strings
 *  - `concat + sort_values + drop_duplicates`   -> Merge
 *  - `merge` (inner join, left order kept)      -> Join
 *  - column selection on every row              -> Project
 *  - `df.loc[mask]`                             -> Filter
 */
module Tables {

  // ---------------------------------------------------------------------
  // Keep-first duplicate removal
  // ---------------------------------------------------------------------

  predicate NoDups<T(==)>(s: seq<T>) {
    forall i, j :: 0 <= i < j < |s| ==> s[i] != s[j]
  }

  /** Position of the first occurrence of `x` in `s`. */
  function FirstIndex<T(==)>(s: seq<T>, x: T): (k: nat)
    requires x in s
    ensures k < |s| && s[k] == x && x !in s[..k]
  {
    if s[0] == x then 0
    else
      var k' := FirstIndex(s[1..], x);
      assert s[..k' + 1] == [s[0]] + s[1..][..k'];
      k' + 1
  }

  /** An occurrence with no earlier copy is the first occurrence. */
  lemma {:induction false} FirstIndexAt<T>(s: seq<T>, x: T, k: nat)
    requires k < |s| && s[k] == x && x !in s[..k]
    ensures FirstIndex(s, x) == k
  {
    if k > 0 {
      assert s[0] == s[..k][0];
      assert s[1..][..k - 1] == s[..k][1..];
      FirstIndexAt(s[1..], x, k - 1);
    }
  }

  /** A row found in p is found at the same place in any extension of p. */
  lemma FirstIndexInPrefix<T>(p: seq<T>, q: seq<T>, y: T)
    requires y in p
    ensures FirstIndex(p + q, y) == FirstIndex(p, y)
  {
    var k := FirstIndex(p, y);
    assert (p + q)[..k] == p[..k];
    FirstIndexAt(p + q, y, k);
  }

  /**
   * `drop_duplicates(keep="first")`: each distinct row once, at the place of
   * its first occurrence (DedupOrder); these properties determine the result
   * uniquely (DedupUnique).
   */
  function Dedup<T(==,!new)>(s: seq<T>): (r: seq<T>)
    ensures forall x :: x in r <==> x in s
    ensures NoDups(r)
  {
    if |s| == 0 then []
    else
      var init := s[..|s| - 1];
      var x := s[|s| - 1];
      assert s == init + [x];
      if x in init then Dedup(init) else Dedup(init) + [x]
  }

  /** The rows of r, all found in s, come in the order of their first occurrences in s. */
  ghost predicate InFirstOccurrenceOrder<T>(s: seq<T>, r: seq<T>) {
    && (forall x :: x in r ==> x in s)
    && (forall i, j :: 0 <= i < j < |r| ==> FirstIndex(s, r[i]) < FirstIndex(s, r[j]))
  }

  /** Dedup keeps rows in the order of their first occurrences. */
  lemma {:induction false} DedupOrder<T(!new)>(s: seq<T>)
    ensures InFirstOccurrenceOrder(s, Dedup(s))
  {
    if |s| > 0 {
      var init := s[..|s| - 1];
      var x := s[|s| - 1];
      assert s == init + [x];
      var d := Dedup(init);
      var r := Dedup(s);
      DedupOrder(init);
      if x in init {
        assert r == d;
        forall i, j | 0 <= i < j < |r| ensures FirstIndex(s, r[i]) < FirstIndex(s, r[j]) {
          assert FirstIndex(init, d[i]) < FirstIndex(init, d[j]);
          FirstIndexInPrefix(init, [x], r[i]);
          FirstIndexInPrefix(init, [x], r[j]);
        }
      } else {
        assert r == d + [x];
        FirstIndexAt(s, x, |s| - 1);
        forall i, j | 0 <= i < j < |r| ensures FirstIndex(s, r[i]) < FirstIndex(s, r[j]) {
          assert r[i] == d[i] && d[i] in init;
          FirstIndexInPrefix(init, [x], r[i]);
          if j < |d| {
            assert r[j] == d[j];
            assert FirstIndex(init, d[i]) < FirstIndex(init, d[j]);
            FirstIndexInPrefix(init, [x], r[j]);
          }
        }
      }
    }
  }

  lemma {:induction false} DedupOfDistinct<T(!new)>(s: seq<T>)
    requires NoDups(s)
    ensures Dedup(s) == s
  {
    if |s| > 0 {
      var init := s[..|s| - 1];
      assert NoDups(init);
      DedupOfDistinct(init);
      assert s[|s| - 1] !in init;
      assert s == init + [s[|s| - 1]];
    }
  }

  /** Dedup is idempotent, and leaves a duplicate-free table as it is. */
  lemma DedupIdempotent<T(!new)>(s: seq<T>)
    ensures Dedup(Dedup(s)) == Dedup(s)
  {
    DedupOfDistinct(Dedup(s));
  }

  /** Dropping a later copy of a row that already occurred changes nothing. */
  lemma {:induction false} DedupSkipsRepeat<T(!new)>(a: seq<T>, x: T, b: seq<T>)
    requires x in a
    ensures Dedup(a + [x] + b) == Dedup(a + b)
    decreases |b|
  {
    if |b| == 0 {
      assert (a + [x] + b)[..|a|] == a;
      assert a + b == a;
    } else {
      var b' := b[..|b| - 1];
      var z := b[|b| - 1];
      assert (a + [x] + b)[..|a + [x] + b| - 1] == a + [x] + b';
      assert (a + b)[..|a + b| - 1] == a + b';
      DedupSkipsRepeat(a, x, b');
    }
  }

  /** Any duplicate-free table of the rows of s in first-occurrence order is Dedup(s). */
  lemma {:induction false} DedupUnique<T(!new)>(s: seq<T>, r: seq<T>)
    requires forall x :: x in s ==> x in r
    requires NoDups(r)
    requires InFirstOccurrenceOrder(s, r)
    ensures r == Dedup(s)
    decreases |s|
  {
    if |s| == 0 {
      if |r| > 0 {
        HeadIn(r);
        assert false;
      }
    } else {
      var init := s[..|s| - 1];
      var x := s[|s| - 1];
      assert s == init + [x];
      if x in init {
        UniqueWhenLastRepeats(s, r);
        DedupUnique(init, r);
      } else {
        var r' := UniqueWhenLastIsNew(s, r);
        DedupUnique(init, r');
      }
    }
  }

  lemma UniqueWhenLastRepeats<T>(s: seq<T>, r: seq<T>)
    requires |s| > 0 && s[|s| - 1] in s[..|s| - 1]
    requires forall x :: x in s ==> x in r
    requires InFirstOccurrenceOrder(s, r)
    ensures forall x :: x in s[..|s| - 1] ==> x in r
    ensures InFirstOccurrenceOrder(s[..|s| - 1], r)
  {
    var init := s[..|s| - 1];
    var x := s[|s| - 1];
    assert s == init + [x];
    assert forall y :: y in r ==> y in init;
    forall i, j | 0 <= i < j < |r| ensures FirstIndex(init, r[i]) < FirstIndex(init, r[j]) {
      assert FirstIndex(s, r[i]) < FirstIndex(s, r[j]);
      FirstIndexInPrefix(init, [x], r[i]);
      FirstIndexInPrefix(init, [x], r[j]);
    }
  }

  lemma NewLastIsLast<T>(s: seq<T>, r: seq<T>)
    requires |s| > 0 && s[|s| - 1] !in s[..|s| - 1]
    requires forall x :: x in s ==> x in r
    requires InFirstOccurrenceOrder(s, r)
    ensures |r| > 0 && r[|r| - 1] == s[|s| - 1]
  {
    var x := s[|s| - 1];
    FirstIndexAt(s, x, |s| - 1);
    assert x in r;
    var m :| 0 <= m < |r| && r[m] == x;
    var z := r[|r| - 1];
    assert z in s;
    assert FirstIndex(s, z) <= |s| - 1;
  }

  /** When the last row of s is new, it is the last row of r, and the rest of r matches the rest of s. */
  lemma UniqueWhenLastIsNew<T>(s: seq<T>, r: seq<T>) returns (r': seq<T>)
    requires |s| > 0 && s[|s| - 1] !in s[..|s| - 1]
    requires forall x :: x in s ==> x in r
    requires NoDups(r)
    requires InFirstOccurrenceOrder(s, r)
    ensures r == r' + [s[|s| - 1]]
    ensures forall x :: x in s[..|s| - 1] ==> x in r'
    ensures NoDups(r')
    ensures InFirstOccurrenceOrder(s[..|s| - 1], r')
  {
    var init := s[..|s| - 1];
    var x := s[|s| - 1];
    NewLastIsLast(s, r);
    r' := r[..|r| - 1];
    assert r == r' + [x];
    assert forall y :: y in init ==> y in r' by {
      forall y | y in init ensures y in r' {
        assert y in s;
        var n :| 0 <= n < |r| && r[n] == y;
        assert r'[n] == y;
      }
    }
    assert NoDups(r') by {
      assert forall i :: 0 <= i < |r'| ==> r'[i] == r[i];
    }
    PrefixOrder(s, r);
  }

  lemma PrefixOrder<T>(s: seq<T>, r: seq<T>)
    requires |s| > 0 && |r| > 0 && r[|r| - 1] == s[|s| - 1]
    requires NoDups(r)
    requires InFirstOccurrenceOrder(s, r)
    ensures InFirstOccurrenceOrder(s[..|s| - 1], r[..|r| - 1])
  {
    var init := s[..|s| - 1];
    var x := s[|s| - 1];
    var r' := r[..|r| - 1];
    assert s == init + [x];
    forall y | y in r' ensures y in init {
      var n :| 0 <= n < |r'| && r'[n] == y;
      assert r[n] == y && y in s;
    }
    forall i, j | 0 <= i < j < |r'| ensures FirstIndex(init, r'[i]) < FirstIndex(init, r'[j]) {
      assert r'[i] == r[i] && r'[j] == r[j];
      assert FirstIndex(s, r[i]) < FirstIndex(s, r[j]);
      FirstIndexInPrefix(init, [x], r[i]);
      FirstIndexInPrefix(init, [x], r[j]);
    }
  }

  lemma HeadIn<T>(r: seq<T>)
    requires |r| > 0
    ensures r[0] in r
  {
  }

  /** Dedup of `p + [x] + q` when everything in q already occurred in `p + [x]`. */
  lemma {:induction false} DedupTail<T(!new)>(p: seq<T>, x: T, q: seq<T>)
    requires x !in p
    requires forall y :: y in q ==> y in p || y == x
    ensures Dedup(p + [x] + q) == Dedup(p) + [x]
    decreases |q|
  {
    if |q| == 0 {
      assert (p + [x] + q)[..|p|] == p;
      assert p + [x] + q == p + [x];
    } else {
      var q' := q[..|q| - 1];
      assert (p + [x] + q)[..|p + [x] + q| - 1] == p + [x] + q';
      DedupTail(p, x, q');
      assert q[|q| - 1] in q;
    }
  }

  // ---------------------------------------------------------------------
  // Ordering of sort keys: Python compares strings code point by code point
  // ---------------------------------------------------------------------

  /** Python's `a <= b` on str. */
  predicate StrLe(a: string, b: string) {
    |a| == 0 || (|b| > 0 && (a[0] < b[0] || (a[0] == b[0] && StrLe(a[1..], b[1..]))))
  }

  lemma {:induction false} StrLeTotal(a: string, b: string)
    ensures StrLe(a, b) || StrLe(b, a)
  {
    if |a| > 0 && |b| > 0 && a[0] == b[0] { StrLeTotal(a[1..], b[1..]); }
  }

  lemma {:induction false} StrLeTrans(a: string, b: string, c: string)
    requires StrLe(a, b) && StrLe(b, c)
    ensures StrLe(a, c)
  {
    if |a| > 0 && a[0] == b[0] && b[0] == c[0] { StrLeTrans(a[1..], b[1..], c[1..]); }
  }

  lemma {:induction false} StrLeAntisym(a: string, b: string)
    requires StrLe(a, b) && StrLe(b, a)
    ensures a == b
  {
    if |a| > 0 {
      StrLeAntisym(a[1..], b[1..]);
      assert a == [a[0]] + a[1..] && b == [b[0]] + b[1..];
    }
  }

  lemma {:induction false} StrLeRefl(a: string)
    ensures StrLe(a, a)
  {
    if |a| > 0 { StrLeRefl(a[1..]); }
  }

  /** The sort key of a row: the two columns given to `sort_values(by=...)`. */
  type Key = (string, string)

  /** Lexicographic order on the two columns. */
  predicate KeyLe(k: Key, l: Key) {
    (k.0 != l.0 && StrLe(k.0, l.0)) || (k.0 == l.0 && StrLe(k.1, l.1))
  }

  lemma KeyLeTotal(k: Key, l: Key)
    ensures KeyLe(k, l) || KeyLe(l, k)
  {
    StrLeTotal(k.0, l.0);
    StrLeTotal(k.1, l.1);
  }

  lemma KeyLeRefl(k: Key)
    ensures KeyLe(k, k)
  {
    StrLeRefl(k.1);
  }

  lemma KeyLeTrans(k: Key, l: Key, m: Key)
    requires KeyLe(k, l) && KeyLe(l, m)
    ensures KeyLe(k, m)
  {
    if k.0 != l.0 && l.0 != m.0 {
      StrLeTrans(k.0, l.0, m.0);
      if k.0 == m.0 { StrLeAntisym(k.0, l.0); }
    } else if k.0 == l.0 && l.0 == m.0 {
      StrLeTrans(k.1, l.1, m.1);
    }
  }

  predicate SortedBy<T>(s: seq<T>, key: T -> Key) {
    forall i, j :: 0 <= i < j < |s| ==> KeyLe(key(s[i]), key(s[j]))
  }

  // ---------------------------------------------------------------------
  // Stable sort: insertion after every row whose key is not greater
  // ---------------------------------------------------------------------

  /** Insert `x` after the last row whose key is not greater than x's. */
  function InsertBy<T>(s: seq<T>, x: T, key: T -> Key): seq<T> {
    if |s| == 0 then [x]
    else if KeyLe(key(s[|s| - 1]), key(x)) then s + [x]
    else InsertBy(s[..|s| - 1], x, key) + [s[|s| - 1]]
  }

  /** `sort_values(by=[..])`: stable (pandas sorts on several columns with a lexsort). */
  function SortBy<T>(s: seq<T>, key: T -> Key): (r: seq<T>)
    ensures multiset(r) == multiset(s)
    ensures SortedBy(r, key)
  {
    if |s| == 0 then []
    else
      var t := SortBy(s[..|s| - 1], key);
      InsertByProps(t, s[|s| - 1], key);
      assert s == s[..|s| - 1] + [s[|s| - 1]];
      InsertBy(t, s[|s| - 1], key)
  }

  /** Inserting into a sorted table puts x after every row with a key not above its own. */
  lemma {:induction false} InsertSplits<T>(s: seq<T>, x: T, key: T -> Key) returns (k: nat)
    requires SortedBy(s, key)
    ensures k <= |s| && InsertBy(s, x, key) == s[..k] + [x] + s[k..]
    ensures forall i :: 0 <= i < k ==> KeyLe(key(s[i]), key(x))
    ensures forall i :: k <= i < |s| ==> !KeyLe(key(s[i]), key(x))
    decreases |s|
  {
    if |s| == 0 {
      k := 0;
    } else {
      var init := s[..|s| - 1];
      var last := s[|s| - 1];
      if KeyLe(key(last), key(x)) {
        k := |s|;
        assert s[..|s|] == s;
        forall i | 0 <= i < |s| - 1 ensures KeyLe(key(s[i]), key(x)) {
          KeyLeTrans(key(s[i]), key(last), key(x));
        }
      } else {
        assert SortedBy(init, key);
        k := InsertSplits(init, x, key);
        assert s[..k] == init[..k];
        assert s[k..] == init[k..] + [last];
        assert forall i :: k <= i < |s| - 1 ==> s[i] == init[i];
      }
    }
  }

  /** Insertion into a sorted table adds exactly x and keeps it sorted. */
  lemma InsertByProps<T>(s: seq<T>, x: T, key: T -> Key)
    requires SortedBy(s, key)
    ensures multiset(InsertBy(s, x, key)) == multiset(s) + multiset{x}
    ensures SortedBy(InsertBy(s, x, key), key)
  {
    var k := InsertSplits(s, x, key);
    var r := InsertBy(s, x, key);
    assert s == s[..k] + s[k..];
    forall i, j | 0 <= i < j < |r| ensures KeyLe(key(r[i]), key(r[j])) {
      if j < k || i > k {
      } else if i == k {
        KeyLeTotal(key(x), key(s[j - 1]));
      } else if j == k {
      } else {
      }
    }
  }

  /** A table that is already sorted is left as it is by the stable sort. */
  lemma {:induction false} SortBySorted<T>(s: seq<T>, key: T -> Key)
    requires SortedBy(s, key)
    ensures SortBy(s, key) == s
  {
    if |s| > 0 {
      var init := s[..|s| - 1];
      var last := s[|s| - 1];
      SortedInit(s, key);
      SortBySorted(init, key);
      SortByLast(s, key);
      InsertAtEnd(init, last, key);
      assert s == init + [last];
    }
  }

  /** Dropping the last row keeps a table sorted, and that row's key is the largest. */
  lemma SortedInit<T>(s: seq<T>, key: T -> Key)
    requires SortedBy(s, key) && |s| > 0
    ensures SortedBy(s[..|s| - 1], key)
    ensures var init := s[..|s| - 1]; |init| == 0 || KeyLe(key(init[|init| - 1]), key(s[|s| - 1]))
  {
  }

  lemma SortByLast<T>(s: seq<T>, key: T -> Key)
    requires |s| > 0
    ensures SortBy(s, key) == InsertBy(SortBy(s[..|s| - 1], key), s[|s| - 1], key)
  {
  }

  lemma InsertAtEnd<T>(s: seq<T>, x: T, key: T -> Key)
    requires |s| == 0 || KeyLe(key(s[|s| - 1]), key(x))
    ensures InsertBy(s, x, key) == s + [x]
  {
  }

  lemma SortByAppend<T>(s: seq<T>, x: T, key: T -> Key)
    ensures SortBy(s + [x], key) == InsertBy(SortBy(s, key), x, key)
  {
    assert (s + [x])[..|s|] == s;
  }

  // ---------------------------------------------------------------------
  // The publish merge: concat, sort, drop duplicates, reset the index
  // ---------------------------------------------------------------------

  function Merge<T(==,!new)>(current: seq<T>, incoming: seq<T>, key: T -> Key): seq<T> {
    Dedup(SortBy(current + incoming, key))
  }

  /** Every distinct row of either table appears exactly once, in key order. */
  lemma MergeContents<T(!new)>(current: seq<T>, incoming: seq<T>, key: T -> Key)
    ensures var m := Merge(current, incoming, key);
      && (forall x :: x in m <==> x in current || x in incoming)
      && NoDups(m)
      && SortedBy(m, key)
  {
    var s := SortBy(current + incoming, key);
    forall x ensures x in s <==> x in current || x in incoming {
      assert x in s <==> x in multiset(s);
      assert x in current + incoming <==> x in multiset(current + incoming);
    }
    DedupSorted(s, key);
  }

  /** Dropping duplicates from a sorted table leaves it sorted. */
  lemma DedupSorted<T(!new)>(s: seq<T>, key: T -> Key)
    requires SortedBy(s, key)
    ensures SortedBy(Dedup(s), key)
  {
    var m := Dedup(s);
    DedupOrder(s);
    forall i, j | 0 <= i < j < |m| ensures KeyLe(key(m[i]), key(m[j])) {
      var fi, fj := FirstIndex(s, m[i]), FirstIndex(s, m[j]);
      assert fi < fj;
      assert s[fi] == m[i] && s[fj] == m[j];
    }
  }

  /**
   * Publishing rows that are all already in a sorted, duplicate-free current
   * view gives back the current view unchanged (so no snapshot is taken).
   * Relies on the sort being stable: an old row stays before its new copy.
   */
  lemma {:induction false} MergeOfKnownRows<T(!new)>(current: seq<T>, incoming: seq<T>, key: T -> Key)
    requires SortedBy(current, key) && NoDups(current)
    requires forall x :: x in incoming ==> x in current
    ensures Merge(current, incoming, key) == current
    decreases |incoming|
  {
    if |incoming| == 0 {
      assert current + incoming == current;
      SortBySorted(current, key);
      DedupOfDistinct(current);
    } else {
      var n' := incoming[..|incoming| - 1];
      var y := incoming[|incoming| - 1];
      MergeOfKnownRows(current, n', key);
      assert current + incoming == (current + n') + [y];
      SortByAppend(current + n', y, key);
      var t := SortBy(current + n', key);
      assert y in t by {
        assert y in current;
        assert y in multiset(current + n');
      }
      DedupInsertKnown(t, y, key);
    }
  }

  /** Sorting in one more copy of a row already present does not change the deduplicated table. */
  lemma DedupInsertKnown<T(!new)>(t: seq<T>, y: T, key: T -> Key)
    requires SortedBy(t, key) && y in t
    ensures Dedup(InsertBy(t, y, key)) == Dedup(t)
  {
    var k := InsertSplits(t, y, key);
    var p :| 0 <= p < |t| && t[p] == y;
    KeyLeRefl(key(y));
    assert p < k;
    var a := t[..k];
    assert y in a by { assert a[p] == y; }
    assert t == a + t[k..];
    DedupSkipsRepeat(a, y, t[k..]);
  }

  // ---------------------------------------------------------------------
  // Inner join, as `left.merge(right, left_on=.., right_on=..)`
  // ---------------------------------------------------------------------

  /** The pairs one left row forms: every right row with an equal key, in right order. */
  function Matches<L, R, K(==)>(l: L, right: seq<R>, lkey: L -> K, rkey: R -> K): seq<(L, R)> {
    if |right| == 0 then []
    else
      var last := right[|right| - 1];
      Matches(l, right[..|right| - 1], lkey, rkey) + (if lkey(l) == rkey(last) then [(l, last)] else [])
  }

  /** Inner join: for each left row in order, its pairs with the matching right rows. */
  function Join<L, R, K(==)>(left: seq<L>, right: seq<R>, lkey: L -> K, rkey: R -> K): seq<(L, R)> {
    if |left| == 0 then []
    else Join(left[..|left| - 1], right, lkey, rkey) + Matches(left[|left| - 1], right, lkey, rkey)
  }

  lemma {:induction false} MatchesCount<L, R, K>(l: L, right: seq<R>, lkey: L -> K, rkey: R -> K, p: (L, R))
    ensures multiset(Matches(l, right, lkey, rkey))[p] ==
            if p.0 == l && lkey(l) == rkey(p.1) then multiset(right)[p.1] else 0
    decreases |right|
  {
    if |right| > 0 {
      var init := right[..|right| - 1];
      MatchesCount(l, init, lkey, rkey, p);
      assert right == init + [right[|right| - 1]];
    }
  }

  /**
   * A pair (l, r) occurs in the join once for every copy of l on the left and
   * every copy of r on the right, when their keys are equal; never otherwise.
   * In particular a left row whose key no right row has is dropped.
   */
  lemma {:induction false} JoinCount<L, R, K>(left: seq<L>, right: seq<R>, lkey: L -> K, rkey: R -> K, p: (L, R))
    ensures multiset(Join(left, right, lkey, rkey))[p] ==
            if lkey(p.0) == rkey(p.1) then multiset(left)[p.0] * multiset(right)[p.1] else 0
    decreases |left|
  {
    if |left| > 0 {
      var init := left[..|left| - 1];
      var l := left[|left| - 1];
      JoinCount(init, right, lkey, rkey, p);
      MatchesCount(l, right, lkey, rkey, p);
      JoinLastCount(left, right, lkey, rkey, p);
      var a := multiset(init)[p.0];
      var b := multiset(right)[p.1];
      var n := multiset(Join(init, right, lkey, rkey))[p];
      var m := multiset(Matches(l, right, lkey, rkey))[p];
      if lkey(p.0) != rkey(p.1) {
        assert n == 0 && m == 0;
      } else if l == p.0 {
        assert multiset(left)[p.0] == a + 1;
        assert n + m == a * b + b;
        MulSucc(a, b);
      } else {
        assert multiset(left)[p.0] == a;
        assert m == 0;
      }
    }
  }

  /** The last left row adds its own pairs to the count and changes no other row's. */
  lemma JoinLastCount<L, R, K>(left: seq<L>, right: seq<R>, lkey: L -> K, rkey: R -> K, p: (L, R))
    requires |left| > 0
    ensures var init := left[..|left| - 1];
      var l := left[|left| - 1];
      && multiset(Join(left, right, lkey, rkey))[p] ==
           multiset(Join(init, right, lkey, rkey))[p] + multiset(Matches(l, right, lkey, rkey))[p]
      && multiset(left)[p.0] == multiset(init)[p.0] + (if l == p.0 then 1 else 0)
  {
    var init := left[..|left| - 1];
    assert left == init + [left[|left| - 1]];
  }

  lemma MulSucc(a: nat, b: nat)
    ensures (a + 1) * b == a * b + b
  {
  }

  /** Every joined pair has equal keys and comes from the two tables. */
  lemma {:induction false} JoinPairs<L, R, K>(left: seq<L>, right: seq<R>, lkey: L -> K, rkey: R -> K)
    ensures forall p :: p in Join(left, right, lkey, rkey) ==> p.0 in left && p.1 in right && lkey(p.0) == rkey(p.1)
    decreases |left|
  {
    if |left| > 0 {
      var init := left[..|left| - 1];
      var l := left[|left| - 1];
      JoinPairs(init, right, lkey, rkey);
      MatchesPairs(l, right, lkey, rkey);
      assert left == init + [l];
    }
  }

  lemma {:induction false} MatchesPairs<L, R, K>(l: L, right: seq<R>, lkey: L -> K, rkey: R -> K)
    ensures forall p :: p in Matches(l, right, lkey, rkey) ==> p.0 == l && p.1 in right && lkey(l) == rkey(p.1)
    decreases |right|
  {
    if |right| > 0 {
      var init := right[..|right| - 1];
      MatchesPairs(l, init, lkey, rkey);
      assert right == init + [right[|right| - 1]];
    }
  }

  /** Joining a concatenation is concatenating the joins: the join is row by row. */
  lemma {:induction false} JoinAppend<L, R, K>(a: seq<L>, b: seq<L>, right: seq<R>, lkey: L -> K, rkey: R -> K)
    ensures Join(a + b, right, lkey, rkey) == Join(a, right, lkey, rkey) + Join(b, right, lkey, rkey)
    decreases |b|
  {
    if |b| == 0 {
      assert a + b == a;
    } else {
      var b' := b[..|b| - 1];
      var x := b[|b| - 1];
      assert (a + b)[..|a + b| - 1] == a + b';
      assert (a + b)[|a + b| - 1] == x;
      JoinAppend(a, b', right, lkey, rkey);
      assert Join(a + b, right, lkey, rkey) == Join(a + b', right, lkey, rkey) + Matches(x, right, lkey, rkey);
      assert Join(b, right, lkey, rkey) == Join(b', right, lkey, rkey) + Matches(x, right, lkey, rkey);
    }
  }

  /** A pair is in the join exactly when both rows are in their tables and their keys are equal. */
  lemma JoinHas<L, R, K>(left: seq<L>, right: seq<R>, lkey: L -> K, rkey: R -> K, p: (L, R))
    ensures p in Join(left, right, lkey, rkey) <==> p.0 in left && p.1 in right && lkey(p.0) == rkey(p.1)
  {
    JoinPairs(left, right, lkey, rkey);
    if p.0 in left && p.1 in right && lkey(p.0) == rkey(p.1) {
      JoinCount(left, right, lkey, rkey, p);
      var a, b := multiset(left)[p.0], multiset(right)[p.1];
      assert a > 0 && b > 0;
      PositiveProduct(a, b);
    }
  }

  lemma PositiveProduct(a: nat, b: nat)
    requires a > 0 && b > 0
    ensures a * b > 0
  {
  }

  // ---------------------------------------------------------------------
  // Column selection, as `df[[c1, c2, ...]]` on every row
  // ---------------------------------------------------------------------

  /** The rows of a table mapped one by one, in order. */
  function Project<P, V>(s: seq<P>, f: P -> V): (r: seq<V>)
    ensures |r| == |s|
    ensures forall k :: 0 <= k < |s| ==> r[k] == f(s[k])
  {
    if |s| == 0 then [] else [f(s[0])] + Project(s[1..], f)
  }

  lemma ProjectAppend<P, V>(a: seq<P>, b: seq<P>, f: P -> V)
    ensures Project(a + b, f) == Project(a, f) + Project(b, f)
  {
    assert Project(a + b, f) == Project(a, f) + Project(b, f);
  }

  /** A value is in a projection exactly when some row maps to it. */
  lemma ProjectHas<P, V>(s: seq<P>, f: P -> V, v: V)
    ensures v in Project(s, f) <==> exists x :: x in s && f(x) == v
  {
    if exists x :: x in s && f(x) == v {
      var x :| x in s && f(x) == v;
      var k :| 0 <= k < |s| && s[k] == x;
      assert Project(s, f)[k] == v;
    }
  }

  /** Dedup of one more row: the row is appended exactly when it is new. */
  lemma DedupSnoc<T(!new)>(s: seq<T>, x: T)
    ensures Dedup(s + [x]) == if x in s then Dedup(s) else Dedup(s) + [x]
  {
    assert (s + [x])[..|s|] == s;
  }

  /**
   * Removing duplicates before a projection changes nothing once the
   * projected rows are deduplicated too.
   */
  lemma {:induction false} DedupProject<P(!new), V(!new)>(s: seq<P>, f: P -> V)
    ensures Dedup(Project(Dedup(s), f)) == Dedup(Project(s, f))
    decreases |s|
  {
    if |s| > 0 {
      var init := s[..|s| - 1];
      var x := s[|s| - 1];
      assert s == init + [x];
      DedupProject(init, f);
      ProjectAppend(init, [x], f);
      assert Project(s, f) == Project(init, f) + [f(x)];
      DedupSnoc(Project(init, f), f(x));
      ProjectHas(init, f, f(x));
      ProjectHas(Dedup(init), f, f(x));
      DedupSnoc(init, x);
      if x !in init {
        ProjectAppend(Dedup(init), [x], f);
        assert Project(Dedup(init) + [x], f) == Project(Dedup(init), f) + [f(x)];
        DedupSnoc(Project(Dedup(init), f), f(x));
      }
    }
  }

  // ---------------------------------------------------------------------
  // Boolean-mask selection, as `df.loc[mask]`
  // ---------------------------------------------------------------------

  function Filter<T(!new)>(s: seq<T>, keep: T -> bool): (r: seq<T>)
    ensures forall x :: x in r <==> x in s && keep(x)
    ensures |r| <= |s|
  {
    if |s| == 0 then []
    else
      var init := s[..|s| - 1];
      assert s == init + [s[|s| - 1]];
      Filter(init, keep) + (if keep(s[|s| - 1]) then [s[|s| - 1]] else [])
  }

  lemma {:induction false} FilterAppend<T(!new)>(a: seq<T>, b: seq<T>, keep: T -> bool)
    ensures Filter(a + b, keep) == Filter(a, keep) + Filter(b, keep)
    decreases |b|
  {
    if |b| > 0 {
      var b' := b[..|b| - 1];
      var x := b[|b| - 1];
      assert (a + b)[..|a + b| - 1] == a + b';
      assert (a + b)[|a + b| - 1] == x;
      FilterAppend(a, b', keep);
      var tail := if keep(x) then [x] else [];
      assert Filter(a + b, keep) == Filter(a + b', keep) + tail;
      assert Filter(b, keep) == Filter(b', keep) + tail;
    } else {
      assert a + b == a;
    }
  }
}
