/**
 * Python's `json.loads` on a `str`, as the C scanner of CPython decodes it
 * with the default `strict=True`: whitespace is space, tab, newline and
 * carriage return; `NaN`, `Infinity` and `-Infinity` are accepted; a control
 * character inside a string is an error; a duplicate object key keeps its
 * last value. Every decoding error is `None`: the one caller catches them all.
 */
module PyJson {
  import opened Common

  /** A decoded value. Numbers keep their source text. */
  datatype Json =
    | JNull
    | JBool(b: bool)
    | JNumber(text: string)
    | JString(s: string)
    | JArray(items: seq<Json>)
    | JObject(members: seq<(string, Json)>)

  predicate IsWs(c: char) {
    c == ' ' || c == '\t' || c == '\n' || c == '\r'
  }

  predicate IsDigit(c: char) {
    '0' <= c <= '9'
  }

  function SkipWs(s: string, i: nat): (j: nat)
    requires i <= |s|
    ensures i <= j <= |s|
    ensures forall k :: i <= k < j ==> IsWs(s[k])
    ensures j == |s| || !IsWs(s[j])
    decreases |s| - i
  {
    if i < |s| && IsWs(s[i]) then SkipWs(s, i + 1) else i
  }

  function SkipDigits(s: string, i: nat): (j: nat)
    requires i <= |s|
    ensures i <= j <= |s|
    ensures forall k :: i <= k < j ==> IsDigit(s[k])
    ensures j == |s| || !IsDigit(s[j])
    decreases |s| - i
  {
    if i < |s| && IsDigit(s[i]) then SkipDigits(s, i + 1) else i
  }

  /** `s` holds the literal `lit` at position i. */
  predicate LitAt(s: string, i: nat, lit: string) {
    i + |lit| <= |s| && forall k :: 0 <= k < |lit| ==> s[i + k] == lit[k]
  }

  // ---------------------------------------------------------------------
  // Numbers
  // ---------------------------------------------------------------------

  /** An exponent after position i, or i itself when there is none (the scanner backtracks). */
  function ExponentEnd(s: string, i: nat): (j: nat)
    requires i <= |s|
    ensures i <= j <= |s|
  {
    if i + 1 < |s| && (s[i] == 'e' || s[i] == 'E') then
      var k := if i + 2 < |s| && (s[i + 1] == '-' || s[i + 1] == '+') then i + 2 else i + 1;
      var d := SkipDigits(s, k);
      if d > k then d else i
    else i
  }

  /**
   * End of the number starting at i: an optional minus, then `0` or a
   * non-zero digit and more digits, an optional fraction `.d+`, an optional
   * exponent. Anything else is not a value.
   */
  function NumberEnd(s: string, i: nat): (r: Option<nat>)
    requires i <= |s|
    ensures r.Some? ==> i < r.value <= |s|
  {
    var j := if i < |s| && s[i] == '-' then i + 1 else i;
    if j >= |s| || !IsDigit(s[j]) then None
    else
      var intEnd := if s[j] == '0' then j + 1 else SkipDigits(s, j + 1);
      var fracEnd :=
        if intEnd + 1 < |s| && s[intEnd] == '.' && IsDigit(s[intEnd + 1]) then SkipDigits(s, intEnd + 2)
        else intEnd;
      Some(ExponentEnd(s, fracEnd))
  }

  // ---------------------------------------------------------------------
  // Strings
  // ---------------------------------------------------------------------

  function HexDigit(c: char): Option<int> {
    if '0' <= c <= '9' then Some(c as int - '0' as int)
    else if 'a' <= c <= 'f' then Some(c as int - 'a' as int + 10)
    else if 'A' <= c <= 'F' then Some(c as int - 'A' as int + 10)
    else None
  }

  /** The four hex digits at i..i+4 as a code unit. */
  function Hex4(s: string, i: nat): (r: Option<int>)
    requires i + 4 <= |s|
    ensures r.Some? ==> 0 <= r.value < 0x10000
  {
    match (HexDigit(s[i]), HexDigit(s[i + 1]), HexDigit(s[i + 2]), HexDigit(s[i + 3]))
    case (Some(a), Some(b), Some(c), Some(d)) =>
      assert 0 <= a < 16 && 0 <= b < 16 && 0 <= c < 16 && 0 <= d < 16 by {
        assert forall ch :: HexDigit(ch).Some? ==> 0 <= HexDigit(ch).value < 16;
      }
      Some(((a * 16 + b) * 16 + c) * 16 + d)
    case _ => None
  }

  predicate IsHighSurrogate(u: int) { 0xD800 <= u <= 0xDBFF }
  predicate IsLowSurrogate(u: int) { 0xDC00 <= u <= 0xDFFF }

  function JoinSurrogates(hi: int, lo: int): (c: char)
    requires IsHighSurrogate(hi) && IsLowSurrogate(lo)
  {
    (0x10000 + (hi - 0xD800) * 0x400 + (lo - 0xDC00)) as char
  }

  /** The character a one-letter escape `\c` stands for. */
  function SimpleEscape(c: char): Option<char> {
    match c
    case '"' => Some('"')
    case '\\' => Some('\\')
    case '/' => Some('/')
    case 'b' => Some('\U{8}')
    case 'f' => Some('\U{C}')
    case 'n' => Some('\n')
    case 'r' => Some('\r')
    case 't' => Some('\t')
    case _ => None
  }

  /**
   * The rest of a string literal whose opening quote is just before i;
   * `acc` holds what was decoded so far. Gives the text and the position
   * after the closing quote. A `\u` escape that leaves an unpaired
   * surrogate has no `char` to stand for it and is refused here.
   */
  function StringFrom(s: string, i: nat, acc: string): (r: Option<(string, nat)>)
    requires i <= |s|
    ensures r.Some? ==> i < r.value.1 <= |s|
    decreases |s| - i
  {
    if i >= |s| then None
    else if s[i] == '"' then Some((acc, i + 1))
    else if s[i] == '\\' then
      if i + 1 >= |s| then None
      else if s[i + 1] != 'u' then
        match SimpleEscape(s[i + 1])
        case None => None
        case Some(c) => StringFrom(s, i + 2, acc + [c])
      else if i + 6 >= |s| then None
      else
        match Hex4(s, i + 2)
        case None => None
        case Some(u) =>
          if IsHighSurrogate(u) && i + 12 < |s| && s[i + 6] == '\\' && s[i + 7] == 'u' then
            match Hex4(s, i + 8)
            case None => None
            case Some(u2) =>
              if IsLowSurrogate(u2) then StringFrom(s, i + 12, acc + [JoinSurrogates(u, u2)])
              else None
          else if IsHighSurrogate(u) || IsLowSurrogate(u) then None
          else StringFrom(s, i + 6, acc + [u as char])
    else if s[i] <= '\U{1F}' then None
    else StringFrom(s, i + 1, acc + [s[i]])
  }

  // ---------------------------------------------------------------------
  // Values
  // ---------------------------------------------------------------------

  /**
   * The value starting exactly at i (no leading whitespace), and the position
   * after it. Only an object starts with `{`.
   */
  function Value(s: string, i: nat): (r: Option<(Json, nat)>)
    requires i <= |s|
    ensures r.Some? ==> i < r.value.1 <= |s|
    ensures r.Some? && r.value.0.JObject? ==> s[i] == '{'
    decreases |s| - i, 0
  {
    if i >= |s| then None
    else if s[i] == '"' then
      match StringFrom(s, i + 1, [])
      case None => None
      case Some((text, j)) => Some((JString(text), j))
    else if s[i] == '{' then
      var j := SkipWs(s, i + 1);
      if j < |s| && s[j] == '}' then Some((JObject([]), j + 1))
      else Members(s, j, [])
    else if s[i] == '[' then
      var j := SkipWs(s, i + 1);
      if j < |s| && s[j] == ']' then Some((JArray([]), j + 1))
      else Elements(s, j, [])
    else Scalar(s, i)
  }

  /** A constant or a number at i; the scanner tries the named constants first. */
  function Scalar(s: string, i: nat): (r: Option<(Json, nat)>)
    requires i < |s|
    ensures r.Some? ==> i < r.value.1 <= |s| && !r.value.0.JObject?
  {
    if s[i] == 'n' && LitAt(s, i, "null") then Some((JNull, i + 4))
    else if s[i] == 't' && LitAt(s, i, "true") then Some((JBool(true), i + 4))
    else if s[i] == 'f' && LitAt(s, i, "false") then Some((JBool(false), i + 5))
    else if s[i] == 'N' && LitAt(s, i, "NaN") then Some((JNumber("NaN"), i + 3))
    else if s[i] == 'I' && LitAt(s, i, "Infinity") then Some((JNumber("Infinity"), i + 8))
    else if s[i] == '-' && LitAt(s, i, "-Infinity") then Some((JNumber("-Infinity"), i + 9))
    else
      match NumberEnd(s, i)
      case None => None
      case Some(j) => Some((JNumber(s[i..j]), j))
  }

  /** A key and its colon from i on: the key and where its value starts. */
  function KeyColon(s: string, i: nat): (r: Option<(string, nat)>)
    requires i <= |s|
    ensures r.Some? ==> i < r.value.1 <= |s|
  {
    if i >= |s| || s[i] != '"' then None
    else
      match StringFrom(s, i + 1, [])
      case None => None
      case Some((key, j)) =>
        var k := SkipWs(s, j);
        if k >= |s| || s[k] != ':' then None
        else Some((key, SkipWs(s, k + 1)))
  }

  /** Object members from a key at i on, up to and including the closing brace. */
  function Members(s: string, i: nat, acc: seq<(string, Json)>): (r: Option<(Json, nat)>)
    requires i <= |s|
    ensures r.Some? ==> i < r.value.1 <= |s| && r.value.0.JObject?
    decreases |s| - i, 1
  {
    match KeyColon(s, i)
    case None => None
    case Some((key, k)) =>
      match Value(s, k)
      case None => None
      case Some((v, m)) =>
        var n := SkipWs(s, m);
        var acc' := acc + [(key, v)];
        if n < |s| && s[n] == '}' then Some((JObject(acc'), n + 1))
        else if n >= |s| || s[n] != ',' then None
        else Members(s, SkipWs(s, n + 1), acc')
  }

  /** Array elements from a value at i on, up to and including the closing bracket. */
  function Elements(s: string, i: nat, acc: seq<Json>): (r: Option<(Json, nat)>)
    requires i <= |s|
    ensures r.Some? ==> i < r.value.1 <= |s| && r.value.0.JArray?
    decreases |s| - i, 1
  {
    match Value(s, i)
    case None => None
    case Some((v, m)) =>
      var n := SkipWs(s, m);
      var acc' := acc + [v];
      if n < |s| && s[n] == ']' then Some((JArray(acc'), n + 1))
      else if n >= |s| || s[n] != ',' then None
      else Elements(s, SkipWs(s, n + 1), acc')
  }

  /**
   * `json.loads(s)`: a leading byte-order mark is refused; whitespace may
   * surround the one value; anything after it is "Extra data".
   */
  function Loads(s: string): Option<Json> {
    if |s| > 0 && s[0] == '\U{FEFF}' then None
    else
      var i := SkipWs(s, 0);
      match Value(s, i)
      case None => None
      case Some((v, j)) => if SkipWs(s, j) == |s| then Some(v) else None
  }

  /** Only text whose first non-blank character is `{` decodes to an object. */
  lemma LoadsObject(s: string)
    requires Loads(s).Some? && Loads(s).value.JObject?
    ensures SkipWs(s, 0) < |s| && s[SkipWs(s, 0)] == '{'
  {
  }

  // One unfolding step of the decoder each, for reasoning about given text.

  lemma StringValue(s: string, i: nat, text: string, j: nat)
    requires i < |s| && s[i] == '"' && StringFrom(s, i + 1, []) == Some((text, j))
    ensures Value(s, i) == Some((JString(text), j))
  {
  }

  lemma ObjectValue(s: string, i: nat)
    requires i < |s| && s[i] == '{'
    requires SkipWs(s, i + 1) == |s| || s[SkipWs(s, i + 1)] != '}'
    ensures Value(s, i) == Members(s, SkipWs(s, i + 1), [])
  {
  }

  /** No whitespace to skip at a non-blank character. */
  lemma SkipNone(s: string, i: nat)
    requires i < |s| && !IsWs(s[i])
    ensures SkipWs(s, i) == i
  {
  }

  lemma KeyColonAt(s: string, i: nat, key: string, j: nat)
    requires i < |s| && s[i] == '"' && StringFrom(s, i + 1, []) == Some((key, j))
    requires SkipWs(s, j) < |s| && s[SkipWs(s, j)] == ':'
    ensures KeyColon(s, i) == Some((key, SkipWs(s, SkipWs(s, j) + 1)))
  {
  }

  /** A member `"key" : value` followed by the closing brace. */
  lemma LastMember(s: string, i: nat, acc: seq<(string, Json)>, key: string, k: nat, v: Json, m: nat)
    requires i <= |s| && KeyColon(s, i) == Some((key, k))
    requires Value(s, k) == Some((v, m))
    requires SkipWs(s, m) < |s| && s[SkipWs(s, m)] == '}'
    ensures Members(s, i, acc) == Some((JObject(acc + [(key, v)]), SkipWs(s, m) + 1))
  {
  }

  /** A member whose value fails to decode makes the object fail. */
  lemma BadMember(s: string, i: nat, acc: seq<(string, Json)>, key: string, k: nat)
    requires i <= |s| && KeyColon(s, i) == Some((key, k))
    requires Value(s, k) == None
    ensures Members(s, i, acc) == None
  {
  }

  lemma LoadsValue(s: string, v: Json, j: nat)
    requires |s| > 0 && s[0] != '\U{FEFF}'
    requires Value(s, SkipWs(s, 0)) == Some((v, j)) && SkipWs(s, j) == |s|
    ensures Loads(s) == Some(v)
  {
  }

  /** `d[key]` on the dict built from the members: the last binding of a repeated key wins. */
  function Lookup(members: seq<(string, Json)>, key: string): Option<Json> {
    if |members| == 0 then None
    else if members[|members| - 1].0 == key then Some(members[|members| - 1].1)
    else Lookup(members[..|members| - 1], key)
  }

  /** A key is found iff some member has it, and the value found is that of its last member. */
  lemma {:induction false} LookupFacts(members: seq<(string, Json)>, key: string)
    ensures var r := Lookup(members, key);
      && (r.Some? <==> exists k :: 0 <= k < |members| && members[k].0 == key)
      && (r.Some? ==> exists k :: 0 <= k < |members| && members[k] == (key, r.value)
                        && forall l :: k < l < |members| ==> members[l].0 != key)
    decreases |members|
  {
    if |members| > 0 && members[|members| - 1].0 != key {
      var init := members[..|members| - 1];
      LookupFacts(init, key);
      var r := Lookup(init, key);
      assert forall k :: 0 <= k < |init| ==> init[k] == members[k];
      if r.Some? {
        var k :| 0 <= k < |init| && init[k] == (key, r.value) && forall l :: k < l < |init| ==> init[l].0 != key;
        assert members[k] == (key, r.value);
      }
    }
  }

}
