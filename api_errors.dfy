/** How the client decides, from a response body and its decoded value,
    whether an API call failed and with which message (`callAPI`,
    `getAPIError` and `getJsonErrors` of `MyfatoorahApiV2`). `json_decode`
    and `strip_tags` are library functions the model receives as
    parameters. */
module ApiErrors {
  import opened Php

  const ConfigurationMessage: string :=
    "Kindly, review your MyFatoorah admin configuration due to a wrong entry."

  // ---------------------------------------------------------------------
  // Cleaning an HTML error page
  // ---------------------------------------------------------------------

  /** The characters PCRE's `\s` matches without the `u` modifier. */
  predicate IsSpace(c: char) {
    c == ' ' || c == '\t' || c == '\n' || c == '\U{B}' || c == '\U{C}' || c == '\r'
  }

  /** The index of the first character at or after `i` that is not
      whitespace, or `|s|` if there is none. */
  function FirstNonSpace(s: string, i: nat): (k: nat)
    requires i <= |s|
    ensures i <= k <= |s| && (k == |s| || !IsSpace(s[k]))
    ensures forall m :: i <= m < k ==> IsSpace(s[m])
    decreases |s| - i
  {
    if i < |s| && IsSpace(s[i]) then FirstNonSpace(s, i + 1) else i
  }

  /** `s` without its leading run of whitespace. */
  function SkipSpaces(s: string): (r: string)
    ensures |r| <= |s| && r == s[|s| - |r|..]
    ensures r == [] || !IsSpace(r[0])
    ensures forall i :: 0 <= i < |s| - |r| ==> IsSpace(s[i])
  {
    s[FirstNonSpace(s, 0)..]
  }

  /** No whitespace character but the plain space, and never two of them in a row. */
  predicate Collapsed(s: string) {
    && (forall i :: 0 <= i < |s| && IsSpace(s[i]) ==> s[i] == ' ')
    && (forall i :: 0 <= i < |s| - 1 ==> !(IsSpace(s[i]) && IsSpace(s[i + 1])))
  }

  /** `preg_replace('/\s+/', ' ', $s)`: every maximal run of whitespace
      becomes one space. */
  function CollapseSpaces(s: string): (r: string)
    ensures Collapsed(r)
    ensures s != [] ==> r != [] && (IsSpace(s[0]) <==> IsSpace(r[0]))
    ensures s == [] ==> r == []
    decreases |s|
  {
    if s == [] then []
    else if IsSpace(s[0]) then " " + CollapseSpaces(SkipSpaces(s[1..]))
    else [s[0]] + CollapseSpaces(s[1..])
  }

  /** The characters of `s` that are not whitespace, in order. */
  function NonSpace(s: string): string {
    if s == [] then [] else (if IsSpace(s[0]) then [] else [s[0]]) + NonSpace(s[1..])
  }

  lemma {:induction false} NonSpaceOfSpaces(s: string)
    requires forall i :: 0 <= i < |s| ==> IsSpace(s[i])
    ensures NonSpace(s) == []
  {
    if s != [] {
      NonSpaceOfSpaces(s[1..]);
    }
  }

  /** Skipping from a whitespace character skips from the next one. */
  lemma SkipSpacesStep(s: string)
    requires s != [] && IsSpace(s[0])
    ensures SkipSpaces(s) == SkipSpaces(s[1..])
  {
    var r1, r2 := SkipSpaces(s), SkipSpaces(s[1..]);
    assert r2 == s[|s| - |r2|..];
  }

  lemma {:induction false} NonSpaceOfSkip(s: string)
    ensures NonSpace(SkipSpaces(s)) == NonSpace(s)
  {
    if s != [] && IsSpace(s[0]) {
      SkipSpacesStep(s);
      NonSpaceOfSkip(s[1..]);
    }
  }

  /** Collapsing whitespace keeps every other character, in order. */
  lemma {:induction false} CollapseKeepsText(s: string)
    ensures NonSpace(CollapseSpaces(s)) == NonSpace(s)
    decreases |s|
  {
    if s == [] {
    } else if IsSpace(s[0]) {
      var t := SkipSpaces(s[1..]);
      CollapseKeepsText(t);
      NonSpaceOfSkip(s[1..]);
      assert CollapseSpaces(s) == " " + CollapseSpaces(t);
      assert NonSpace(" " + CollapseSpaces(t)) == NonSpace(CollapseSpaces(t)) by {
        assert (" " + CollapseSpaces(t))[1..] == CollapseSpaces(t);
      }
    } else {
      CollapseKeepsText(s[1..]);
      assert ([s[0]] + CollapseSpaces(s[1..]))[1..] == CollapseSpaces(s[1..]);
    }
  }

  /** `trim(preg_replace('/\s+/', ' ', strip_tags($res)))`. */
  function PageText(stripped: string): (r: string)
    ensures Collapsed(r)
    ensures r == [] || (!IsTrimmed(r[0]) && !IsTrimmed(r[|r| - 1]))
  {
    var c := CollapseSpaces(stripped);
    TrimKeepsCollapsed(c);
    Trim(c)
  }

  lemma TrimKeepsCollapsed(c: string)
    requires Collapsed(c)
    ensures Collapsed(Trim(c))
  {
    var lo := |c| - |TrimLeft(c)|;
    CollapsedInfix(c, lo, lo + |Trim(c)|);
  }

  lemma CollapsedInfix(s: string, lo: nat, hi: nat)
    requires Collapsed(s) && lo <= hi <= |s|
    ensures Collapsed(s[lo..hi])
  {
    var t := s[lo..hi];
    assert forall i :: 0 <= i < |t| ==> t[i] == s[lo + i];
  }

  /** `FirstNonSpace` finds the only position that ends a leading run of
      whitespace. */
  lemma FirstNonSpaceUnique(s: string, k: nat)
    requires k <= |s| && (k == |s| || !IsSpace(s[k]))
    requires forall m :: 0 <= m < k ==> IsSpace(s[m])
    ensures FirstNonSpace(s, 0) == k
  {
  }

  /** Skipping a run of whitespace that ends where `b` starts gives `b`. */
  lemma SkipSpacesOverRun(w: string, b: string)
    requires forall i :: 0 <= i < |w| ==> IsSpace(w[i])
    requires b == [] || !IsSpace(b[0])
    ensures SkipSpaces(w + b) == b
  {
    var s := w + b;
    FirstNonSpaceUnique(s, |w|);
    assert s[|w|..] == b;
  }

  /** Skipping stops inside `x` when `x` ends with a non-space character. */
  lemma SkipSpacesStopsEarly(x: string, y: string)
    requires x != [] && !IsSpace(x[|x| - 1])
    ensures SkipSpaces(x) != [] && !IsSpace(SkipSpaces(x)[|SkipSpaces(x)| - 1])
    ensures SkipSpaces(x + y) == SkipSpaces(x) + y
  {
    var s := x + y;
    var k := FirstNonSpace(x, 0);
    assert k < |x|;
    assert forall m :: 0 <= m < k ==> s[m] == x[m];
    assert s[k] == x[k];
    FirstNonSpaceUnique(s, k);
    assert s[k..] == x[k..] + y;
  }

  /** A run of whitespace at the start becomes one space. */
  lemma CollapseLeadingRun(w: string, b: string)
    requires w != [] && forall i :: 0 <= i < |w| ==> IsSpace(w[i])
    requires b == [] || !IsSpace(b[0])
    ensures CollapseSpaces(w + b) == " " + CollapseSpaces(b)
  {
    var s := w + b;
    assert s[0] == w[0];
    assert s[1..] == w[1..] + b;
    SkipSpacesOverRun(w[1..], b);
  }

  /** A maximal run of whitespace between two non-space characters becomes
      exactly one space, and both sides collapse on their own. */
  lemma {:induction false} CollapseOneRun(a: string, w: string, b: string)
    requires a == [] || !IsSpace(a[|a| - 1])
    requires w != [] && forall i :: 0 <= i < |w| ==> IsSpace(w[i])
    requires b == [] || !IsSpace(b[0])
    ensures CollapseSpaces(a + w + b) == CollapseSpaces(a) + " " + CollapseSpaces(b)
    decreases |a|, 1
  {
    if a == [] {
      assert a + w + b == w + b;
      CollapseLeadingRun(w, b);
      assert CollapseSpaces(a) + " " + CollapseSpaces(b) == " " + CollapseSpaces(b);
    } else if IsSpace(a[0]) {
      CollapseRunAfterSpace(a, w, b);
    } else {
      CollapseRunAfterText(a, w, b);
    }
  }

  lemma {:induction false} CollapseRunAfterSpace(a: string, w: string, b: string)
    requires a != [] && IsSpace(a[0]) && !IsSpace(a[|a| - 1])
    requires w != [] && forall i :: 0 <= i < |w| ==> IsSpace(w[i])
    requires b == [] || !IsSpace(b[0])
    ensures CollapseSpaces(a + w + b) == CollapseSpaces(a) + " " + CollapseSpaces(b)
    decreases |a|, 0
  {
    var a' := SkipSpaces(a[1..]);
    CollapseSpaceHead(a, w + b);
    AppendAssoc(a, w, b);
    AppendAssoc(a', w, b);
    CollapseOneRun(a', w, b);
    AppendAssoc(" ", CollapseSpaces(a') + " ", CollapseSpaces(b));
    AppendAssoc(" ", CollapseSpaces(a'), " ");
  }

  /** A string that starts with whitespace and ends with text collapses to
      one space and the collapse of the rest after the run, whatever
      follows it. */
  lemma CollapseSpaceHead(a: string, rest: string)
    requires a != [] && IsSpace(a[0]) && !IsSpace(a[|a| - 1])
    ensures var a' := SkipSpaces(a[1..]);
            && |a'| < |a| && a' != [] && !IsSpace(a'[|a'| - 1])
            && CollapseSpaces(a) == " " + CollapseSpaces(a')
            && CollapseSpaces(a + rest) == " " + CollapseSpaces(a' + rest)
  {
    var s := a + rest;
    assert s[0] == a[0];
    assert s[1..] == a[1..] + rest;
    SkipSpacesStopsEarly(a[1..], rest);
  }

  lemma {:induction false} CollapseRunAfterText(a: string, w: string, b: string)
    requires a != [] && !IsSpace(a[0]) && !IsSpace(a[|a| - 1])
    requires w != [] && forall i :: 0 <= i < |w| ==> IsSpace(w[i])
    requires b == [] || !IsSpace(b[0])
    ensures CollapseSpaces(a + w + b) == CollapseSpaces(a) + " " + CollapseSpaces(b)
    decreases |a|, 0
  {
    var t := a[1..];
    CollapseTextHead(a, w, b);
    CollapseOneRun(t, w, b);
    AppendAssoc([a[0]], CollapseSpaces(t) + " ", CollapseSpaces(b));
    AppendAssoc([a[0]], CollapseSpaces(t), " ");
  }

  /** A string that starts with text keeps that character in front of the
      collapse of the rest. */
  lemma CollapseTextHead(a: string, w: string, b: string)
    requires a != [] && !IsSpace(a[0])
    ensures CollapseSpaces(a) == [a[0]] + CollapseSpaces(a[1..])
    ensures CollapseSpaces(a + w + b) == [a[0]] + CollapseSpaces(a[1..] + w + b)
  {
    var s := a + w + b;
    assert s[0] == a[0];
    assert s[1..] == a[1..] + w + b;
  }

  /** Whitespace is not kept text. */
  lemma {:induction false} NonSpaceAppend(x: string, y: string)
    ensures NonSpace(x + y) == NonSpace(x) + NonSpace(y)
  {
    if x != [] {
      NonSpaceAppend(x[1..], y);
      assert (x + y)[0] == x[0];
      assert (x + y)[1..] == x[1..] + y;
      var h := if IsSpace(x[0]) then [] else [x[0]];
      assert NonSpace(x + y) == h + NonSpace(x[1..] + y);
      assert NonSpace(x) == h + NonSpace(x[1..]);
      assert h + (NonSpace(x[1..]) + NonSpace(y)) == (h + NonSpace(x[1..])) + NonSpace(y);
    } else {
      assert x + y == y;
    }
  }

  /** What `trim` may drop that is not whitespace is NUL characters. */
  lemma {:induction false} NonSpaceOfTrimmed(x: string)
    requires forall i :: 0 <= i < |x| ==> IsTrimmed(x[i])
    ensures forall i :: 0 <= i < |NonSpace(x)| ==> NonSpace(x)[i] == '\0'
  {
    if x != [] {
      NonSpaceOfTrimmed(x[1..]);
    }
  }

  /** `trim` cuts a string into dropped characters, the result, and
      dropped characters. */
  lemma TrimSplit(c: string) returns (lo: nat, hi: nat)
    ensures lo <= hi <= |c| && c == c[..lo] + Trim(c) + c[hi..]
    ensures forall i :: 0 <= i < lo ==> IsTrimmed(c[..lo][i])
    ensures forall i :: 0 <= i < |c| - hi ==> IsTrimmed(c[hi..][i])
  {
    lo := |c| - |TrimLeft(c)|;
    hi := lo + |Trim(c)|;
    assert c == c[..lo] + c[lo..hi] + c[hi..];
  }

  /** The page text keeps every non-whitespace character of the stripped
      page, in order, except NUL characters that `trim` removes from the two
      ends. */
  lemma PageTextKeepsText(stripped: string) returns (front: string, back: string)
    ensures NonSpace(stripped) == front + NonSpace(PageText(stripped)) + back
    ensures forall i :: 0 <= i < |front| ==> front[i] == '\0'
    ensures forall i :: 0 <= i < |back| ==> back[i] == '\0'
  {
    var c := CollapseSpaces(stripped);
    var r := PageText(stripped);
    assert r == Trim(c);
    var lo, hi := TrimSplit(c);
    CollapseKeepsText(stripped);
    NonSpaceAppend(c[..lo] + r, c[hi..]);
    NonSpaceAppend(c[..lo], r);
    NonSpaceOfTrimmed(c[..lo]);
    NonSpaceOfTrimmed(c[hi..]);
    front, back := NonSpace(c[..lo]), NonSpace(c[hi..]);
    assert NonSpace(stripped) == front + NonSpace(r) + back;
  }

  /** The kept text draws its characters from the string. */
  lemma {:induction false} NonSpaceChars(s: string)
    ensures forall ch :: ch in NonSpace(s) ==> ch in s
  {
    if s != [] {
      NonSpaceChars(s[1..]);
    }
  }

  /** Without NUL characters, the page text keeps exactly the
      non-whitespace characters of the stripped page, in order. */
  lemma PageTextKeepsAllText(stripped: string)
    requires forall i :: 0 <= i < |stripped| ==> stripped[i] != '\0'
    ensures NonSpace(PageText(stripped)) == NonSpace(stripped)
  {
    var front, back := PageTextKeepsText(stripped);
    var all := NonSpace(stripped);
    NonSpaceChars(stripped);
    forall i | 0 <= i < |all|
      ensures all[i] != '\0'
    {
      assert all[i] in stripped;
    }
    DropNulPieces(all, front, NonSpace(PageText(stripped)), back);
  }

  /** A string without NUL characters, cut into a NUL-only front, a middle
      and a NUL-only back, is all middle. */
  lemma DropNulPieces(all: string, front: string, mid: string, back: string)
    requires all == front + mid + back
    requires forall i :: 0 <= i < |all| ==> all[i] != '\0'
    requires forall i :: 0 <= i < |front| ==> front[i] == '\0'
    requires forall i :: 0 <= i < |back| ==> back[i] == '\0'
    ensures all == mid
  {
    assert forall i :: 0 <= i < |front| ==> all[i] == front[i];
    assert forall i :: 0 <= i < |back| ==> all[|front| + |mid| + i] == back[i];
    var frontHead, backHead := FirstOr(front, ' '), FirstOr(back, ' ');
    assert front == [] && back == [];
    assert all == mid + [];
  }

  /** The first element of `s`, or `d` when `s` is empty. */
  function FirstOr<T>(s: seq<T>, d: T): T {
    if s == [] then d else s[0]
  }

  // ---------------------------------------------------------------------
  // Validation errors: array_column($errors, 'Error', 'Name')
  // ---------------------------------------------------------------------

  /** A PHP array key. */
  datatype Key = StrKey(s: string) | IntKey(i: int)

  /** The entries of a PHP array, in its (insertion) order. */
  type Entries = seq<(Key, Json)>

  predicate DistinctKeys(e: Entries) {
    forall i, j :: 0 <= i < j < |e| ==> e[i].0 != e[j].0
  }

  /** The key PHP makes of a string: an integer for the canonical decimal
      form of a 64-bit integer, the string itself otherwise. Either way the
      key reads back as the string. */
  function StringKey(s: string): (k: Key)
    ensures k.IntKey? <==> IsIntegerKey(s)
    ensures KeyText(k) == s
  {
    if IsIntegerKey(s) then IntKey(IntegerKeyValue(s)) else StrKey(s)
  }

  /** Two strings make the same key only when they are equal. */
  lemma StringKeyInjective(a: string, b: string)
    ensures StringKey(a) == StringKey(b) <==> a == b
  {
    assert a == KeyText(StringKey(a)) && b == KeyText(StringKey(b));
  }

  /** The key PHP makes of a `Name` value; arrays and objects are illegal
      offsets, a `TypeError`. */
  function KeyOf(name: Json): (r: Outcome<Key>)
    ensures r.EngineError? <==> name.JArr? || name.JObj?
    ensures name.JStr? ==> r == Ok(StringKey(name.s))
    ensures name.JNum? ==> r == Ok(IntKey(name.n))
    ensures !r.Thrown?
  {
    match name
    case JStr(s) => Ok(StringKey(s))
    case JNull => Ok(StrKey(""))
    case JBool(b) => Ok(IntKey(if b then 1 else 0))
    case JNum(n) => Ok(IntKey(n))
    case _ => EngineError
  }

  /** The index `$a[] = $v` uses: one past the largest non-negative integer
      key, or 0. */
  function NextIndex(e: Entries): (n: nat)
    ensures forall i :: 0 <= i < |e| && e[i].0.IntKey? ==> e[i].0.i < n
  {
    if e == [] then 0
    else
      var prev := NextIndex(e[..|e| - 1]);
      var k := e[|e| - 1].0;
      if k.IntKey? && k.i >= prev then k.i + 1 else prev
  }

  /** `$a[$k] = $v`: an existing key keeps its position and takes the new
      value, a new key goes to the end. */
  function Assign(e: Entries, k: Key, v: Json): (r: Entries)
    ensures |r| == |e| || |r| == |e| + 1
    ensures forall i :: 0 <= i < |e| ==> r[i].0 == e[i].0
    ensures forall i :: 0 <= i < |e| && e[i].0 != k ==> r[i] == e[i]
    ensures (exists i :: 0 <= i < |e| && e[i].0 == k) <==> |r| == |e|
    ensures |r| == |e| + 1 ==> r[|e|] == (k, v)
  {
    if e == [] then [(k, v)]
    else if e[0].0 == k then [(k, v)] + e[1..]
    else [e[0]] + Assign(e[1..], k, v)
  }

  /** Assigning to entries with distinct keys keeps the keys distinct, and
      the one entry with key `k` holds the new value. */
  lemma {:induction false} AssignKeepsDistinct(e: Entries, k: Key, v: Json)
    ensures var r := Assign(e, k, v);
            DistinctKeys(e) ==> DistinctKeys(r) && forall i :: 0 <= i < |r| && r[i].0 == k ==> r[i].1 == v
  {
    if DistinctKeys(e) && e != [] {
      var tail := e[1..];
      TailDistinct(e);
      if e[0].0 == k {
        ConsDistinct((k, v), tail);
      } else {
        AssignKeepsDistinct(tail, k, v);
        var rest := Assign(tail, k, v);
        forall j | 0 <= j < |rest|
          ensures rest[j].0 != e[0].0
        {
          if j < |tail| {
            assert rest[j].0 == tail[j].0;
          }
        }
        ConsDistinct(e[0], rest);
      }
    }
  }

  lemma TailDistinct(e: Entries)
    requires DistinctKeys(e) && e != []
    ensures DistinctKeys(e[1..])
    ensures forall j :: 0 <= j < |e| - 1 ==> e[1..][j].0 != e[0].0
  {
    var tail := e[1..];
    forall i, j | 0 <= i < j < |tail|
      ensures tail[i].0 != tail[j].0
    {
      assert tail[i] == e[i + 1] && tail[j] == e[j + 1];
    }
  }

  lemma ConsDistinct(x: (Key, Json), rest: Entries)
    requires DistinctKeys(rest)
    requires forall j :: 0 <= j < |rest| ==> rest[j].0 != x.0
    ensures DistinctKeys([x] + rest)
  {
    var r := [x] + rest;
    forall i, j | 0 <= i < j < |r|
      ensures r[i].0 != r[j].0
    {
      assert r[j] == rest[j - 1];
      if i > 0 {
        assert r[i] == rest[i - 1];
      }
    }
  }


  /** What one row adds to the column: rows that are objects with an
      `Error` property (even a null one) are taken; keyed by `Name` when
      the row has one, else by the next index. */
  function AddRow(e: Entries, row: Json): (r: Outcome<Entries>)
    ensures !r.Thrown?
    ensures r.Ok? && DistinctKeys(e) ==> DistinctKeys(r.value)
  {
    if row.JObj? && "Error" in row.fields then
      var v := row.fields["Error"];
      if "Name" in row.fields then
        match KeyOf(row.fields["Name"])
        case Ok(k) =>
          AssignKeepsDistinct(e, k, v);
          Ok(Assign(e, k, v))
        case _ => EngineError
      else
        Ok(e + [(IntKey(NextIndex(e)), v)])
    else
      Ok(e)
  }

  /** `array_column($rows, 'Error', 'Name')`. */
  function ErrorColumn(rows: seq<Json>): (r: Outcome<Entries>)
    ensures !r.Thrown?
    ensures r.Ok? ==> DistinctKeys(r.value)
    decreases |rows|
  {
    if rows == [] then Ok([])
    else
      match ErrorColumn(rows[..|rows| - 1])
      case Ok(e) => AddRow(e, rows[|rows| - 1])
      case _ => EngineError
  }

  function KeyText(k: Key): string {
    match k
    case StrKey(s) => s
    case IntKey(i) => IntToString(i)
  }

  /** `"$k: $v"` for every entry, in order. */
  function EntryTexts(e: Entries): (r: Outcome<seq<string>>)
    ensures r.Ok? ==> |r.value| == |e|
    ensures !r.Thrown?
  {
    if e == [] then Ok([])
    else
      match EntryTexts(e[..|e| - 1])
      case Ok(front) =>
        (match Interpolate(e[|e| - 1].1)
         case Ok(v) => Ok(front + [KeyText(e[|e| - 1].0) + ": " + v])
         case _ => EngineError)
      case _ => EngineError
  }

  /** The message built from `ValidationErrors`/`FieldsErrors`;
      `array_column` of something that is not an array is a `TypeError`. */
  function ValidationMessage(errors: Json): (r: Outcome<string>)
    ensures !r.Thrown?
    ensures !errors.JArr? ==> r.EngineError?
    ensures errors == JArr([]) ==> r == Ok("")
  {
    if errors.JArr? then
      match ErrorColumn(errors.items)
      case Ok(e) =>
        (match EntryTexts(e)
         case Ok(parts) => Ok(Implode(", ", parts))
         case _ => EngineError)
      case _ => EngineError
    else EngineError
  }

  /** A validation error row `{"Name": name, "Error": error}`. */
  function ErrorRow(name: string, error: string): Json {
    JObj(map["Name" := JStr(name), "Error" := JStr(error)])
  }

  function RowTexts(names: seq<string>, errors: seq<string>): (r: seq<string>)
    requires |names| == |errors|
    ensures |r| == |names|
    ensures forall i :: 0 <= i < |r| ==> r[i] == names[i] + ": " + errors[i]
  {
    seq(|names|, i requires 0 <= i < |names| => names[i] + ": " + errors[i])
  }

  function StringEntries(names: seq<string>, errors: seq<string>): (e: Entries)
    requires |names| == |errors|
    ensures |e| == |names|
    ensures forall i :: 0 <= i < |e| ==> e[i] == (StringKey(names[i]), JStr(errors[i]))
  {
    seq(|names|, i requires 0 <= i < |names| => (StringKey(names[i]), JStr(errors[i])))
  }

  /** With distinct names, the message lists every row as "Name: Error",
      in row order, separated by ", ". */
  lemma ValidationMessageOfDistinctRows(names: seq<string>, errors: seq<string>)
    requires |names| == |errors|
    requires forall i, j :: 0 <= i < j < |names| ==> names[i] != names[j]
    ensures ValidationMessage(JArr(ErrorRows(names, errors))) == Ok(Implode(", ", RowTexts(names, errors)))
  {
    ColumnOfDistinctRows(names, errors);
    TextsOfStringEntries(names, errors);
  }

  lemma AddRowOfNewName(e: Entries, name: string, error: string)
    requires forall i :: 0 <= i < |e| ==> e[i].0 != StringKey(name)
    ensures AddRow(e, ErrorRow(name, error)) == Ok(e + [(StringKey(name), JStr(error))])
  {
    var row := ErrorRow(name, error);
    assert "Error" in row.fields && "Name" in row.fields;
    assert row.fields["Error"] == JStr(error) && row.fields["Name"] == JStr(name);
    var a := Assign(e, StringKey(name), JStr(error));
    assert |a| == |e| + 1;
    assert a == e + [(StringKey(name), JStr(error))];
  }

  /** The rows `{"Name": names[i], "Error": errors[i]}`, in order. */
  function ErrorRows(names: seq<string>, errors: seq<string>): (rows: seq<Json>)
    requires |names| == |errors|
    ensures |rows| == |names|
  {
    if names == [] then []
    else ErrorRows(names[..|names| - 1], errors[..|names| - 1]) + [ErrorRow(names[|names| - 1], errors[|names| - 1])]
  }

  lemma {:induction false} ColumnOfDistinctRows(names: seq<string>, errors: seq<string>)
    requires |names| == |errors|
    requires forall i, j :: 0 <= i < j < |names| ==> names[i] != names[j]
    ensures ErrorColumn(ErrorRows(names, errors)) == Ok(StringEntries(names, errors))
  {
    if names != [] {
      var n := |names|;
      var ns, es := names[..n - 1], errors[..n - 1];
      var rows := ErrorRows(names, errors);
      assert rows[..n - 1] == ErrorRows(ns, es);
      ColumnOfDistinctRows(ns, es);
      var front := StringEntries(ns, es);
      assert rows[n - 1] == ErrorRow(names[n - 1], errors[n - 1]);
      NewNameAbsent(names, errors);
      AddRowOfNewName(front, names[n - 1], errors[n - 1]);
      StringEntriesSnoc(names, errors);
    }
  }

  /** The last name of a list of distinct names is not among the keys
      built from the others. */
  lemma NewNameAbsent(names: seq<string>, errors: seq<string>)
    requires |names| == |errors| > 0
    requires forall i, j :: 0 <= i < j < |names| ==> names[i] != names[j]
    ensures var n := |names|;
            var front := StringEntries(names[..n - 1], errors[..n - 1]);
            forall i :: 0 <= i < |front| ==> front[i].0 != StringKey(names[n - 1])
  {
    var n := |names|;
    assert forall i :: 0 <= i < n - 1 ==> names[..n - 1][i] == names[i];
    forall i | 0 <= i < n - 1
      ensures StringKey(names[i]) != StringKey(names[n - 1])
    {
      StringKeyInjective(names[i], names[n - 1]);
    }
  }

  lemma StringEntriesSnoc(names: seq<string>, errors: seq<string>)
    requires |names| == |errors| > 0
    ensures var n := |names|;
            StringEntries(names, errors)
            == StringEntries(names[..n - 1], errors[..n - 1]) + [(StringKey(names[n - 1]), JStr(errors[n - 1]))]
  {
  }

  lemma {:induction false} TextsOfStringEntries(names: seq<string>, errors: seq<string>)
    requires |names| == |errors|
    ensures EntryTexts(StringEntries(names, errors)) == Ok(RowTexts(names, errors))
  {
    var e := StringEntries(names, errors);
    if e != [] {
      var n := |e|;
      TextsOfStringEntries(names[..n - 1], errors[..n - 1]);
      assert e[..n - 1] == StringEntries(names[..n - 1], errors[..n - 1]);
      var last := e[n - 1];
      assert last == (StringKey(names[n - 1]), JStr(errors[n - 1]));
      assert KeyText(last.0) == names[n - 1];
      assert Interpolate(last.1) == Ok(errors[n - 1]);
      assert RowTexts(names, errors) == RowTexts(names[..n - 1], errors[..n - 1]) + [names[n - 1] + ": " + errors[n - 1]];
    }
  }

  /** Rows are keyed by Name: a repeated Name is listed once, at its first
      position, with the Error of its last row. */
  lemma RepeatedNameListedOnce(name: string, first: string, last: string, other: string, error: string)
    requires other != name
    ensures ValidationMessage(JArr([ErrorRow(name, first), ErrorRow(other, error), ErrorRow(name, last)]))
         == Ok(name + ": " + last + ", " + other + ": " + error)
  {
    RepeatedNameColumn(name, first, last, other, error);
    RepeatedNameTexts(name, last, other, error);
    assert Implode(", ", [name + ": " + last, other + ": " + error]) == name + ": " + last + ", " + other + ": " + error;
  }

  /** The column of the three rows: the repeated name keeps its first
      position and takes its last error. */
  lemma RepeatedNameColumn(name: string, first: string, last: string, other: string, error: string)
    requires other != name
    ensures ErrorColumn([ErrorRow(name, first), ErrorRow(other, error), ErrorRow(name, last)])
         == Ok([(StringKey(name), JStr(last)), (StringKey(other), JStr(error))])
  {
    var r1, r2, r3 := ErrorRow(name, first), ErrorRow(other, error), ErrorRow(name, last);
    StringKeyInjective(name, other);
    var e1 := [(StringKey(name), JStr(first))];
    var e2 := e1 + [(StringKey(other), JStr(error))];
    var e3 := [(StringKey(name), JStr(last)), (StringKey(other), JStr(error))];
    assert [r1][..0] == [];
    assert ErrorColumn([r1]) == Ok(e1);
    assert [r1, r2][..1] == [r1];
    assert Assign(e1, StringKey(other), JStr(error)) == e2;
    assert ErrorColumn([r1, r2]) == Ok(e2);
    assert [r1, r2, r3][..2] == [r1, r2];
    assert Assign(e2, StringKey(name), JStr(last)) == e3;
  }

  lemma RepeatedNameTexts(name: string, last: string, other: string, error: string)
    ensures EntryTexts([(StringKey(name), JStr(last)), (StringKey(other), JStr(error))])
         == Ok([name + ": " + last, other + ": " + error])
  {
    var e3 := [(StringKey(name), JStr(last)), (StringKey(other), JStr(error))];
    var f := [(StringKey(name), JStr(last))];
    assert f[..0] == [];
    assert EntryTexts(f[..0]) == Ok([]);
    assert EntryTexts(f) == Ok([] + [name + ": " + last]);
    assert [] + [name + ": " + last] == [name + ": " + last];
    assert e3[..1] == f;
    assert e3[1] == (StringKey(other), JStr(error));
    assert Interpolate(JStr(error)) == Ok(error);
    assert KeyText(StringKey(other)) == other;
    assert EntryTexts(e3[..1]) == Ok([name + ": " + last]);
    assert EntryTexts(e3) == Ok([name + ": " + last] + [KeyText(e3[1].0) + ": " + error]);
    assert [name + ": " + last] + [other + ": " + error] == [name + ": " + last, other + ": " + error];
  }

  /** A `Name` in canonical decimal form becomes an integer key, so a row
      without a `Name` that follows it takes the next integer. */
  lemma NumericNameMovesNextIndex()
    ensures ValidationMessage(JArr([ErrorRow("5", "a"), JObj(map["Error" := JStr("b")])])) == Ok("5: a, 6: b")
  {
    NumericNameColumn();
    NumericNameTexts();
    assert ["5: a", "6: b"][1..] == ["6: b"];
    assert "5: a" + ", " + "6: b" == "5: a, 6: b";
  }

  lemma NumericNameColumn()
    ensures ErrorColumn([ErrorRow("5", "a"), JObj(map["Error" := JStr("b")])])
         == Ok([(IntKey(5), JStr("a")), (IntKey(6), JStr("b"))])
  {
    var r1, r2 := ErrorRow("5", "a"), JObj(map["Error" := JStr("b")]);
    IntegerKeyOfRendering(5);
    assert StringKey("5") == IntKey(5);
    var e1 := [(IntKey(5), JStr("a"))];
    assert [r1][..0] == [];
    assert ErrorColumn([r1]) == Ok(e1);
    assert [r1, r2][..1] == [r1];
    assert NextIndex(e1) == 6 by {
      assert e1[..0] == [];
    }
    assert e1 + [(IntKey(6), JStr("b"))] == [(IntKey(5), JStr("a")), (IntKey(6), JStr("b"))];
  }

  lemma NumericNameTexts()
    ensures EntryTexts([(IntKey(5), JStr("a")), (IntKey(6), JStr("b"))]) == Ok(["5: a", "6: b"])
  {
    var e1 := [(IntKey(5), JStr("a"))];
    var e2 := [(IntKey(5), JStr("a")), (IntKey(6), JStr("b"))];
    assert KeyText(IntKey(5)) == "5" by {
      IntegerKeyOfRendering(5);
      assert KeyText(StringKey("5")) == "5";
    }
    assert KeyText(IntKey(6)) == "6" by {
      assert NatToString(6) == [DigitChar(6)] == "6";
    }
    assert "5" + ": " + "a" == "5: a" && "6" + ": " + "b" == "6: b";
    assert e1[..0] == [];
    assert EntryTexts(e1[..0]) == Ok([]);
    assert EntryTexts(e1) == Ok([] + ["5: a"]);
    assert e2[1] == (IntKey(6), JStr("b"));
    assert [] + ["5: a"] == ["5: a"];
    assert e2[..|e2| - 1] == e1;
    assert EntryTexts(e2[..|e2| - 1]) == Ok(["5: a"]);
    assert Interpolate(JStr("b")) == Ok("b");
    assert EntryTexts(e2) == Ok(["5: a"] + ["6: b"]);
    assert ["5: a"] + ["6: b"] == ["5: a", "6: b"];
  }

  /** The `Name` "1" and the `Name` 1 make the same key, so the second row
      overwrites the first. */
  lemma NumericNameMeetsNumber()
    ensures ValidationMessage(JArr([ErrorRow("1", "a"), JObj(map["Name" := JNum(1), "Error" := JStr("b")])])) == Ok("1: b")
  {
    var r1, r2 := ErrorRow("1", "a"), JObj(map["Name" := JNum(1), "Error" := JStr("b")]);
    IntegerKeyOfRendering(1);
    assert StringKey("1") == IntKey(1);
    var e1 := [(IntKey(1), JStr("a"))];
    assert [r1][..0] == [];
    assert ErrorColumn([r1]) == Ok(e1);
    assert [r1, r2][..1] == [r1];
    var e2 := [(IntKey(1), JStr("b"))];
    assert KeyOf(r2.fields["Name"]) == Ok(IntKey(1));
    assert e1[1..] == [];
    assert Assign(e1, IntKey(1), JStr("b")) == e2;
    assert ErrorColumn([r1, r2]) == Ok(e2);
    assert e2[..0] == [];
    assert KeyText(IntKey(1)) == "1" by {
      assert KeyText(StringKey("1")) == "1";
    }
    assert "1" + ": " + "b" == "1: b";
    assert EntryTexts(e2[..0]) == Ok([]);
    assert EntryTexts(e2) == Ok([] + ["1: b"]);
  }

  /** "05" and "-0" are not canonical, so they stay string keys. */
  lemma NonCanonicalNamesStayStrings()
    ensures StringKey("05") == StrKey("05") && StringKey("-0") == StrKey("-0")
  {
    assert "-0"[1..] == "0";
  }

  // ---------------------------------------------------------------------
  // The decision procedure
  // ---------------------------------------------------------------------

  /** `getJsonErrors`: validation errors (ValidationErrors before
      FieldsErrors), else `Data.ErrorMessage`, else `Message`, else ''. The
      last two are returned as decoded, whatever their type. */
  function GetJsonErrors(json: Json): (r: Outcome<Json>)
    ensures !r.Thrown?
    ensures IsSet(json, "ValidationErrors") ==>
              r == (match ValidationMessage(json.fields["ValidationErrors"])
                    case Ok(m) => Ok(JStr(m))
                    case _ => EngineError)
    ensures !IsSet(json, "ValidationErrors") && IsSet(json, "FieldsErrors") ==>
              r == (match ValidationMessage(json.fields["FieldsErrors"])
                    case Ok(m) => Ok(JStr(m))
                    case _ => EngineError)
    ensures !IsSet(json, "ValidationErrors") && !IsSet(json, "FieldsErrors") ==>
              && r.Ok?
              && (IsSet(Prop(json, "Data"), "ErrorMessage") ==> r.value == Prop(json, "Data").fields["ErrorMessage"])
              && (!IsSet(Prop(json, "Data"), "ErrorMessage") && IsSet(json, "Message") ==> r.value == json.fields["Message"])
              && (!IsSet(Prop(json, "Data"), "ErrorMessage") && !IsSet(json, "Message") ==> r.value == JStr(""))
    ensures !json.JObj? ==> r == Ok(JStr(""))
  {
    if IsSet(json, "ValidationErrors") || IsSet(json, "FieldsErrors") then
      var errors := if IsSet(json, "ValidationErrors") then json.fields["ValidationErrors"] else json.fields["FieldsErrors"];
      match ValidationMessage(errors)
      case Ok(m) => Ok(JStr(m))
      case _ => EngineError
    else if IsSet(Prop(json, "Data"), "ErrorMessage") then
      Ok(Prop(json, "Data").fields["ErrorMessage"])
    else if IsSet(json, "Message") then
      Ok(json.fields["Message"])
    else
      Ok(JStr(""))
  }

  predicate Succeeded(json: Json) {
    IsSet(json, "IsSuccess") && Truthy(json.fields["IsSuccess"])
  }

  /** `getAPIError`: the error of a response, '' when there is none. */
  function GetApiError(json: Json, res: string, stripTags: string -> string): (r: Outcome<Json>)
    ensures !r.Thrown?
    // A truthy IsSuccess wins over everything else in the response.
    ensures Succeeded(json) ==> r == Ok(JStr(""))
    // Markup is looked for before any JSON field.
    ensures !Succeeded(json) && stripTags(res) != res ==>
              r.Ok? && r.value.JStr? && r.value.s == PageText(stripTags(res)) && Collapsed(r.value.s)
    ensures !Succeeded(json) && stripTags(res) == res ==>
              (r.EngineError? <==> GetJsonErrors(json).EngineError?)
    ensures !Succeeded(json) && stripTags(res) == res && GetJsonErrors(json).Ok? && Truthy(GetJsonErrors(json).value) ==>
              r == GetJsonErrors(json)
    // An undecodable or falsy body is its own message, or the configuration hint.
    ensures !Truthy(json) && stripTags(res) == res ==>
              r == Ok(JStr(if EmptyString(res) then ConfigurationMessage else res))
    // A decoded bare string is the message.
    ensures json.JStr? && Truthy(json) && stripTags(res) == res ==> r == Ok(json)
    // An object with none of the error fields is no error.
    ensures json.JObj? && !Succeeded(json) && stripTags(res) == res && GetJsonErrors(json) == Ok(JStr("")) ==>
              r == Ok(JStr(""))
    // Any other decoded value whose error fields are all falsy is no error.
    ensures Truthy(json) && !json.JStr? && stripTags(res) == res && GetJsonErrors(json).Ok? && !Truthy(GetJsonErrors(json).value) ==>
              r == Ok(JStr(""))
  {
    if Succeeded(json) then Ok(JStr(""))
    else if stripTags(res) != res then Ok(JStr(PageText(stripTags(res))))
    else
      match GetJsonErrors(json)
      case Ok(err) =>
        if Truthy(err) then Ok(err)
        else if !Truthy(json) then Ok(JStr(if !EmptyString(res) then res else ConfigurationMessage))
        else if json.JStr? then Ok(json)
        else Ok(JStr(""))
      case _ => EngineError
  }

  /** `callAPI` after the transfer: a cURL error string is thrown as it is;
      otherwise the body is decoded and the call throws exactly when
      `getAPIError` finds a (truthy) error, else returns the decoded value. */
  function CallApi(curlError: string, res: string, jsonDecode: string -> Json, stripTags: string -> string): (r: Outcome<Json>)
    ensures !EmptyString(curlError) ==> r == Thrown(curlError)
    ensures EmptyString(curlError) ==>
              && (r.Ok? <==> GetApiError(jsonDecode(res), res, stripTags).Ok? && !Truthy(GetApiError(jsonDecode(res), res, stripTags).value))
              && (r.Ok? ==> r.value == jsonDecode(res))
              && (r.Thrown? ==> r.message != "" && r.message != "0")
    ensures EmptyString(curlError) && Succeeded(jsonDecode(res)) ==> r == Ok(jsonDecode(res))
    // A truthy error is thrown as `new Exception($error)`: its string
    // conversion is the message, and an array or object cannot be converted.
    ensures EmptyString(curlError) && GetApiError(jsonDecode(res), res, stripTags).Ok? && Truthy(GetApiError(jsonDecode(res), res, stripTags).value) ==>
              r == (match ExceptionMessage(GetApiError(jsonDecode(res), res, stripTags).value)
                    case Ok(m) => Thrown(m)
                    case _ => EngineError)
    ensures EmptyString(curlError) && GetApiError(jsonDecode(res), res, stripTags).Ok? && GetApiError(jsonDecode(res), res, stripTags).value.JStr? &&
            Truthy(GetApiError(jsonDecode(res), res, stripTags).value) ==>
              r == Thrown(GetApiError(jsonDecode(res), res, stripTags).value.s)
  {
    if !EmptyString(curlError) then Thrown(curlError)
    else
      var json := jsonDecode(res);
      match GetApiError(json, res, stripTags)
      case Ok(error) =>
        if Truthy(error) then
          (match ExceptionMessage(error)
           case Ok(m) => Thrown(m)
           case _ => EngineError)
        else Ok(json)
      case _ => EngineError
  }
}
