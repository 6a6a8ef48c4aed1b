/** The fragment of PHP's runtime semantics the client relies on: how a call
    ends, decoded JSON values, truthiness, string conversion, the string
    functions `strtolower`, `strtoupper` and `trim`, and the rounding
    functions `ceil`, `round` and the `(int)` cast, over exact reals. */
module Php {

  datatype Option<+T> = None | Some(value: T)

  /** How a PHP call ends: with a value, by throwing an `Exception` with a
      message, or with an engine `Error` (a `TypeError` or a
      `DivisionByZeroError`) that no code of the library catches. */
  datatype Outcome<+T> = Ok(value: T) | Thrown(message: string) | EngineError

  /** A value as `json_decode` returns it without the associative flag:
      JSON objects become `stdClass` objects whose properties are looked up
      by name, JSON arrays become lists. */
  datatype Json =
    | JNull
    | JBool(b: bool)
    | JNum(n: int)
    | JStr(s: string)
    | JArr(items: seq<Json>)
    | JObj(fields: map<string, Json>)

  /** PHP's conversion to bool (`if ($x)`, `!$x`, `$x == true`). */
  predicate Truthy(j: Json) {
    match j
    case JNull => false
    case JBool(b) => b
    case JNum(n) => n != 0
    case JStr(s) => s != "" && s != "0"
    case JArr(items) => items != []
    case JObj(_) => true
  }

  /** `empty($s)` for a string. */
  predicate EmptyString(s: string) {
    s == "" || s == "0"
  }

  /** `isset($j->name)`: `$j` is an object with that property and it is not null. */
  predicate IsSet(j: Json, name: string) {
    j.JObj? && name in j.fields && j.fields[name] != JNull
  }

  /** `$j->name` read without `isset`: a missing property, or a property of
      something that is not an object, reads as null (with a warning). */
  function Prop(j: Json, name: string): (r: Json)
    ensures r != JNull ==> IsSet(j, name) && r == j.fields[name]
    ensures IsSet(j, name) ==> r == j.fields[name]
  {
    if j.JObj? && name in j.fields then j.fields[name] else JNull
  }

  function DigitChar(d: nat): (c: char)
    requires d < 10
    ensures '0' <= c <= '9' && c as int - '0' as int == d
  {
    ('0' as int + d) as char
  }

  predicate IsDigit(c: char) {
    '0' <= c <= '9'
  }

  /** The decimal rendering PHP gives a non-negative integer. */
  function NatToString(n: nat): (s: string)
    ensures s != [] && forall i :: 0 <= i < |s| ==> IsDigit(s[i])
    ensures n < 10 ==> |s| == 1
    ensures n >= 10 ==> |s| >= 2
    ensures s == "0" <==> n == 0
    ensures n > 0 ==> s[0] != '0'
  {
    if n < 10 then [DigitChar(n)] else NatToString(n / 10) + [DigitChar(n % 10)]
  }

  /** The decimal rendering PHP gives an integer (`"$n"`). */
  function IntToString(n: int): (s: string)
    ensures s != []
    ensures s == "0" <==> n == 0
  {
    if n < 0 then "-" + NatToString(-n) else NatToString(n)
  }

  /** The value of a string of ASCII digits. */
  function DigitsValue(s: string): nat
    requires forall i :: 0 <= i < |s| ==> IsDigit(s[i])
  {
    if s == [] then 0
    else
      assert IsDigit(s[|s| - 1]);
      DigitsValue(s[..|s| - 1]) * 10 + (s[|s| - 1] as int - '0' as int)
  }

  /** ASCII digits with no leading zero, or "0" itself. */
  predicate CanonicalDigits(s: string) {
    && s != []
    && (forall i :: 0 <= i < |s| ==> IsDigit(s[i]))
    && (s[0] == '0' ==> |s| == 1)
  }

  const PhpIntMax: int := 0x7FFF_FFFF_FFFF_FFFF

  /** A string that PHP turns into an integer when it is used as an array
      key: the canonical decimal form of a 64-bit integer. "0", "5" and
      "-12" qualify; "05", "-0", "+5", " 5", "1.0" and numbers beyond the
      64-bit range stay strings. */
  predicate IsIntegerKey(s: string) {
    if s != [] && s[0] == '-' then
      CanonicalDigits(s[1..]) && s[1..] != "0" && DigitsValue(s[1..]) <= PhpIntMax + 1
    else
      CanonicalDigits(s) && DigitsValue(s) <= PhpIntMax
  }

  /** The integer such a key string stands for. */
  function IntegerKeyValue(s: string): (n: int)
    requires IsIntegerKey(s)
    ensures IntToString(n) == s
    ensures -PhpIntMax - 1 <= n <= PhpIntMax
  {
    if s[0] == '-' then
      var d := s[1..];
      CanonicalDigitsRoundTrip(d);
      assert d != "0";
      assert "-" + d == s;
      -(DigitsValue(d) as int)
    else
      CanonicalDigitsRoundTrip(s);
      DigitsValue(s)
  }

  /** Digits with a non-zero first digit have a positive value. */
  lemma {:induction false} LeadingDigitPositive(s: string)
    requires s != [] && (forall i :: 0 <= i < |s| ==> IsDigit(s[i])) && s[0] != '0'
    ensures DigitsValue(s) > 0
  {
    if |s| > 1 {
      LeadingDigitPositive(s[..|s| - 1]);
    }
  }

  /** Rendering the value of canonical digits gives the digits back. */
  lemma {:induction false} CanonicalDigitsRoundTrip(s: string)
    requires CanonicalDigits(s)
    ensures NatToString(DigitsValue(s)) == s
    decreases |s|
  {
    if |s| > 1 {
      var p, last := s[..|s| - 1], s[|s| - 1];
      LeadingDigitPositive(p);
      CanonicalDigitsRoundTrip(p);
      var v, d := DigitsValue(s), last as int - '0' as int;
      assert v == DigitsValue(p) * 10 + d && 0 <= d < 10;
      assert v / 10 == DigitsValue(p) && v % 10 == d;
      assert DigitChar(d) == last;
      assert NatToString(v) == p + [last];
      assert p + [last] == s;
    } else {
      assert NatToString(DigitsValue(s)) == [s[0]];
    }
  }

  /** The value of the rendering of `n` is `n`. */
  lemma {:induction false} NatToStringValue(n: nat)
    ensures DigitsValue(NatToString(n)) == n
  {
    if n >= 10 {
      NatToStringValue(n / 10);
      var s := NatToString(n);
      assert s[..|s| - 1] == NatToString(n / 10);
    }
  }

  /** Different numbers render differently. */
  lemma NatToStringInjective(m: nat, n: nat)
    requires m != n
    ensures NatToString(m) != NatToString(n)
  {
    NatToStringValue(m);
    NatToStringValue(n);
  }

  /** Every 64-bit integer's decimal rendering is an integer key, and it
      stands for that integer. */
  lemma IntegerKeyOfRendering(n: int)
    requires -PhpIntMax - 1 <= n <= PhpIntMax
    ensures IsIntegerKey(IntToString(n)) && IntegerKeyValue(IntToString(n)) == n
  {
    var s := IntToString(n);
    if n < 0 {
      NatToStringValue(-n);
      assert s[1..] == NatToString(-n);
    } else {
      NatToStringValue(n);
    }
  }

  /** Concatenation is associative; stated once so that proofs can cite it
      instead of rediscovering it. */
  lemma AppendAssoc<T>(a: seq<T>, b: seq<T>, c: seq<T>)
    ensures (a + b) + c == a + (b + c)
  {
  }

  /** String interpolation `"$v"`: an array becomes "Array" (with a
      warning), a `stdClass` object cannot be converted and raises an
      engine error. */
  function Interpolate(j: Json): (r: Outcome<string>)
    ensures r.EngineError? <==> j.JObj?
    ensures !r.Thrown?
  {
    match j
    case JNull => Ok("")
    case JBool(b) => Ok(if b then "1" else "")
    case JNum(n) => Ok(IntToString(n))
    case JStr(s) => Ok(s)
    case JArr(_) => Ok("Array")
    case JObj(_) => EngineError
  }

  /** `new Exception($v)`: the message parameter is a string, so an array
      or an object is a `TypeError`; scalars are coerced. */
  function ExceptionMessage(j: Json): (r: Outcome<string>)
    ensures r.EngineError? <==> j.JArr? || j.JObj?
    ensures j.JStr? ==> r == Ok(j.s)
    ensures !r.Thrown?
  {
    if j.JArr? then EngineError else Interpolate(j)
  }

  /** `strtolower` on one character: ASCII letters only (bytes of a
      multi-byte character are never ASCII letters). */
  function LowerChar(c: char): char {
    if 'A' <= c <= 'Z' then (c as int + 32) as char else c
  }

  function UpperChar(c: char): char {
    if 'a' <= c <= 'z' then (c as int - 32) as char else c
  }

  function ToLower(s: string): (r: string)
    ensures |r| == |s|
    ensures forall i :: 0 <= i < |s| ==> r[i] == LowerChar(s[i])
  {
    seq(|s|, i requires 0 <= i < |s| => LowerChar(s[i]))
  }

  function ToUpper(s: string): (r: string)
    ensures |r| == |s|
    ensures forall i :: 0 <= i < |s| ==> r[i] == UpperChar(s[i])
  {
    seq(|s|, i requires 0 <= i < |s| => UpperChar(s[i]))
  }

  /** Lower-casing twice is lower-casing once, so every function that
      lower-cases its input first answers the same for `s` and `ToLower(s)`. */
  lemma ToLowerIdempotent(s: string)
    ensures ToLower(ToLower(s)) == ToLower(s)
  {
    assert forall i :: 0 <= i < |s| ==> LowerChar(LowerChar(s[i])) == LowerChar(s[i]);
  }

  lemma ToUpperIdempotent(s: string)
    ensures ToUpper(ToUpper(s)) == ToUpper(s)
  {
    assert forall i :: 0 <= i < |s| ==> UpperChar(UpperChar(s[i])) == UpperChar(s[i]);
  }

  /** The characters `trim` removes by default: " \t\n\r\0\x0B". */
  predicate IsTrimmed(c: char) {
    c == ' ' || c == '\t' || c == '\n' || c == '\r' || c == '\0' || c == '\U{B}'
  }

  /** The index of the first character at or after `i` that `trim` keeps,
      or `|s|` if there is none. */
  function FirstKept(s: string, i: nat): (k: nat)
    requires i <= |s|
    ensures i <= k <= |s| && (k == |s| || !IsTrimmed(s[k]))
    ensures forall m :: i <= m < k ==> IsTrimmed(s[m])
    decreases |s| - i
  {
    if i < |s| && IsTrimmed(s[i]) then FirstKept(s, i + 1) else i
  }

  /** The end of the last character before `j` that `trim` keeps, or 0 if
      there is none. */
  function EndKept(s: string, j: nat): (k: nat)
    requires j <= |s|
    ensures k <= j && (k == 0 || !IsTrimmed(s[k - 1]))
    ensures forall m :: k <= m < j ==> IsTrimmed(s[m])
  {
    if j > 0 && IsTrimmed(s[j - 1]) then EndKept(s, j - 1) else j
  }

  /** `ltrim($s)`. */
  function TrimLeft(s: string): (r: string)
    ensures |r| <= |s| && r == s[|s| - |r|..]
    ensures r == [] || !IsTrimmed(r[0])
    ensures forall i :: 0 <= i < |s| - |r| ==> IsTrimmed(s[i])
  {
    s[FirstKept(s, 0)..]
  }

  /** `rtrim($s)`. */
  function TrimRight(s: string): (r: string)
    ensures |r| <= |s| && r == s[..|r|]
    ensures r == [] || !IsTrimmed(r[|r| - 1])
    ensures forall i :: |r| <= i < |s| ==> IsTrimmed(s[i])
  {
    s[..EndKept(s, |s|)]
  }

  /** `trim($s)`: the longest infix of `s` that neither starts nor ends with
      a trimmed character, obtained by dropping only trimmed characters. */
  function Trim(s: string): (r: string)
    ensures |r| <= |TrimLeft(s)| && r == s[|s| - |TrimLeft(s)|..|s| - |TrimLeft(s)| + |r|]
    ensures r == [] || (!IsTrimmed(r[0]) && !IsTrimmed(r[|r| - 1]))
    ensures forall i :: 0 <= i < |s| - |TrimLeft(s)| ==> IsTrimmed(s[i])
    ensures forall i :: |s| - |TrimLeft(s)| + |r| <= i < |s| ==> IsTrimmed(s[i])
  {
    var l := TrimLeft(s);
    var r := TrimRight(l);
    PrefixOfSuffix(s, l, r);
    r
  }

  /** A prefix of a suffix is an infix. */
  lemma PrefixOfSuffix(s: string, l: string, r: string)
    requires |l| <= |s| && l == s[|s| - |l|..]
    requires |r| <= |l| && r == l[..|r|]
    ensures r == s[|s| - |l|..|s| - |l| + |r|]
  {
  }

  /** `implode($sep, $parts)`: the parts in order, with `sep` between
      neighbours and nowhere else. */
  function Implode(sep: string, parts: seq<string>): (r: string)
    ensures parts == [] ==> r == ""
    ensures |parts| == 1 ==> r == parts[0]
  {
    if parts == [] then ""
    else if |parts| == 1 then parts[0]
    else parts[0] + sep + Implode(sep, parts[1..])
  }

  /** Adding a part at the end adds one separator and the part. */
  lemma {:induction false} ImplodeSnoc(sep: string, parts: seq<string>, p: string)
    requires parts != []
    ensures Implode(sep, parts + [p]) == Implode(sep, parts) + sep + p
    decreases |parts|
  {
    var ps := parts + [p];
    assert ps[0] == parts[0];
    if |parts| == 1 {
      assert ps[1..] == [p];
    } else {
      assert ps[1..] == parts[1..] + [p];
      ImplodeSnoc(sep, parts[1..], p);
      AppendAssoc(parts[0] + sep, Implode(sep, parts[1..]) + sep, p);
      AppendAssoc(parts[0] + sep, Implode(sep, parts[1..]), sep);
    }
  }

  /** `ceil($x)`. */
  function Ceil(x: real): (r: int)
    ensures x <= r as real < x + 1.0
  {
    -((-x).Floor)
  }

  /** The `(int)` cast of a number: truncation toward zero. */
  function TruncToInt(x: real): (r: int)
    ensures 0.0 <= x ==> r as real <= x < r as real + 1.0
    ensures x < 0.0 ==> r as real - 1.0 < x <= r as real
  {
    if 0.0 <= x then x.Floor else -((-x).Floor)
  }

  /** `round($x)`: to the nearest integer, halves away from zero. */
  function RoundHalfAwayFromZero(x: real): (r: int)
    ensures r as real - 0.5 <= x <= r as real + 0.5
    ensures 0.0 <= x ==> r as real - 0.5 <= x < r as real + 0.5
    ensures x < 0.0 ==> r as real - 0.5 < x <= r as real + 0.5
  {
    if 0.0 <= x then (x + 0.5).Floor else -((-x + 0.5).Floor)
  }
}
