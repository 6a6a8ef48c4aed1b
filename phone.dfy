/** `MyfatoorahApiV2::getPhone`: normalise a phone number typed by a
    customer and split it into a country code and the rest. Characters are
    Unicode code points; the PHP code works on UTF-8 bytes, which gives the
    same result here because every pattern is a whole code point and the
    digit filter keeps only ASCII digits. */
module Phone {
  import opened Php

  const PhoneLengthMessage: string := "Phone Number lenght must be between 3 to 14 digits"

  /** The ten one-character strings of consecutive code points starting at
      `zero`: `range(0, 9)` for '0', the Arabic-Indic digits for U+0660, the
      Extended Arabic-Indic (Persian) digits for U+06F0. */
  function DigitTable(zero: int): (t: seq<string>)
    requires 0 <= zero && zero + 10 < 0xD800
    ensures |t| == 10 && forall k :: 0 <= k < 10 ==> t[k] == [(zero + k) as char]
  {
    seq(10, k requires 0 <= k < 10 => [(zero + k) as char])
  }

  function AsciiDigits(): seq<string> { DigitTable('0' as int) }

  function ArabicDigits(): (t: seq<string>)
    ensures OneCharTable(t, AsciiDigits())
  {
    DigitTableOneChar(0x0660);
    DigitTable(0x0660)
  }

  function PersianDigits(): (t: seq<string>)
    ensures OneCharTable(t, AsciiDigits())
  {
    DigitTableOneChar(0x06F0);
    DigitTable(0x06F0)
  }

  lemma DigitTableOneChar(zero: int)
    requires 0 <= zero && zero + 10 < 0xD800
    ensures OneCharTable(DigitTable(zero), AsciiDigits())
  {
  }

  /** The HTML decimal entities "&#n;" for the ten code points from `zero`:
      '&#1776;' ... '&#1785;' for Persian digits, '&#1632;' ... '&#1641;'
      for Arabic-Indic ones. */
  function EntityTable(zero: nat): (t: seq<string>)
    ensures |t| == 10 && forall k :: 0 <= k < 10 ==> t[k] == "&#" + NatToString(zero + k) + ";"
  {
    seq(10, k requires 0 <= k < 10 => "&#" + NatToString(zero + k) + ";")
  }

  function PersianEntities(): (t: seq<string>)
    ensures Table(t, AsciiDigits()) && forall i :: 0 <= i < |t| ==> t[i][0] == '&'
  {
    EntityTableAmp(1776);
    EntityTable(1776)
  }

  function ArabicEntities(): (t: seq<string>)
    ensures Table(t, AsciiDigits()) && forall i :: 0 <= i < |t| ==> t[i][0] == '&'
  {
    EntityTableAmp(1632);
    EntityTable(1632)
  }

  /** Every entity is non-empty and starts with '&'. */
  lemma EntityTableAmp(zero: nat)
    ensures var t := EntityTable(zero);
            Table(t, AsciiDigits()) && forall i :: 0 <= i < |t| ==> t[i][0] == '&'
  {
    var t := EntityTable(zero);
    forall i | 0 <= i < 10
      ensures t[i] != [] && t[i][0] == '&'
    {
      assert t[i] == "&#" + NatToString(zero + i) + ";";
    }
  }

  /** `str_replace($pat, $rep, $s)`: every occurrence, scanning left to
      right without overlaps. */
  function ReplaceAll(s: string, pat: string, rep: string): string
    requires pat != []
    decreases |s|
  {
    if |s| < |pat| then s
    else if s[..|pat|] == pat then rep + ReplaceAll(s[|pat|..], pat, rep)
    else [s[0]] + ReplaceAll(s[1..], pat, rep)
  }

  /** Search and replacement arrays of the same length, no empty pattern. */
  predicate Table(search: seq<string>, replace: seq<string>) {
    |search| == |replace| && forall i :: 0 <= i < |search| ==> search[i] != []
  }

  /** `str_replace($search, $replace, $s)` with two arrays: one full pass per
      pair, in order. */
  function ReplaceEach(s: string, search: seq<string>, replace: seq<string>): string
    requires Table(search, replace)
    decreases |search|
  {
    if search == [] then s else ReplaceEach(ReplaceAll(s, search[0], replace[0]), search[1..], replace[1..])
  }

  /** `preg_replace('/[^0-9]/', '', $s)`. */
  function KeepDigits(s: string): (r: string)
    ensures forall i :: 0 <= i < |r| ==> IsDigit(r[i])
    ensures (forall i :: 0 <= i < |s| ==> IsDigit(s[i])) ==> r == s
    ensures |s| == 1 && !IsDigit(s[0]) ==> r == []
  {
    if s == [] then [] else (if IsDigit(s[0]) then [s[0]] else []) + KeepDigits(s[1..])
  }

  /** The digit filter keeps the digits of each part of a string: together
      with its clause on all-digit strings, this fixes which characters it
      keeps and their order. */
  lemma {:induction false} KeepDigitsAppend(a: string, b: string)
    ensures KeepDigits(a + b) == KeepDigits(a) + KeepDigits(b)
    decreases |a|
  {
    if a == [] {
      assert a + b == b;
    } else {
      assert (a + b)[0] == a[0];
      assert (a + b)[1..] == a[1..] + b;
      KeepDigitsAppend(a[1..], b);
      var head := if IsDigit(a[0]) then [a[0]] else [];
      AppendAssoc(head, KeepDigits(a[1..]), KeepDigits(b));
    }
  }

  /** Drop one leading "00", and only one. */
  function StripDoubleZero(s: string): (r: string)
    ensures |s| >= 2 && s[..2] == "00" ==> r == s[2..]
    ensures !(|s| >= 2 && s[..2] == "00") ==> r == s
  {
    if |s| >= 2 && s[..2] == "00" then s[2..] else s
  }

  /** The four `str_replace` passes: HTML entities of Persian and of
      Arabic-Indic digits, then Arabic-Indic and Persian digits, all to
      ASCII digits. */
  function ReplaceNativeDigits(input: string): (r: string)
    // The two digit passes put every Arabic-Indic and Persian digit left
    // by the entity passes in ASCII, and change nothing else.
    ensures r == Westernised(ReplaceEach(ReplaceEach(input, PersianEntities(), AsciiDigits()), ArabicEntities(), AsciiDigits()))
  {
    var string0 := ReplaceEach(input, PersianEntities(), AsciiDigits());
    var string1 := ReplaceEach(string0, ArabicEntities(), AsciiDigits());
    DigitPassesWesternise(string1);
    var string2 := ReplaceEach(string1, ArabicDigits(), AsciiDigits());
    ReplaceEach(string2, PersianDigits(), AsciiDigits())
  }

  /** The digits of the number after every normalisation step. */
  function NormalisedPhone(input: string): (r: string)
    ensures forall i :: 0 <= i < |r| ==> IsDigit(r[i])
  {
    StripDoubleZero(KeepDigits(ReplaceNativeDigits(input)))
  }

  /** What `getPhone` answers for normalised digits `n`: ['', ''] when
      nothing (or just "0") is left; an exception when the length is
      outside [3, 14]; else, for more than six digits, the first three as
      the code and the rest as the number, and for fewer, an empty code and
      all digits as the number. */
  function PhoneParts(n: string): (r: Outcome<(string, string)>)
    ensures !r.EngineError?
    ensures EmptyString(n) ==> r == Ok(("", ""))
    ensures !EmptyString(n) ==> (r.Thrown? <==> |n| < 3 || |n| > 14)
    ensures r.Thrown? ==> r.message == PhoneLengthMessage
    ensures r.Ok? && !EmptyString(n) ==>
              && r.value.0 + r.value.1 == n
              && (if |n| > 6 then |r.value.0| == 3 else r.value.0 == "")
  {
    if EmptyString(n) then Ok(("", ""))
    else if |n| < 3 || |n| > 14 then Thrown(PhoneLengthMessage)
    else if |n| - 3 > 3 then
      assert n[..3] + n[3..] == n;
      Ok((n[..3], n[3..]))
    else Ok(("", n))
  }

  /** `getPhone`, step by step as the source reassigns its strings. */
  method GetPhone(inputString: string) returns (r: Outcome<(string, string)>)
    ensures r == PhoneParts(NormalisedPhone(inputString))
  {
    var string0 := ReplaceEach(inputString, PersianEntities(), AsciiDigits());
    var string1 := ReplaceEach(string0, ArabicEntities(), AsciiDigits());
    var string2 := ReplaceEach(string1, ArabicDigits(), AsciiDigits());
    var string3 := ReplaceEach(string2, PersianDigits(), AsciiDigits());

    assert string3 == ReplaceNativeDigits(inputString);
    var digits := KeepDigits(string3);
    var string4 := digits;
    if |string4| >= 2 && string4[..2] == "00" {
      string4 := string4[2..];
    }
    assert string4 == StripDoubleZero(digits);

    if EmptyString(string4) {
      return Ok(("", ""));
    }

    var len := |string4|;
    if len < 3 || len > 14 {
      return Thrown(PhoneLengthMessage);
    }

    if |string4[3..]| > 3 {
      return Ok((string4[..3], string4[3..]));
    } else {
      return Ok(("", string4));
    }
  }

  // ---------------------------------------------------------------------
  // Native digits become ASCII digits
  // ---------------------------------------------------------------------

  /** A table of one-character patterns and replacements. */
  predicate OneCharTable(search: seq<string>, replace: seq<string>) {
    && Table(search, replace)
    && forall i :: 0 <= i < |search| ==> |search[i]| == 1 && |replace[i]| == 1
  }

  /** The character such a table leaves in place of `c` after all its
      passes: the replacement of the first pattern equal to `c`. */
  function TranslateChar(c: char, search: seq<string>, replace: seq<string>): char
    requires OneCharTable(search, replace)
    decreases |search|
  {
    if search == [] then c
    else if [c] == search[0] then replace[0][0]
    else TranslateChar(c, search[1..], replace[1..])
  }

  lemma {:induction false} ReplaceAllOneChar(s: string, a: char, b: char)
    ensures ReplaceAll(s, [a], [b]) == seq(|s|, i requires 0 <= i < |s| => if s[i] == a then b else s[i])
  {
    if s != [] {
      ReplaceAllOneChar(s[1..], a, b);
      assert s[..1] == [s[0]];
      assert s[1..] == s[|[a]|..];
    }
  }

  lemma {:induction false} TranslateCharUnsearched(c: char, search: seq<string>, replace: seq<string>)
    requires OneCharTable(search, replace)
    requires forall i :: 0 <= i < |search| ==> search[i] != [c]
    ensures TranslateChar(c, search, replace) == c
    decreases |search|
  {
    if search != [] {
      TranslateCharUnsearched(c, search[1..], replace[1..]);
    }
  }

  /** The passes of a one-character table in which no replacement is
      searched for act character by character. */
  lemma {:induction false} ReplaceEachOneChar(s: string, search: seq<string>, replace: seq<string>)
    requires OneCharTable(search, replace)
    requires forall i, j :: 0 <= i < |search| && 0 <= j < |replace| ==> search[i] != replace[j]
    ensures ReplaceEach(s, search, replace) == seq(|s|, i requires 0 <= i < |s| => TranslateChar(s[i], search, replace))
    decreases |search|
  {
    if search != [] {
      var a, b := search[0][0], replace[0][0];
      assert search[0] == [a] && replace[0] == [b];
      var t := ReplaceAll(s, search[0], replace[0]);
      ReplaceAllOneChar(s, a, b);
      ReplaceEachOneChar(t, search[1..], replace[1..]);
      forall i | 0 <= i < |s|
        ensures TranslateChar(t[i], search[1..], replace[1..]) == TranslateChar(s[i], search, replace)
      {
        if s[i] == a {
          TranslateCharUnsearched(b, search[1..], replace[1..]);
        }
      }
    }
  }

  lemma {:induction false} ReplaceAllAbsent(s: string, pat: string, rep: string)
    requires pat != [] && forall i :: 0 <= i < |s| ==> s[i] != pat[0]
    ensures ReplaceAll(s, pat, rep) == s
    decreases |s|
  {
    if |s| >= |pat| {
      assert s[..|pat|][0] == s[0];
      ReplaceAllAbsent(s[1..], pat, rep);
    }
  }

  /** Passes whose patterns all start with a character `s` lacks change nothing. */
  lemma {:induction false} ReplaceEachAbsent(s: string, search: seq<string>, replace: seq<string>, first: char)
    requires Table(search, replace)
    requires forall i :: 0 <= i < |search| ==> search[i][0] == first
    requires forall i :: 0 <= i < |s| ==> s[i] != first
    ensures ReplaceEach(s, search, replace) == s
    decreases |search|
  {
    if search != [] {
      ReplaceAllAbsent(s, search[0], replace[0]);
      ReplaceEachAbsent(s, search[1..], replace[1..], first);
    }
  }

  predicate IsArabicDigit(c: char) { 0x0660 <= c as int <= 0x0669 }

  predicate IsPersianDigit(c: char) { 0x06F0 <= c as int <= 0x06F9 }

  /** The ASCII digit a native digit stands for. */
  function AsciiDigit(c: char): (d: char)
    requires IsDigit(c) || IsArabicDigit(c) || IsPersianDigit(c)
    ensures IsDigit(d)
  {
    if IsArabicDigit(c) then (c as int - 0x0660 + '0' as int) as char
    else if IsPersianDigit(c) then (c as int - 0x06F0 + '0' as int) as char
    else c
  }

  lemma {:induction false} TranslateAt(c: char, search: seq<string>, replace: seq<string>, k: nat)
    requires OneCharTable(search, replace)
    requires k < |search| && search[k] == [c]
    requires forall i :: 0 <= i < k ==> search[i] != [c]
    ensures TranslateChar(c, search, replace) == replace[k][0]
    decreases k
  {
    if k > 0 {
      TranslateAt(c, search[1..], replace[1..], k - 1);
    }
  }

  /** After the Arabic-Indic and the Persian passes, every kind of digit
      has become its ASCII digit. */
  lemma TranslateNative(c: char)
    requires IsDigit(c) || IsArabicDigit(c) || IsPersianDigit(c)
    ensures TranslateChar(TranslateChar(c, ArabicDigits(), AsciiDigits()), PersianDigits(), AsciiDigits()) == AsciiDigit(c)
  {
    if IsArabicDigit(c) {
      TranslateArabic(c);
    } else if IsPersianDigit(c) {
      TranslatePersian(c);
    } else {
      TranslateAscii(c);
    }
  }

  lemma TranslateArabic(c: char)
    requires IsArabicDigit(c)
    ensures TranslateChar(TranslateChar(c, ArabicDigits(), AsciiDigits()), PersianDigits(), AsciiDigits()) == AsciiDigit(c)
  {
    var ar, fa, ascii := ArabicDigits(), PersianDigits(), AsciiDigits();
    var k := c as int - 0x0660;
    DigitTableFinds(0x0660, c);
    DigitTableMisses(0x06F0, ascii[k][0]);
    TranslateAt(c, ar, ascii, k);
    TranslateCharUnsearched(ascii[k][0], fa, ascii);
  }

  lemma TranslatePersian(c: char)
    requires IsPersianDigit(c)
    ensures TranslateChar(TranslateChar(c, ArabicDigits(), AsciiDigits()), PersianDigits(), AsciiDigits()) == AsciiDigit(c)
  {
    var ar, fa, ascii := ArabicDigits(), PersianDigits(), AsciiDigits();
    var k := c as int - 0x06F0;
    DigitTableMisses(0x0660, c);
    DigitTableFinds(0x06F0, c);
    TranslateCharUnsearched(c, ar, ascii);
    TranslateAt(c, fa, ascii, k);
  }

  lemma TranslateAscii(c: char)
    requires IsDigit(c)
    ensures TranslateChar(TranslateChar(c, ArabicDigits(), AsciiDigits()), PersianDigits(), AsciiDigits()) == c
  {
    var ar, fa, ascii := ArabicDigits(), PersianDigits(), AsciiDigits();
    DigitTablesDisjoint(0x0660, '0' as int);
    DigitTablesDisjoint(0x06F0, '0' as int);
    assert [c] == ascii[c as int - '0' as int];
    TranslateCharUnsearched(c, ar, ascii);
    TranslateCharUnsearched(c, fa, ascii);
  }

  predicate NativeDigits(input: string) {
    forall i :: 0 <= i < |input| ==> IsDigit(input[i]) || IsArabicDigit(input[i]) || IsPersianDigit(input[i])
  }

  /** The ASCII digits a string of native digits stands for. */
  function AsciiOf(input: string): (r: string)
    requires NativeDigits(input)
    ensures |r| == |input| && forall i :: 0 <= i < |r| ==> r[i] == AsciiDigit(input[i]) && IsDigit(r[i])
  {
    seq(|input|, i requires 0 <= i < |input| => AsciiDigit(input[i]))
  }

  lemma AsciiOfAscii(input: string)
    requires forall i :: 0 <= i < |input| ==> IsDigit(input[i])
    ensures NativeDigits(input) && AsciiOf(input) == input
  {
  }

  /** Digits contain no '&', so the entity passes leave them alone. */
  lemma EntityPassesKeepDigits(input: string)
    requires NativeDigits(input)
    ensures ReplaceEach(ReplaceEach(input, PersianEntities(), AsciiDigits()), ArabicEntities(), AsciiDigits()) == input
  {
    ReplaceEachAbsent(input, PersianEntities(), AsciiDigits(), '&');
    ReplaceEachAbsent(input, ArabicEntities(), AsciiDigits(), '&');
  }

  /** A character outside a table's ten code points matches no entry. */
  lemma DigitTableMisses(zero: int, c: char)
    requires 0 <= zero && zero + 10 < 0xD800
    requires c as int < zero || zero + 10 <= c as int
    ensures forall i :: 0 <= i < 10 ==> DigitTable(zero)[i] != [c]
  {
    var t := DigitTable(zero);
    forall i | 0 <= i < 10
      ensures t[i] != [c]
    {
      assert t[i][0] != c;
    }
  }

  /** A character inside a table's ten code points matches its own entry
      and no earlier one. */
  lemma DigitTableFinds(zero: int, c: char)
    requires 0 <= zero && zero + 10 < 0xD800
    requires zero <= c as int < zero + 10
    ensures OneCharTable(DigitTable(zero), AsciiDigits())
    ensures DigitTable(zero)[c as int - zero] == [c]
    ensures forall i :: 0 <= i < c as int - zero ==> DigitTable(zero)[i] != [c]
  {
    var t := DigitTable(zero);
    forall i | 0 <= i < c as int - zero
      ensures t[i] != [c]
    {
      assert t[i][0] != c;
    }
  }

  lemma DigitTablesDisjoint(zero1: int, zero2: int)
    requires 0 <= zero1 && zero1 + 10 < 0xD800 && 0 <= zero2 && zero2 + 10 < 0xD800
    requires zero1 + 10 <= zero2 || zero2 + 10 <= zero1
    ensures OneCharTable(DigitTable(zero1), DigitTable(zero2))
    ensures forall i, j :: 0 <= i < 10 && 0 <= j < 10 ==> DigitTable(zero1)[i] != DigitTable(zero2)[j]
  {
    var t1, t2 := DigitTable(zero1), DigitTable(zero2);
    forall i, j | 0 <= i < 10 && 0 <= j < 10
      ensures t1[i] != t2[j]
    {
      assert t1[i][0] != t2[j][0];
    }
  }

  lemma DigitPassesTranslate(input: string)
    requires NativeDigits(input)
    ensures ReplaceEach(ReplaceEach(input, ArabicDigits(), AsciiDigits()), PersianDigits(), AsciiDigits()) == AsciiOf(input)
  {
    var string2 := ReplaceEach(input, ArabicDigits(), AsciiDigits());
    var string3 := ReplaceEach(string2, PersianDigits(), AsciiDigits());
    DigitPassTranslates(input, 0x0660);
    DigitPassTranslates(string2, 0x06F0);
    forall i | 0 <= i < |input|
      ensures string3[i] == AsciiDigit(input[i])
    {
      TranslateNative(input[i]);
    }
    DigitsOfAsciiOf(string3, input);
  }

  /** One pass of a native digit table acts character by character. */
  lemma DigitPassTranslates(s: string, zero: int)
    requires zero == 0x0660 || zero == 0x06F0
    ensures var t := ReplaceEach(s, DigitTable(zero), AsciiDigits());
            |t| == |s| && forall i :: 0 <= i < |s| ==> t[i] == TranslateChar(s[i], DigitTable(zero), AsciiDigits())
  {
    DigitTablesDisjoint(zero, '0' as int);
    ReplaceEachOneChar(s, DigitTable(zero), AsciiDigits());
  }

  lemma DigitsOfAsciiOf(a: string, input: string)
    requires NativeDigits(input)
    requires |a| == |input| && forall i :: 0 <= i < |a| ==> a[i] == AsciiDigit(input[i])
    ensures a == AsciiOf(input)
  {
  }

  /** A number typed with ASCII, Arabic-Indic or Persian digits, in any
      mix, normalises to the ASCII digits it stands for, less one leading
      "00". */
  lemma NativeDigitsNormalise(input: string)
    requires NativeDigits(input)
    ensures NormalisedPhone(input) == StripDoubleZero(AsciiOf(input))
  {
    EntityPassesKeepDigits(input);
    DigitPassesTranslate(input);
    assert ReplaceNativeDigits(input) == AsciiOf(input);
  }

  /** A character with Arabic-Indic and Persian digits put in ASCII. */
  function WesternChar(c: char): (d: char)
    ensures IsDigit(d) <==> IsDigit(c) || IsArabicDigit(c) || IsPersianDigit(c)
    ensures IsDigit(d) ==> d == AsciiDigit(c)
  {
    if IsArabicDigit(c) || IsPersianDigit(c) then AsciiDigit(c) else c
  }

  /** A string with every Arabic-Indic and Persian digit put in ASCII and
      every other character left alone. */
  function Westernised(input: string): (r: string)
    ensures |r| == |input| && forall i :: 0 <= i < |r| ==> r[i] == WesternChar(input[i])
  {
    seq(|input|, i requires 0 <= i < |input| => WesternChar(input[i]))
  }

  /** The Arabic-Indic and the Persian passes send every character to its
      `WesternChar`. */
  lemma TranslateAny(c: char)
    ensures TranslateChar(TranslateChar(c, ArabicDigits(), AsciiDigits()), PersianDigits(), AsciiDigits()) == WesternChar(c)
  {
    if IsDigit(c) || IsArabicDigit(c) || IsPersianDigit(c) {
      TranslateNative(c);
    } else {
      DigitTableMisses(0x0660, c);
      DigitTableMisses(0x06F0, c);
      TranslateCharUnsearched(c, ArabicDigits(), AsciiDigits());
      TranslateCharUnsearched(c, PersianDigits(), AsciiDigits());
    }
  }

  /** The Arabic-Indic and the Persian passes put every native digit in
      ASCII and leave every other character alone. */
  lemma DigitPassesWesternise(s: string)
    ensures ReplaceEach(ReplaceEach(s, ArabicDigits(), AsciiDigits()), PersianDigits(), AsciiDigits()) == Westernised(s)
  {
    var string2 := ReplaceEach(s, ArabicDigits(), AsciiDigits());
    var string3 := ReplaceEach(string2, PersianDigits(), AsciiDigits());
    DigitPassTranslates(s, 0x0660);
    DigitPassTranslates(string2, 0x06F0);
    forall i | 0 <= i < |s|
      ensures string3[i] == Westernised(s)[i]
    {
      TranslateAny(s[i]);
    }
  }

  /** Without an '&' no entity can match, and the two digit passes
      translate character by character. */
  lemma ReplaceNativeDigitsWithoutEntities(input: string)
    requires forall i :: 0 <= i < |input| ==> input[i] != '&'
    ensures ReplaceNativeDigits(input) == Westernised(input)
  {
    ReplaceEachAbsent(input, PersianEntities(), AsciiDigits(), '&');
    ReplaceEachAbsent(input, ArabicEntities(), AsciiDigits(), '&');
    DigitPassesWesternise(input);
  }

  /** Any number typed without '&': the normalised number is the digits
      of the input, in order and in ASCII, less one leading "00". */
  lemma NormalisedWithoutEntities(input: string)
    requires forall i :: 0 <= i < |input| ==> input[i] != '&'
    ensures NormalisedPhone(input) == StripDoubleZero(KeepDigits(Westernised(input)))
  {
    ReplaceNativeDigitsWithoutEntities(input);
  }

  // ---------------------------------------------------------------------
  // HTML entities of native digits become ASCII digits
  // ---------------------------------------------------------------------

  /** A four-digit number renders as four characters. */
  lemma FourDigits(n: nat)
    requires 1000 <= n < 10000
    ensures |NatToString(n)| == 4
  {
    assert |NatToString(n / 1000)| == 1;
    assert n / 10 / 10 / 10 == n / 1000;
    assert |NatToString(n / 100)| == 2 by {
      assert n / 10 / 10 == n / 100;
    }
    assert |NatToString(n / 10)| == 3;
  }

  /** An entity of the two tables is seven characters, its number in the
      middle. */
  lemma EntityShape(zero: nat, k: nat)
    requires 1000 <= zero && zero + 10 <= 10000 && k < 10
    ensures |EntityTable(zero)[k]| == 7 && EntityTable(zero)[k][2..6] == NatToString(zero + k)
  {
    FourDigits(zero + k);
  }

  /** Entities of different code points differ. */
  lemma EntitiesDiffer(zero1: nat, j: nat, zero2: nat, k: nat)
    requires 1000 <= zero1 && zero1 + 10 <= 10000 && j < 10
    requires 1000 <= zero2 && zero2 + 10 <= 10000 && k < 10
    requires zero1 + j != zero2 + k
    ensures EntityTable(zero1)[j] != EntityTable(zero2)[k]
  {
    EntityShape(zero1, j);
    EntityShape(zero2, k);
    NatToStringInjective(zero1 + j, zero2 + k);
  }

  /** One `str_replace` pass on a string as long as its pattern replaces
      the whole string or nothing. */
  lemma ReplaceAllSameLength(s: string, pat: string, rep: string)
    requires pat != [] && |s| == |pat|
    ensures ReplaceAll(s, pat, rep) == if s == pat then rep else s
  {
    assert s[..|pat|] == s;
    if s == pat {
      assert s[|pat|..] == [];
    } else {
      assert [s[0]] + s[1..] == s;
    }
  }

  /** Passes whose patterns are all longer than the string change nothing. */
  lemma {:induction false} ReplaceEachShort(s: string, search: seq<string>, replace: seq<string>)
    requires Table(search, replace)
    requires forall i :: 0 <= i < |search| ==> |search[i]| > |s|
    ensures ReplaceEach(s, search, replace) == s
    decreases |search|
  {
    if search != [] {
      assert ReplaceAll(s, search[0], replace[0]) == s;
      ReplaceEachShort(s, search[1..], replace[1..]);
    }
  }

  /** Passes whose patterns are as long as the string and differ from it
      change nothing. */
  lemma {:induction false} ReplaceEachMisses(s: string, search: seq<string>, replace: seq<string>)
    requires Table(search, replace)
    requires forall i :: 0 <= i < |search| ==> |search[i]| == |s| && search[i] != s
    ensures ReplaceEach(s, search, replace) == s
    decreases |search|
  {
    if search != [] {
      ReplaceAllSameLength(s, search[0], replace[0]);
      ReplaceEachMisses(s, search[1..], replace[1..]);
    }
  }

  /** When the string is the `k`-th pattern, no earlier one, and every later
      pattern is longer than its replacement, the passes give the `k`-th
      replacement. */
  lemma {:induction false} ReplaceEachFinds(s: string, search: seq<string>, replace: seq<string>, k: nat)
    requires Table(search, replace)
    requires k < |search| && search[k] == s
    requires forall i :: 0 <= i < k ==> |search[i]| == |s| && search[i] != s
    requires forall i :: k < i < |search| ==> |search[i]| > |replace[k]|
    ensures ReplaceEach(s, search, replace) == replace[k]
    decreases k
  {
    ReplaceAllSameLength(s, search[0], replace[0]);
    if k == 0 {
      ReplaceEachShort(replace[0], search[1..], replace[1..]);
    } else {
      ReplaceEachFinds(s, search[1..], replace[1..], k - 1);
    }
  }

  /** When the entity passes leave a single ASCII digit, the
      normalisation ends with that digit. */
  lemma EntityPassesLeaveDigit(input: string, d: string)
    requires |d| == 1 && IsDigit(d[0])
    requires ReplaceEach(ReplaceEach(input, PersianEntities(), AsciiDigits()), ArabicEntities(), AsciiDigits()) == d
    ensures ReplaceNativeDigits(input) == d
  {
    DigitPassesKeepAscii(d);
    assert ReplaceNativeDigits(input) == ReplaceEach(ReplaceEach(d, ArabicDigits(), AsciiDigits()), PersianDigits(), AsciiDigits());
  }

  /** The two digit passes leave an ASCII digit alone. */
  lemma DigitPassesKeepAscii(d: string)
    requires |d| == 1 && IsDigit(d[0])
    ensures ReplaceEach(ReplaceEach(d, ArabicDigits(), AsciiDigits()), PersianDigits(), AsciiDigits()) == d
  {
    assert Westernised(d) == d by {
      assert Westernised(d)[0] == d[0];
    }
    DigitPassesWesternise(d);
  }

  /** Every entity of both tables is seven characters long. */
  lemma EntityLengths()
    ensures forall i :: 0 <= i < 10 ==> |PersianEntities()[i]| == 7 && |ArabicEntities()[i]| == 7
  {
    forall i | 0 <= i < 10
      ensures |PersianEntities()[i]| == 7 && |ArabicEntities()[i]| == 7
    {
      EntityShape(0x06F0, i);
      EntityShape(0x0660, i);
    }
  }

  /** The Persian entity pass turns the entity of the `k`-th Persian
      digit into the `k`-th ASCII digit. */
  lemma PersianEntityPass(k: nat)
    requires k < 10
    ensures ReplaceEach(EntityTable(0x06F0)[k], PersianEntities(), AsciiDigits()) == AsciiDigits()[k]
  {
    var s, fa := EntityTable(0x06F0)[k], PersianEntities();
    EntityLengths();
    forall i | 0 <= i < k
      ensures fa[i] != s
    {
      EntitiesDiffer(0x06F0, i, 0x06F0, k);
    }
    ReplaceEachFinds(s, fa, AsciiDigits(), k);
  }

  /** The Persian entity pass leaves the entity of an Arabic-Indic digit
      alone. */
  lemma PersianEntityPassMisses(k: nat)
    requires k < 10
    ensures ReplaceEach(EntityTable(0x0660)[k], PersianEntities(), AsciiDigits()) == EntityTable(0x0660)[k]
  {
    var s, fa := EntityTable(0x0660)[k], PersianEntities();
    EntityLengths();
    forall i | 0 <= i < 10
      ensures fa[i] != s
    {
      EntitiesDiffer(0x06F0, i, 0x0660, k);
    }
    ReplaceEachMisses(s, fa, AsciiDigits());
  }

  /** The Arabic-Indic entity pass turns the entity of the `k`-th
      Arabic-Indic digit into the `k`-th ASCII digit. */
  lemma ArabicEntityPass(k: nat)
    requires k < 10
    ensures ReplaceEach(EntityTable(0x0660)[k], ArabicEntities(), AsciiDigits()) == AsciiDigits()[k]
  {
    var s, ar := EntityTable(0x0660)[k], ArabicEntities();
    EntityLengths();
    forall i | 0 <= i < k
      ensures ar[i] != s
    {
      EntitiesDiffer(0x0660, i, 0x0660, k);
    }
    ReplaceEachFinds(s, ar, AsciiDigits(), k);
  }

  /** The Arabic-Indic entity pass leaves a one-character string alone. */
  lemma ArabicEntityPassShort(d: string)
    requires |d| == 1
    ensures ReplaceEach(d, ArabicEntities(), AsciiDigits()) == d
  {
    EntityLengths();
    ReplaceEachShort(d, ArabicEntities(), AsciiDigits());
  }

  /** The entity of a Persian digit, "&#1776;" to "&#1785;", normalises to
      its ASCII digit. */
  lemma PersianEntityDecoded(k: nat)
    requires k < 10
    ensures ReplaceNativeDigits(EntityTable(0x06F0)[k]) == AsciiDigits()[k]
  {
    PersianEntityPass(k);
    ArabicEntityPassShort(AsciiDigits()[k]);
    EntityPassesLeaveDigit(EntityTable(0x06F0)[k], AsciiDigits()[k]);
  }

  /** The entity of an Arabic-Indic digit, "&#1632;" to "&#1641;",
      normalises to its ASCII digit. */
  lemma ArabicEntityDecoded(k: nat)
    requires k < 10
    ensures ReplaceNativeDigits(EntityTable(0x0660)[k]) == AsciiDigits()[k]
  {
    PersianEntityPassMisses(k);
    ArabicEntityPass(k);
    EntityPassesLeaveDigit(EntityTable(0x0660)[k], AsciiDigits()[k]);
  }

  // ---------------------------------------------------------------------
  // Whole numbers written with entities and digits of every script
  // ---------------------------------------------------------------------

  /** The strings of a list, one after the other. */
  function Concat(ts: seq<string>): string {
    if ts == [] then [] else ts[0] + Concat(ts[1..])
  }

  /** A piece of a string that a pass over seven-character patterns
      starting with '&' cannot cut into: one character other than '&', or
      seven characters with no '&' after the first. */
  predicate Token(t: string) {
    || (|t| == 1 && t[0] != '&')
    || (|t| == 7 && forall i :: 1 <= i < 7 ==> t[i] != '&')
  }

  /** A pattern that cannot start inside a token. */
  predicate EntityPattern(pat: string) {
    |pat| == 7 && pat[0] == '&'
  }

  /** A pass steps over a first character that cannot start the pattern. */
  lemma ReplaceAllSkip(s: string, pat: string, rep: string)
    requires pat != [] && s != [] && s[0] != pat[0]
    ensures ReplaceAll(s, pat, rep) == [s[0]] + ReplaceAll(s[1..], pat, rep)
  {
    if |s| >= |pat| {
      assert s[..|pat|][0] != pat[0];
    } else {
      assert [s[0]] + s[1..] == s;
    }
  }

  /** A pass keeps a prefix in which the pattern's first character does
      not occur, and goes on after it. */
  lemma {:induction false} ReplaceAllFreePrefix(a: string, b: string, pat: string, rep: string)
    requires pat != [] && forall i :: 0 <= i < |a| ==> a[i] != pat[0]
    ensures ReplaceAll(a + b, pat, rep) == a + ReplaceAll(b, pat, rep)
    decreases |a|
  {
    if a != [] {
      ReplaceAllSkip(a + b, pat, rep);
      assert (a + b)[1..] == a[1..] + b;
      ReplaceAllFreePrefix(a[1..], b, pat, rep);
      assert ReplaceAll(a + b, pat, rep) == [a[0]] + (a[1..] + ReplaceAll(b, pat, rep));
      AppendAssoc([a[0]], a[1..], ReplaceAll(b, pat, rep));
      assert [a[0]] + a[1..] == a;
    } else {
      assert a + b == b;
    }
  }

  /** On one token, a pass replaces the whole token or nothing. */
  lemma ReplaceAllToken(t: string, pat: string, rep: string)
    requires Token(t) && EntityPattern(pat)
    ensures ReplaceAll(t, pat, rep) == if t == pat then rep else t
  {
    if |t| == 7 {
      ReplaceAllSameLength(t, pat, rep);
    }
  }

  /** The token list after one pass. */
  function ReplaceTokens(ts: seq<string>, pat: string, rep: string): (r: seq<string>)
    ensures |r| == |ts| && forall i :: 0 <= i < |ts| ==> r[i] == if ts[i] == pat then rep else ts[i]
  {
    seq(|ts|, i requires 0 <= i < |ts| => if ts[i] == pat then rep else ts[i])
  }

  /** A pass over a token followed by more text handles the token on its
      own and goes on after it. */
  lemma ReplaceAllTokenHead(t: string, rest: string, pat: string, rep: string)
    requires Token(t) && EntityPattern(pat)
    ensures ReplaceAll(t + rest, pat, rep) == (if t == pat then rep else t) + ReplaceAll(rest, pat, rep)
  {
    if |t| == 1 {
      ReplaceAllFreePrefix(t, rest, pat, rep);
    } else if t == pat {
      assert (t + rest)[..7] == pat;
      assert (t + rest)[7..] == rest;
    } else {
      ReplaceAllSevenMissed(t, rest, pat, rep);
    }
  }

  lemma ReplaceAllSevenMissed(t: string, rest: string, pat: string, rep: string)
    requires |t| == 7 && (forall i :: 1 <= i < 7 ==> t[i] != '&')
    requires EntityPattern(pat) && t != pat
    ensures ReplaceAll(t + rest, pat, rep) == t + ReplaceAll(rest, pat, rep)
  {
    assert (t + rest)[..7] == t;
    assert (t + rest)[1..] == t[1..] + rest;
    assert ReplaceAll(t + rest, pat, rep) == [t[0]] + ReplaceAll(t[1..] + rest, pat, rep);
    ReplaceAllFreePrefix(t[1..], rest, pat, rep);
    AppendAssoc([t[0]], t[1..], ReplaceAll(rest, pat, rep));
    assert [t[0]] + t[1..] == t;
  }

  /** A pass over a string made of tokens acts token by token: no
      occurrence of the pattern straddles two tokens. */
  lemma {:induction false} ReplaceAllTokens(ts: seq<string>, pat: string, rep: string)
    requires forall i :: 0 <= i < |ts| ==> Token(ts[i])
    requires EntityPattern(pat)
    ensures ReplaceAll(Concat(ts), pat, rep) == Concat(ReplaceTokens(ts, pat, rep))
    decreases |ts|
  {
    if ts != [] {
      var m := ReplaceTokens(ts, pat, rep);
      assert m[1..] == ReplaceTokens(ts[1..], pat, rep);
      ReplaceAllTokens(ts[1..], pat, rep);
      ReplaceAllTokenHead(ts[0], Concat(ts[1..]), pat, rep);
    }
  }

  /** A table of entity patterns with one-character replacements other
      than '&'. */
  predicate EntityTableOf(search: seq<string>, replace: seq<string>) {
    && Table(search, replace)
    && (forall i :: 0 <= i < |search| ==> EntityPattern(search[i]))
    && (forall i :: 0 <= i < |replace| ==> |replace[i]| == 1 && replace[i][0] != '&')
  }

  function ReplaceEachTokens(ts: seq<string>, search: seq<string>, replace: seq<string>): (r: seq<string>)
    requires Table(search, replace)
    ensures |r| == |ts| && forall i :: 0 <= i < |ts| ==> r[i] == ReplaceEach(ts[i], search, replace)
  {
    seq(|ts|, i requires 0 <= i < |ts| => ReplaceEach(ts[i], search, replace))
  }

  /** `str_replace` with an entity table over a string made of tokens acts
      token by token. */
  lemma {:induction false} ReplaceEachOverTokens(ts: seq<string>, search: seq<string>, replace: seq<string>)
    requires forall i :: 0 <= i < |ts| ==> Token(ts[i])
    requires EntityTableOf(search, replace)
    ensures ReplaceEach(Concat(ts), search, replace) == Concat(ReplaceEachTokens(ts, search, replace))
    decreases |search|
  {
    if search == [] {
      assert ReplaceEachTokens(ts, search, replace) == ts;
    } else {
      var next := ReplaceTokens(ts, search[0], replace[0]);
      ReplaceAllTokens(ts, search[0], replace[0]);
      forall i | 0 <= i < |ts|
        ensures ReplaceAll(ts[i], search[0], replace[0]) == next[i]
      {
        ReplaceAllToken(ts[i], search[0], replace[0]);
      }
      ReplaceEachOverTokens(next, search[1..], replace[1..]);
      assert ReplaceEachTokens(next, search[1..], replace[1..]) == ReplaceEachTokens(ts, search, replace);
    }
  }

  /** What a customer may type for one digit: a character (a digit of any
      script, or a separator), or the HTML entity of the `k`-th Persian or
      Arabic-Indic digit. */
  datatype Glyph = Typed(c: char) | PersianEntity(k: nat) | ArabicEntity(k: nat)

  predicate ValidGlyph(g: Glyph) {
    match g
    case Typed(c) => c != '&'
    case PersianEntity(k) => k < 10
    case ArabicEntity(k) => k < 10
  }

  function Spelling(g: Glyph): string
    requires ValidGlyph(g)
  {
    match g
    case Typed(c) => [c]
    case PersianEntity(k) => EntityTable(0x06F0)[k]
    case ArabicEntity(k) => EntityTable(0x0660)[k]
  }

  /** The character a glyph stands for: an ASCII digit for a digit of any
      script or an entity, the character itself otherwise. */
  function Reading(g: Glyph): (c: char)
    requires ValidGlyph(g)
    ensures !g.Typed? ==> IsDigit(c)
  {
    match g
    case Typed(c) => WesternChar(c)
    case PersianEntity(k) => DigitChar(k)
    case ArabicEntity(k) => DigitChar(k)
  }

  function Spellings(gs: seq<Glyph>): (ts: seq<string>)
    requires forall i :: 0 <= i < |gs| ==> ValidGlyph(gs[i])
    ensures |ts| == |gs| && forall i :: 0 <= i < |gs| ==> ts[i] == Spelling(gs[i])
  {
    seq(|gs|, i requires 0 <= i < |gs| => Spelling(gs[i]))
  }

  /** The number as typed. */
  function Spell(gs: seq<Glyph>): string
    requires forall i :: 0 <= i < |gs| ==> ValidGlyph(gs[i])
  {
    Concat(Spellings(gs))
  }

  /** The number after the two entity passes: each entity is its ASCII
      digit, each typed character is itself. */
  function PlainGlyph(g: Glyph): char
    requires ValidGlyph(g)
  {
    if g.Typed? then g.c else DigitChar(g.k)
  }

  function Plain(gs: seq<Glyph>): (r: string)
    requires forall i :: 0 <= i < |gs| ==> ValidGlyph(gs[i])
    ensures |r| == |gs| && forall i :: 0 <= i < |gs| ==> r[i] == PlainGlyph(gs[i])
  {
    seq(|gs|, i requires 0 <= i < |gs| => PlainGlyph(gs[i]))
  }

  /** The number the glyphs stand for. */
  function Read(gs: seq<Glyph>): (r: string)
    requires forall i :: 0 <= i < |gs| ==> ValidGlyph(gs[i])
    ensures |r| == |gs| && forall i :: 0 <= i < |gs| ==> r[i] == Reading(gs[i])
  {
    seq(|gs|, i requires 0 <= i < |gs| => Reading(gs[i]))
  }

  /** Every entity is a token. */
  lemma EntityToken(zero: nat, k: nat)
    requires 1000 <= zero && zero + 10 <= 10000 && k < 10
    ensures Token(EntityTable(zero)[k])
  {
    var e := EntityTable(zero)[k];
    EntityShape(zero, k);
    forall i | 1 <= i < 7
      ensures e[i] != '&'
    {
      if 2 <= i < 6 {
        assert e[i] == NatToString(zero + k)[i - 2];
      }
    }
  }

  lemma EntityTablesOfEntities()
    ensures EntityTableOf(PersianEntities(), AsciiDigits())
    ensures EntityTableOf(ArabicEntities(), AsciiDigits())
  {
    EntityLengths();
  }

  /** The Persian entity pass on one glyph: its own entity becomes its
      ASCII digit, anything else stays. */
  lemma PersianPassGlyph(g: Glyph)
    requires ValidGlyph(g)
    ensures ReplaceEach(Spelling(g), PersianEntities(), AsciiDigits()) ==
              if g.PersianEntity? then [DigitChar(g.k)] else Spelling(g)
  {
    match g
    case Typed(c) =>
      EntityLengths();
      ReplaceEachShort([c], PersianEntities(), AsciiDigits());
    case PersianEntity(k) => PersianEntityPass(k);
    case ArabicEntity(k) => PersianEntityPassMisses(k);
  }

  /** After both entity passes every glyph is one character: its ASCII
      digit for an entity, itself otherwise. */
  lemma EntityPassesGlyph(g: Glyph)
    requires ValidGlyph(g)
    ensures Token(ReplaceEach(Spelling(g), PersianEntities(), AsciiDigits()))
    ensures ReplaceEach(ReplaceEach(Spelling(g), PersianEntities(), AsciiDigits()), ArabicEntities(), AsciiDigits()) == [PlainGlyph(g)]
  {
    PersianPassGlyph(g);
    match g
    case Typed(c) => ArabicEntityPassShort([c]);
    case PersianEntity(k) => ArabicEntityPassShort([DigitChar(k)]);
    case ArabicEntity(k) =>
      EntityToken(0x0660, k);
      ArabicEntityPass(k);
  }

  /** A list of one-character strings concatenates to their characters. */
  lemma {:induction false} ConcatSingles(ts: seq<string>, s: string)
    requires |ts| == |s| && forall i :: 0 <= i < |ts| ==> ts[i] == [s[i]]
    ensures Concat(ts) == s
    decreases |ts|
  {
    if ts != [] {
      ConcatSingles(ts[1..], s[1..]);
      assert [s[0]] + s[1..] == s;
    }
  }

  /** Spelt glyphs are tokens. */
  lemma SpellingsTokens(gs: seq<Glyph>)
    requires forall i :: 0 <= i < |gs| ==> ValidGlyph(gs[i])
    ensures forall i :: 0 <= i < |gs| ==> Token(Spellings(gs)[i])
  {
    forall i | 0 <= i < |gs|
      ensures Token(Spellings(gs)[i])
    {
      match gs[i]
      case Typed(c) =>
      case PersianEntity(k) => EntityToken(0x06F0, k);
      case ArabicEntity(k) => EntityToken(0x0660, k);
    }
  }

  /** The Persian entity pass over a whole number acts glyph by glyph and
      leaves tokens. */
  lemma PersianPassGlyphs(gs: seq<Glyph>)
    requires forall i :: 0 <= i < |gs| ==> ValidGlyph(gs[i])
    ensures var ts0 := ReplaceEachTokens(Spellings(gs), PersianEntities(), AsciiDigits());
            && ReplaceEach(Spell(gs), PersianEntities(), AsciiDigits()) == Concat(ts0)
            && forall i :: 0 <= i < |ts0| ==> Token(ts0[i])
  {
    SpellingsTokens(gs);
    EntityTablesOfEntities();
    ReplaceEachOverTokens(Spellings(gs), PersianEntities(), AsciiDigits());
    var ts0 := ReplaceEachTokens(Spellings(gs), PersianEntities(), AsciiDigits());
    forall i | 0 <= i < |ts0|
      ensures Token(ts0[i])
    {
      EntityPassesGlyph(gs[i]);
    }
  }

  /** The two entity passes over a whole number turn every entity into its
      ASCII digit and leave every typed character alone. */
  lemma EntityPassesGlyphs(gs: seq<Glyph>)
    requires forall i :: 0 <= i < |gs| ==> ValidGlyph(gs[i])
    ensures ReplaceEach(ReplaceEach(Spell(gs), PersianEntities(), AsciiDigits()), ArabicEntities(), AsciiDigits()) == Plain(gs)
  {
    PersianPassGlyphs(gs);
    var ts0 := ReplaceEachTokens(Spellings(gs), PersianEntities(), AsciiDigits());
    EntityTablesOfEntities();
    ReplaceEachOverTokens(ts0, ArabicEntities(), AsciiDigits());
    var ts1 := ReplaceEachTokens(ts0, ArabicEntities(), AsciiDigits());
    forall i | 0 <= i < |ts1|
      ensures ts1[i] == [Plain(gs)[i]]
    {
      EntityPassesGlyph(gs[i]);
    }
    ConcatSingles(ts1, Plain(gs));
  }

  /** The digit passes send each plain character to what its glyph stands
      for. */
  lemma WesternisedPlain(gs: seq<Glyph>)
    requires forall i :: 0 <= i < |gs| ==> ValidGlyph(gs[i])
    ensures Westernised(Plain(gs)) == Read(gs)
  {
    forall i | 0 <= i < |gs|
      ensures Westernised(Plain(gs))[i] == Read(gs)[i]
    {
    }
  }

  /** The four passes over a whole number give the characters its glyphs
      stand for. */
  lemma ReplaceNativeDigitsGlyphs(gs: seq<Glyph>)
    requires forall i :: 0 <= i < |gs| ==> ValidGlyph(gs[i])
    ensures ReplaceNativeDigits(Spell(gs)) == Read(gs)
  {
    EntityPassesGlyphs(gs);
    DigitPassesWesternise(Plain(gs));
    WesternisedPlain(gs);
  }

  /** A number typed as any mix of HTML entities of Arabic-Indic and
      Persian digits, native digits, ASCII digits and other characters
      without '&' normalises to the digits it stands for, in ASCII and in
      order, less one leading "00". */
  lemma GlyphsNormalise(gs: seq<Glyph>)
    requires forall i :: 0 <= i < |gs| ==> ValidGlyph(gs[i])
    ensures NormalisedPhone(Spell(gs)) == StripDoubleZero(KeepDigits(Read(gs)))
  {
    ReplaceNativeDigitsGlyphs(gs);
  }

  /** When every glyph is a digit of some script or an entity, nothing is
      filtered out: the number is exactly the digits spelt, less one
      leading "00". */
  lemma DigitGlyphsNormalise(gs: seq<Glyph>)
    requires forall i :: 0 <= i < |gs| ==> ValidGlyph(gs[i])
    requires forall i :: 0 <= i < |gs| ==> gs[i].Typed? ==> IsDigit(gs[i].c) || IsArabicDigit(gs[i].c) || IsPersianDigit(gs[i].c)
    ensures forall i :: 0 <= i < |Read(gs)| ==> IsDigit(Read(gs)[i])
    ensures NormalisedPhone(Spell(gs)) == StripDoubleZero(Read(gs))
  {
    GlyphsNormalise(gs);
  }

  lemma StripFourZeros(rest: string)
    ensures StripDoubleZero("0000" + rest) == "00" + rest
  {
    assert ("0000" + rest)[..2] == "00";
    assert ("0000" + rest)[2..] == "00" + rest;
  }

  /** Only one leading "00" goes: "0000" followed by digits keeps "00". */
  lemma LeadingZerosStrippedOnce(rest: string)
    requires forall i :: 0 <= i < |rest| ==> IsDigit(rest[i])
    ensures NormalisedPhone("0000" + rest) == "00" + rest
  {
    var input := "0000" + rest;
    assert forall i :: 0 <= i < |input| ==> IsDigit(input[i]) by {
      forall i | 0 <= i < |input| ensures IsDigit(input[i]) {
        if i >= 4 {
          assert input[i] == rest[i - 4];
        }
      }
    }
    NativeDigitsNormalise(input);
    AsciiOfAscii(input);
    StripFourZeros(rest);
  }

  /** The script the digits are typed in does not matter: a number in
      Arabic-Indic or Persian digits gets the same answer as the same
      number in ASCII digits. */
  lemma ScriptIndependent(input: string)
    requires NativeDigits(input)
    ensures PhoneParts(NormalisedPhone(input)) == PhoneParts(NormalisedPhone(AsciiOf(input)))
  {
    NativeDigitsNormalise(input);
    NativeDigitsNormalise(AsciiOf(input));
    AsciiOfAscii(AsciiOf(input));
  }
}
