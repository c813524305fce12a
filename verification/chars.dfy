/** The .NET character and string primitives the modelled code relies on:
    char.IsWhiteSpace, char.IsDigit, String.Trim*, IndexOf, LastIndexOf,
    StartsWith, Split, String.Join, int.Parse / bool.Parse and the decimal
    and boolean ToString forms. Strings are `seq<char>`. */
module Chars {
  import opened Wrappers

  /** char.IsWhiteSpace: the Unicode White_Space characters. */
  predicate IsWhiteSpace(c: char) {
    ('\t' <= c <= '\r') || c == ' ' || c == '\U{0085}' || c == '\U{00A0}' || c == '\U{1680}'
    || ('\U{2000}' <= c <= '\U{200A}') || c == '\U{2028}' || c == '\U{2029}' || c == '\U{202F}'
    || c == '\U{205F}' || c == '\U{3000}'
  }

  /** The white space int.Parse skips around a number (NumberStyles.Integer). */
  predicate IsNumberWhite(c: char) {
    ('\t' <= c <= '\r') || c == ' '
  }

  /** The characters bool.Parse trims on either side (TrimWhiteSpaceAndNull). */
  predicate IsWhiteSpaceOrNull(c: char) {
    IsWhiteSpace(c) || c == '\0'
  }

  predicate IsNul(c: char) {
    c == '\0'
  }

  /** The ASCII decimal digits, the only digits int.Parse accepts. */
  predicate IsAsciiDigit(c: char) {
    '0' <= c <= '9'
  }

  /** char.IsDigit on a UTF-16 code unit: the characters of general category
      Nd (decimal digit number) in the Basic Multilingual Plane, as of
      Unicode 8.0. Each script's digits are ten consecutive code points. */
  predicate IsDigit(c: char) {
    IsAsciiDigit(c) || IsOtherDigit(c)
  }

  /** The decimal digits of IsDigit other than the ASCII ones. */
  predicate IsOtherDigit(c: char) {
    || ('\U{0660}' <= c <= '\U{0669}') || ('\U{06F0}' <= c <= '\U{06F9}') || ('\U{07C0}' <= c <= '\U{07C9}')
    || ('\U{0966}' <= c <= '\U{096F}') || ('\U{09E6}' <= c <= '\U{09EF}') || ('\U{0A66}' <= c <= '\U{0A6F}')
    || ('\U{0AE6}' <= c <= '\U{0AEF}') || ('\U{0B66}' <= c <= '\U{0B6F}') || ('\U{0BE6}' <= c <= '\U{0BEF}')
    || ('\U{0C66}' <= c <= '\U{0C6F}') || ('\U{0CE6}' <= c <= '\U{0CEF}') || ('\U{0D66}' <= c <= '\U{0D6F}')
    || ('\U{0DE6}' <= c <= '\U{0DEF}') || ('\U{0E50}' <= c <= '\U{0E59}') || ('\U{0ED0}' <= c <= '\U{0ED9}')
    || ('\U{0F20}' <= c <= '\U{0F29}') || ('\U{1040}' <= c <= '\U{1049}') || ('\U{1090}' <= c <= '\U{1099}')
    || ('\U{17E0}' <= c <= '\U{17E9}') || ('\U{1810}' <= c <= '\U{1819}') || ('\U{1946}' <= c <= '\U{194F}')
    || ('\U{19D0}' <= c <= '\U{19D9}') || ('\U{1A80}' <= c <= '\U{1A89}') || ('\U{1A90}' <= c <= '\U{1A99}')
    || ('\U{1B50}' <= c <= '\U{1B59}') || ('\U{1BB0}' <= c <= '\U{1BB9}') || ('\U{1C40}' <= c <= '\U{1C49}')
    || ('\U{1C50}' <= c <= '\U{1C59}') || ('\U{A620}' <= c <= '\U{A629}') || ('\U{A8D0}' <= c <= '\U{A8D9}')
    || ('\U{A900}' <= c <= '\U{A909}') || ('\U{A9D0}' <= c <= '\U{A9D9}') || ('\U{A9F0}' <= c <= '\U{A9F9}')
    || ('\U{AA50}' <= c <= '\U{AA59}') || ('\U{ABF0}' <= c <= '\U{ABF9}') || ('\U{FF10}' <= c <= '\U{FF19}')
  }

  predicate IsLineBreak(c: char) {
    c == '\n' || c == '\r'
  }

  predicate AllDigits(s: string) {
    forall i :: 0 <= i < |s| ==> IsDigit(s[i])
  }

  predicate AllAsciiDigits(s: string) {
    forall i :: 0 <= i < |s| ==> IsAsciiDigit(s[i])
  }

  /** No character of `s` is a decimal digit other than an ASCII one. */
  predicate NoOtherDigit(s: string) {
    forall i :: 0 <= i < |s| ==> !IsOtherDigit(s[i])
  }

  predicate NoWhiteSpace(s: string) {
    forall i :: 0 <= i < |s| ==> !IsWhiteSpace(s[i])
  }

  predicate NoLineBreak(s: string) {
    forall i :: 0 <= i < |s| ==> !IsLineBreak(s[i])
  }

  /** `ch - '0'`, the digit value the parsers add: the digit's value for an
      ASCII digit, but the distance from '0' for the digits of other scripts. */
  function DigitValue(c: char): nat
    requires IsDigit(c)
  {
    c as int - '0' as int
  }

  function Digit(d: nat): (c: char)
    requires d < 10
    ensures IsAsciiDigit(c) && IsDigit(c) && DigitValue(c) == d
  {
    ('0' as int + d) as char
  }

  /** The value of a run of decimal digits, accumulated left to right as
      `value * 10 + digit`. */
  function DecimalValue(s: string): nat
    requires AllDigits(s)
  {
    if |s| == 0 then 0 else DecimalValue(s[..|s| - 1]) * 10 + DigitValue(s[|s| - 1])
  }

  /** Int32.ToString() of a non-negative number. */
  function NatToString(n: nat): (s: string)
    ensures |s| > 0 && AllAsciiDigits(s) && AllDigits(s)
    decreases n
  {
    if n < 10 then [Digit(n)] else NatToString(n / 10) + [Digit(n % 10)]
  }

  lemma {:induction false} NatToStringRoundTrip(n: nat)
    ensures DecimalValue(NatToString(n)) == n
    decreases n
  {
    if n >= 10 {
      NatToStringRoundTrip(n / 10);
      var s := NatToString(n);
      assert s[..|s| - 1] == NatToString(n / 10);
    }
  }

  /** Int32.ToString(): a '-' sign for negative numbers. */
  function IntToString(i: int): (s: string)
    ensures |s| > 0
  {
    if i < 0 then "-" + NatToString(-i) else NatToString(i)
  }

  // ---------------------------------------------------------------------
  // Trimming

  function TrimStartBy(s: string, drop: char -> bool): (r: string)
    ensures |r| <= |s| && r == s[|s| - |r|..]
    ensures forall i :: 0 <= i < |s| - |r| ==> drop(s[i])
    ensures |r| > 0 ==> !drop(r[0])
  {
    if |s| > 0 && drop(s[0]) then
      var r := TrimStartBy(s[1..], drop);
      TrimStartStep(s, r, drop);
      r
    else s
  }

  /** One dropped first character: what trimming the rest keeps is also
      what trimming the whole keeps. */
  lemma TrimStartStep(s: string, r: string, drop: char -> bool)
    requires |s| > 0 && drop(s[0])
    requires |r| <= |s| - 1 && r == s[1..][|s| - 1 - |r|..]
    requires forall i :: 0 <= i < |s| - 1 - |r| ==> drop(s[1..][i])
    ensures r == s[|s| - |r|..]
    ensures forall i :: 0 <= i < |s| - |r| ==> drop(s[i])
  {
    forall i | 1 <= i < |s| - |r|
      ensures drop(s[i])
    {
      assert s[i] == s[1..][i - 1];
    }
  }

  function TrimEndBy(s: string, drop: char -> bool): (r: string)
    ensures |r| <= |s| && r == s[..|r|]
    ensures forall i :: |r| <= i < |s| ==> drop(s[i])
    ensures |r| > 0 ==> !drop(r[|r| - 1])
  {
    if |s| > 0 && drop(s[|s| - 1]) then TrimEndBy(s[..|s| - 1], drop) else s
  }

  /** String.TrimStart() */
  function TrimStart(s: string): string {
    TrimStartBy(s, IsWhiteSpace)
  }

  /** String.TrimEnd() */
  function TrimEnd(s: string): string {
    TrimEndBy(s, IsWhiteSpace)
  }

  /** String.Trim() */
  function Trim(s: string): string {
    TrimEnd(TrimStart(s))
  }

  /** Trimming the start removes exactly a leading run of dropped characters. */
  lemma {:induction false} TrimStartPrefix(w: string, v: string, drop: char -> bool)
    requires forall i :: 0 <= i < |w| ==> drop(w[i])
    requires |v| > 0 && !drop(v[0])
    ensures TrimStartBy(w + v, drop) == v
    decreases |w|
  {
    if |w| == 0 {
      assert w + v == v;
    } else {
      assert (w + v)[1..] == w[1..] + v;
      TrimStartPrefix(w[1..], v, drop);
    }
  }

  /** Trimming the end removes exactly a trailing run of dropped characters. */
  lemma {:induction false} TrimEndSuffix(v: string, w: string, drop: char -> bool)
    requires forall i :: 0 <= i < |w| ==> drop(w[i])
    requires |v| > 0 && !drop(v[|v| - 1])
    ensures TrimEndBy(v + w, drop) == v
    decreases |w|
  {
    if |w| == 0 {
      assert v + w == v;
    } else {
      assert (v + w)[..|v + w| - 1] == v + w[..|w| - 1];
      TrimEndSuffix(v, w[..|w| - 1], drop);
    }
  }

  /** Trimming keeps a text that starts with a character it does not drop. */
  lemma TrimStartKeeps(s: string, drop: char -> bool)
    requires |s| > 0 && !drop(s[0])
    ensures TrimStartBy(s, drop) == s
  {
  }

  /** Trimming keeps a text that ends with a character it does not drop. */
  lemma TrimEndKeeps(s: string, drop: char -> bool)
    requires |s| > 0 && !drop(s[|s| - 1])
    ensures TrimEndBy(s, drop) == s
  {
  }

  lemma TrimOfTrimmed(s: string)
    requires |s| > 0 ==> !IsWhiteSpace(s[0]) && !IsWhiteSpace(s[|s| - 1])
    ensures Trim(s) == s
  {
  }

  // ---------------------------------------------------------------------
  // Searching

  /** String.IndexOf(char): the first position of `c`, or -1. */
  function IndexOf(s: string, c: char): (r: int)
    ensures -1 <= r < |s|
    ensures r >= 0 ==> s[r] == c && c !in s[..r]
    ensures r == -1 <==> c !in s
  {
    if |s| == 0 then -1
    else if s[0] == c then 0
    else
      var k := IndexOf(s[1..], c);
      assert s[1..][..if k < 0 then 0 else k] == s[1..1 + (if k < 0 then 0 else k)];
      if k < 0 then -1 else k + 1
  }

  /** String.LastIndexOf(char): the last position of `c`, or -1. */
  function LastIndexOf(s: string, c: char): (r: int)
    ensures -1 <= r < |s|
    ensures r >= 0 ==> s[r] == c && c !in s[r + 1..]
    ensures r == -1 <==> c !in s
  {
    if |s| == 0 then -1
    else if s[|s| - 1] == c then |s| - 1
    else
      var k := LastIndexOf(s[..|s| - 1], c);
      assert k >= 0 ==> s[k + 1..] == s[..|s| - 1][k + 1..] + [s[|s| - 1]];
      k
  }

  /** String.StartsWith(prefix, StringComparison.Ordinal) */
  predicate StartsWith(s: string, prefix: string) {
    |prefix| <= |s| && s[..|prefix|] == prefix
  }

  // ---------------------------------------------------------------------
  // Splitting and joining

  /** The position of the first separator, or |s|. */
  function SeparatorAt(s: string, isSep: char -> bool): (i: nat)
    ensures i <= |s|
    ensures forall j :: 0 <= j < i ==> !isSep(s[j])
    ensures i < |s| ==> isSep(s[i])
  {
    if |s| == 0 || isSep(s[0]) then 0 else 1 + SeparatorAt(s[1..], isSep)
  }

  /** String.Split: the pieces between separators, empty pieces kept. */
  function Split(s: string, isSep: char -> bool): (parts: seq<string>)
    ensures |parts| >= 1
    ensures forall k, j :: 0 <= k < |parts| && 0 <= j < |parts[k]| ==> !isSep(parts[k][j])
    decreases |s|
  {
    var i := SeparatorAt(s, isSep);
    if i == |s| then [s] else [s[..i]] + Split(s[i + 1..], isSep)
  }

  predicate FreeOf(s: string, isSep: char -> bool) {
    forall j :: 0 <= j < |s| ==> !isSep(s[j])
  }

  lemma SplitPiece(a: string, x: char, rest: string, isSep: char -> bool)
    requires FreeOf(a, isSep) && isSep(x)
    ensures Split(a + [x] + rest, isSep) == [a] + Split(rest, isSep)
  {
    var s := a + [x] + rest;
    SeparatorAtFree(a, x, rest, isSep);
    assert s[..|a|] == a;
    assert s[|a| + 1..] == rest;
  }

  lemma SeparatorAtFree(a: string, x: char, rest: string, isSep: char -> bool)
    requires FreeOf(a, isSep) && isSep(x)
    ensures SeparatorAt(a + [x] + rest, isSep) == |a|
  {
    var s := a + [x] + rest;
    assert s[|a|] == x;
    assert forall j :: 0 <= j < |a| ==> s[j] == a[j];
  }

  lemma SplitLast(a: string, isSep: char -> bool)
    requires FreeOf(a, isSep)
    ensures Split(a, isSep) == [a]
  {
  }

  /** String.Join(sep, parts) */
  function Join(sep: string, parts: seq<string>): string {
    if |parts| == 0 then ""
    else if |parts| == 1 then parts[0]
    else parts[0] + sep + Join(sep, parts[1..])
  }

  /** The number of characters of `s` that satisfy `p`. */
  function CountWhere(s: string, p: char -> bool): nat {
    if |s| == 0 then 0 else (if p(s[0]) then 1 else 0) + CountWhere(s[1..], p)
  }

  lemma CountWhereAppend(a: string, b: string, p: char -> bool)
    ensures CountWhere(a + b, p) == CountWhere(a, p) + CountWhere(b, p)
  {
    if |a| == 0 {
      assert a + b == b;
    } else {
      assert (a + b)[1..] == a[1..] + b;
      CountWhereAppend(a[1..], b, p);
    }
  }

  /** Split yields one piece more than there are separators. */
  lemma {:induction false} SplitCount(s: string, isSep: char -> bool)
    ensures |Split(s, isSep)| == CountWhere(s, isSep) + 1
    decreases |s|
  {
    var i := SeparatorAt(s, isSep);
    if i == |s| {
      FreeCount(s, isSep);
    } else {
      var rest := s[i + 1..];
      SplitCount(rest, isSep);
      assert Split(s, isSep) == [s[..i]] + Split(rest, isSep);
      assert s == s[..i] + ([s[i]] + rest);
      CountWhereAppend(s[..i], [s[i]] + s[i + 1..], isSep);
      CountWhereAppend([s[i]], s[i + 1..], isSep);
      FreeCount(s[..i], isSep);
      assert CountWhere([s[i]], isSep) == 1 + CountWhere([], isSep);
    }
  }

  lemma FreeCount(s: string, isSep: char -> bool)
    requires FreeOf(s, isSep)
    ensures CountWhere(s, isSep) == 0
  {
    if |s| > 0 {
      FreeCount(s[1..], isSep);
    }
  }

  /** Splitting a join of separator-free pieces gives the pieces back. */
  lemma {:induction false} SplitJoin(x: char, parts: seq<string>, isSep: char -> bool)
    requires |parts| >= 1 && isSep(x)
    requires forall k :: 0 <= k < |parts| ==> FreeOf(parts[k], isSep)
    ensures Split(Join([x], parts), isSep) == parts
    decreases |parts|
  {
    if |parts| == 1 {
      SplitLast(parts[0], isSep);
    } else {
      var tail := parts[1..];
      assert forall k :: 0 <= k < |tail| ==> FreeOf(tail[k], isSep) by {
        forall k | 0 <= k < |tail| ensures FreeOf(tail[k], isSep) {
          assert tail[k] == parts[k + 1];
        }
      }
      SplitJoin(x, tail, isSep);
      assert FreeOf(parts[0], isSep);
      assert Join([x], parts) == parts[0] + [x] + Join([x], tail);
      SplitPiece(parts[0], x, Join([x], tail), isSep);
      assert [parts[0]] + tail == parts;
    }
  }

  // ---------------------------------------------------------------------
  // Parsing and formatting

  /** The NUL characters int.Parse ignores at the very end of its argument
      (Number.TrailingZeros). */
  function DropTrailingNulls(s: string): (r: string)
    ensures |r| <= |s| && r == s[..|r|]
    ensures forall i :: |r| <= i < |s| ==> s[i] == '\0'
    ensures |r| > 0 ==> r[|r| - 1] != '\0'
  {
    TrimEndBy(s, IsNul)
  }

  /** The text int.Parse reads: the argument without its trailing NULs, then
      without surrounding number white space. */
  function NumberText(s: string): string {
    TrimEndBy(TrimStartBy(DropTrailingNulls(s), IsNumberWhite), IsNumberWhite)
  }

  /** A sign-prefixed run of digits, as int.Parse accepts it once trimmed. */
  function ParseSigned(t: string): (r: Outcome<int>)
    ensures r.Err? ==> r.error == Format
  {
    var body := if |t| > 0 && (t[0] == '-' || t[0] == '+') then t[1..] else t;
    if |body| == 0 || !AllAsciiDigits(body) then Err(Format)
    else
      var v: int := DecimalValue(body);
      Ok(if t[0] == '-' then -v else v)
  }

  /** int.Parse with NumberStyles.Integer: surrounding white space, an
      optional sign, then at least one decimal digit, then only NULs
      (overflow not modelled). */
  function ParseInt(s: string): (r: Outcome<int>)
    ensures r.Err? ==> r.error == Format
  {
    ParseSigned(NumberText(s))
  }

  lemma {:induction false} ParseIntOfToString(i: int)
    ensures ParseInt(IntToString(i)) == Ok(i)
  {
    var n := if i < 0 then -i else i;
    var digits := NatToString(n);
    NatToStringRoundTrip(n);
    ParseIntOfDigits(digits);
    if i < 0 {
      assert IntToString(i) == "-" + digits;
    } else {
      assert IntToString(i) == digits;
    }
  }

  /** A run of ASCII digits, with or without a '-' sign, reads as its value. */
  lemma ParseIntOfDigits(d: string)
    requires |d| > 0 && AllAsciiDigits(d) && AllDigits(d)
    ensures ParseInt(d) == Ok(DecimalValue(d))
    ensures ParseInt("-" + d) == Ok(-(DecimalValue(d) as int))
  {
    assert IsAsciiDigit(d[0]) && IsAsciiDigit(d[|d| - 1]);
    NumberTextOfUntrimmed(d);
    ParseSignedDigits(d);
    var s := "-" + d;
    assert s[0] == '-' && s[|s| - 1] == d[|d| - 1];
    NumberTextOfUntrimmed(s);
    ParseSignedNegative(d);
  }

  lemma ParseSignedDigits(d: string)
    requires |d| > 0 && AllAsciiDigits(d) && AllDigits(d)
    ensures ParseSigned(d) == Ok(DecimalValue(d))
  {
    assert d[0] != '-' && d[0] != '+';
  }

  lemma ParseSignedNegative(d: string)
    requires |d| > 0 && AllAsciiDigits(d) && AllDigits(d)
    ensures ParseSigned("-" + d) == Ok(-(DecimalValue(d) as int))
  {
    var s := "-" + d;
    assert s[0] == '-' && s[1..] == d;
  }

  /** NULs at the very end do not change the text int.Parse reads. */
  lemma NumberTextDropsNuls(s: string, k: nat)
    requires 0 < k <= |s| && !IsNul(s[k - 1])
    requires forall i :: k <= i < |s| ==> IsNul(s[i])
    ensures NumberText(s) == NumberText(s[..k])
  {
    assert s == s[..k] + s[k..];
    TrimEndSuffix(s[..k], s[k..], IsNul);
    TrimEndKeeps(s[..k], IsNul);
  }

  /** Text without surrounding number white space or a trailing NUL is read as it is. */
  lemma NumberTextOfUntrimmed(s: string)
    requires |s| > 0 && !IsNumberWhite(s[0]) && !IsNumberWhite(s[|s| - 1]) && s[|s| - 1] != '\0'
    ensures NumberText(s) == s
  {
    TrimEndKeeps(s, IsNul);
    TrimStartKeeps(s, IsNumberWhite);
    TrimEndKeeps(s, IsNumberWhite);
  }

  /** NULs after the number, and after white space that follows it, are
      ignored: "5\0" and "5 \0" read as 5. */
  lemma ParseIntTrailingNulls()
    ensures ParseInt("5\0") == Ok(5) && ParseInt("5 \0") == Ok(5)
  {
    ParseIntTrailingNul();
    ParseIntNulAfterSpace();
  }

  lemma ParseIntTrailingNul()
    ensures ParseInt("5\0") == Ok(5)
  {
    var a := "5\0";
    assert a[..1] == "5" by { assert |a[..1]| == 1 && a[..1][0] == '5'; }
    NumberTextDropsNuls(a, 1);
    ParseIntFive();
  }

  lemma ParseIntNulAfterSpace()
    ensures ParseInt("5 \0") == Ok(5)
  {
    var b := "5 \0";
    assert b[..2] == "5 " by { assert |b[..2]| == 2 && b[..2][0] == '5' && b[..2][1] == ' '; }
    NumberTextDropsNuls(b, 2);
    NumberTextSpaceAfterFive();
    ParseIntFive();
  }

  lemma ParseIntFive()
    ensures ParseInt("5") == Ok(5)
  {
    assert DecimalValue("5") == 5;
    ParseIntOfDigits("5");
  }

  lemma NumberTextSpaceAfterFive()
    ensures NumberText("5 ") == NumberText("5")
  {
    var t := "5 ";
    TrimEndKeeps(t, IsNul);
    TrimStartKeeps(t, IsNumberWhite);
    assert t[..1] == "5";
    TrimEndKeeps("5", IsNul);
    TrimStartKeeps("5", IsNumberWhite);
    TrimEndKeeps("5", IsNumberWhite);
  }

  /** A NUL is not white space to int.Parse: one before trailing white space
      is a format error. */
  lemma ParseIntInnerNull()
    ensures ParseInt("5\0 ") == Err(Format)
  {
    TrimEndKeeps("5\0 ", IsNul);
    TrimStartKeeps("5\0 ", IsNumberWhite);
    TrimEndSuffix("5\0", " ", IsNumberWhite);
    assert "5\0" + " " == "5\0 ";
    assert NumberText("5\0 ") == "5\0";
    assert !IsAsciiDigit("5\0"[1]);
  }

  /** Boolean.ToString() */
  function BoolToString(b: bool): string {
    if b then "True" else "False"
  }

  function LowerAscii(c: char): char {
    if 'A' <= c <= 'Z' then (c as int + 32) as char else c
  }

  predicate EqualsIgnoreCase(a: string, b: string) {
    |a| == |b| && forall i :: 0 <= i < |a| ==> LowerAscii(a[i]) == LowerAscii(b[i])
  }

  /** Boolean.TrimWhiteSpaceAndNull */
  function TrimWhiteSpaceAndNull(s: string): string {
    TrimEndBy(TrimStartBy(s, IsWhiteSpaceOrNull), IsWhiteSpaceOrNull)
  }

  /** bool.Parse: "True" or "False" in any letter case, with white space and
      NULs allowed on either side. */
  function ParseBool(s: string): (r: Outcome<bool>)
    ensures r.Ok? <==> EqualsIgnoreCase(TrimWhiteSpaceAndNull(s), "true") || EqualsIgnoreCase(TrimWhiteSpaceAndNull(s), "false")
    ensures r == Ok(true) <==> EqualsIgnoreCase(TrimWhiteSpaceAndNull(s), "true")
  {
    var t := TrimWhiteSpaceAndNull(s);
    if EqualsIgnoreCase(t, "true") then Ok(true)
    else if EqualsIgnoreCase(t, "false") then Ok(false)
    else Err(Format)
  }

  lemma ParseBoolOfToString(b: bool)
    ensures ParseBool(BoolToString(b)) == Ok(b)
  {
    var s := BoolToString(b);
    TrimStartKeeps(s, IsWhiteSpaceOrNull);
    TrimEndKeeps(s, IsWhiteSpaceOrNull);
    if b {
      TrueIgnoringCase();
    } else {
      FalseIgnoringCase();
    }
  }

  /** bool.Parse trims NULs as well as white space: "True\0" reads as true. */
  lemma ParseBoolTrailingNull()
    ensures ParseBool("True\0") == Ok(true)
  {
    TrimStartKeeps("True\0", IsWhiteSpaceOrNull);
    TrimEndSuffix("True", "\0", IsWhiteSpaceOrNull);
    assert "True" + "\0" == "True\0";
    TrueIgnoringCase();
  }

  lemma TrueIgnoringCase()
    ensures EqualsIgnoreCase("True", "true")
  {
    assert LowerAscii('T') == 't';
  }

  lemma FalseIgnoringCase()
    ensures EqualsIgnoreCase("False", "false") && !EqualsIgnoreCase("False", "true")
  {
    assert LowerAscii('F') == 'f';
  }
}
