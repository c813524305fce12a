/** Natural-order string comparison (OJWebService/Utils/StringCompareExt.cs):
    runs of digits that meet at the same place compare by their numeric
    value, every other character by its code. */
module StringCompareExt {
  import opened Wrappers
  import opened Chars

  /** The number of decimal digits at the front of `s`. */
  function LeadingDigits(s: string): (n: nat)
    ensures n <= |s| && AllDigits(s[..n])
    ensures n < |s| ==> !IsDigit(s[n])
  {
    if |s| == 0 || !IsDigit(s[0]) then 0
    else
      var k := LeadingDigits(s[1..]);
      assert s[..1 + k] == [s[0]] + s[1..][..k];
      1 + k
  }

  /** string.CompareOrdinal: the difference of the first differing
      characters, or of the lengths when one string is a prefix of the other. */
  function CompareOrdinal(a: string, b: string): int {
    if |a| == 0 || |b| == 0 then |a| - |b|
    else if a[0] != b[0] then a[0] as int - b[0] as int
    else CompareOrdinal(a[1..], b[1..])
  }

  /** NumericCompare. Every digit run met at the same place as one in the
      other string is read with int.Parse, which throws on a digit of another
      script. The loop stops, answering 0, as soon as either string runs out. */
  function NumericCompare(x: string, y: string): (r: Outcome<int>)
    ensures r.Err? ==> r.error == Format
    ensures NoOtherDigit(x) && NoOtherDigit(y) ==> r.Ok?
    decreases |x|
  {
    if |x| == 0 || |y| == 0 then Ok(0)
    else if IsDigit(x[0]) && IsDigit(y[0]) then
      var kx := LeadingDigits(x);
      var ky := LeadingDigits(y);
      NoOtherDigitSplit(x, kx);
      NoOtherDigitSplit(y, ky);
      var vx :- ParseRun(x[..kx]);
      var vy :- ParseRun(y[..ky]);
      var cmp := vx - vy;
      if cmp != 0 then Ok(cmp)
      else if kx != ky then Ok(CompareOrdinal(x[..kx], y[..ky]))
      else NumericCompare(x[kx..], y[ky..])
    else if x[0] != y[0] then Ok(x[0] as int - y[0] as int)
    else
      NoOtherDigitHead(x);
      NoOtherDigitHead(y);
      NumericCompare(x[1..], y[1..])
  }

  /** The comparison with its operands swapped: the sign flips, and an
      exception stays the same. */
  function Negated(r: Outcome<int>): Outcome<int> {
    if r.Ok? then Ok(-r.value) else r
  }

  /** int.Parse of a digit run: its value when every digit is ASCII, a
      FormatException otherwise (ParseRunIsParseInt). */
  function ParseRun(d: string): Outcome<int> {
    if AllAsciiDigits(d) then Ok(DecimalValue(d)) else Err(Format)
  }

  lemma ParseRunIsParseInt(d: string)
    requires |d| > 0 && AllDigits(d)
    ensures ParseInt(d) == ParseRun(d)
  {
    NumberTextOfUntrimmed(d);
  }

  /** A string without digits of other scripts, split at its first character. */
  lemma NoOtherDigitHead(s: string)
    requires |s| > 0
    ensures NoOtherDigit(s) <==> !IsOtherDigit(s[0]) && NoOtherDigit(s[1..])
  {
    if !IsOtherDigit(s[0]) && NoOtherDigit(s[1..]) {
      forall i | 1 <= i < |s| ensures !IsOtherDigit(s[i]) {
        assert s[i] == s[1..][i - 1];
      }
    }
  }

  /** A non-empty digit run, split into its ASCII test and the rest. */
  lemma NoOtherDigitSplit(s: string, k: nat)
    requires k <= |s| && AllDigits(s[..k])
    ensures NoOtherDigit(s) <==> AllAsciiDigits(s[..k]) && NoOtherDigit(s[k..])
  {
    if NoOtherDigit(s) {
      forall i | 0 <= i < k ensures IsAsciiDigit(s[..k][i]) {
        assert s[..k][i] == s[i];
      }
      forall i | 0 <= i < |s| - k ensures !IsOtherDigit(s[k..][i]) {
        assert s[k..][i] == s[k + i];
      }
    }
    if AllAsciiDigits(s[..k]) && NoOtherDigit(s[k..]) {
      forall i | 0 <= i < |s| ensures !IsOtherDigit(s[i]) {
        if i < k {
          assert s[i] == s[..k][i];
        } else {
          assert s[i] == s[k..][i - k];
        }
      }
    }
  }

  // ---------------------------------------------------------------------
  // Order properties

  lemma {:induction false} CompareOrdinalAntisymmetric(a: string, b: string)
    ensures CompareOrdinal(b, a) == -CompareOrdinal(a, b)
    decreases |a|
  {
    if |a| > 0 && |b| > 0 && a[0] == b[0] {
      CompareOrdinalAntisymmetric(a[1..], b[1..]);
    }
  }

  /** Every string compares equal to itself, unless one of its digits
      belongs to another script: that run makes int.Parse throw. */
  lemma {:induction false} NumericCompareReflexive(x: string)
    ensures NumericCompare(x, x) == if NoOtherDigit(x) then Ok(0) else Err(Format)
    decreases |x|
  {
    if |x| > 0 {
      if IsDigit(x[0]) {
        var k := LeadingDigits(x);
        NoOtherDigitSplit(x, k);
        NumericCompareReflexive(x[k..]);
      } else {
        NoOtherDigitHead(x);
        NumericCompareReflexive(x[1..]);
      }
    }
  }

  /** Swapping the arguments negates the result (int overflow aside), and
      throws exactly when the original order throws. */
  lemma {:induction false} NumericCompareAntisymmetric(x: string, y: string)
    ensures NumericCompare(y, x) == Negated(NumericCompare(x, y))
    decreases |x|
  {
    if |x| > 0 && |y| > 0 {
      if IsDigit(x[0]) && IsDigit(y[0]) {
        var kx := LeadingDigits(x);
        var ky := LeadingDigits(y);
        CompareOrdinalAntisymmetric(x[..kx], y[..ky]);
        if AllAsciiDigits(x[..kx]) && AllAsciiDigits(y[..ky])
          && DecimalValue(x[..kx]) == DecimalValue(y[..ky]) && kx == ky
        {
          NumericCompareAntisymmetric(x[kx..], y[ky..]);
        }
      } else if x[0] == y[0] {
        NumericCompareAntisymmetric(x[1..], y[1..]);
      }
    }
  }

  // ---------------------------------------------------------------------
  // A common prefix does not matter when it ends at a run boundary

  /** `p` can be stripped from the front of `p + x` and `p + y`: it is empty,
      ends in a non-digit, or neither continuation starts with a digit. */
  predicate Boundary(p: string, x: string, y: string) {
    || |p| == 0
    || !IsDigit(p[|p| - 1])
    || ((|x| == 0 || !IsDigit(x[0])) && (|y| == 0 || !IsDigit(y[0])))
  }

  lemma {:induction false} LeadingDigitsAppend(p: string, x: string)
    requires LeadingDigits(p) < |p| || |x| == 0 || !IsDigit(x[0])
    ensures LeadingDigits(p + x) == LeadingDigits(p)
    decreases |p|
  {
    if |p| > 0 && IsDigit(p[0]) {
      assert (p + x)[1..] == p[1..] + x;
      LeadingDigitsAppend(p[1..], x);
    } else if |p| == 0 {
      assert p + x == x;
    }
  }

  /** A common prefix ending at a run boundary can be dropped; it throws
      instead when one of its digits belongs to another script. */
  lemma {:induction false} CommonPrefix(p: string, x: string, y: string)
    requires Boundary(p, x, y)
    ensures NumericCompare(p + x, p + y) == if NoOtherDigit(p) then NumericCompare(x, y) else Err(Format)
    decreases |p|
  {
    if |p| == 0 {
      assert p + x == x && p + y == y;
    } else if !IsDigit(p[0]) {
      assert (p + x)[1..] == p[1..] + x;
      assert (p + y)[1..] == p[1..] + y;
      NoOtherDigitHead(p);
      CommonPrefix(p[1..], x, y);
    } else {
      var k := LeadingDigits(p);
      LeadingDigitsAppend(p, x);
      LeadingDigitsAppend(p, y);
      assert (p + x)[..k] == p[..k] == (p + y)[..k];
      assert (p + x)[k..] == p[k..] + x;
      assert (p + y)[k..] == p[k..] + y;
      NoOtherDigitSplit(p, k);
      if k < |p| {
        CommonPrefix(p[k..], x, y);
      } else {
        assert p[k..] + x == x && p[k..] + y == y;
      }
    }
  }

  /** When one string is a prefix of the other and the longer one does not
      continue a digit run there, the result is 0 (or the exception of a
      digit of another script in the prefix). */
  lemma PrefixCompare(p: string, r: string)
    requires Boundary(p, "", r)
    ensures NumericCompare(p, p + r) == if NoOtherDigit(p) then Ok(0) else Err(Format)
    ensures NumericCompare(p + r, p) == if NoOtherDigit(p) then Ok(0) else Err(Format)
  {
    CommonPrefix(p, "", r);
    assert p + "" == p;
    NumericCompareAntisymmetric(p, p + r);
  }

  /** A prefix that ends inside a digit run does not compare equal: "1" < "12". */
  lemma PrefixInsideRun()
    ensures NumericCompare("1", "12") == Ok(-11)
  {
    assert LeadingDigits("12"[1..]) == 1;
    assert "12"[..2] == "12";
    assert "12"[..1] == "1";
  }

  /** At the first difference outside digit runs, the result is the
      difference of the codes. */
  lemma FirstDifference(p: string, x: string, y: string)
    requires |x| > 0 && |y| > 0 && x[0] != y[0] && !(IsDigit(x[0]) && IsDigit(y[0]))
    requires Boundary(p, x, y)
    ensures NumericCompare(p + x, p + y) == if NoOtherDigit(p) then Ok(x[0] as int - y[0] as int) else Err(Format)
  {
    CommonPrefix(p, x, y);
  }

  /** Two digit runs with different values compare by value; a digit of
      another script in either run throws. */
  lemma RunsByValue(dx: string, dy: string, rx: string, ry: string)
    requires |dx| > 0 && |dy| > 0 && AllDigits(dx) && AllDigits(dy)
    requires |rx| == 0 || !IsDigit(rx[0])
    requires |ry| == 0 || !IsDigit(ry[0])
    requires DecimalValue(dx) != DecimalValue(dy)
    ensures NumericCompare(dx + rx, dy + ry)
         == if AllAsciiDigits(dx) && AllAsciiDigits(dy) then Ok(DecimalValue(dx) - DecimalValue(dy)) else Err(Format)
  {
    LeadingDigitsRun(dx, rx);
    LeadingDigitsRun(dy, ry);
  }

  /** Two digit runs with the same value but different lengths (leading
      zeros) compare ordinally as strings; a digit of another script in
      either run throws. */
  lemma RunsByLeadingZeros(dx: string, dy: string, rx: string, ry: string)
    requires |dx| > 0 && |dy| > 0 && AllDigits(dx) && AllDigits(dy)
    requires |rx| == 0 || !IsDigit(rx[0])
    requires |ry| == 0 || !IsDigit(ry[0])
    requires DecimalValue(dx) == DecimalValue(dy) && |dx| != |dy|
    ensures NumericCompare(dx + rx, dy + ry)
         == if AllAsciiDigits(dx) && AllAsciiDigits(dy) then Ok(CompareOrdinal(dx, dy)) else Err(Format)
  {
    LeadingDigitsRun(dx, rx);
    LeadingDigitsRun(dy, ry);
  }

  lemma LeadingDigitsRun(d: string, r: string)
    requires |d| > 0 && AllDigits(d) && (|r| == 0 || !IsDigit(r[0]))
    ensures LeadingDigits(d + r) == |d| && (d + r)[..|d|] == d && IsDigit((d + r)[0])
  {
    LeadingDigitsOfDigits(d);
    LeadingDigitsAppend(d, r);
    assert (d + r)[..|d|] == d;
  }

  lemma {:induction false} LeadingDigitsOfDigits(d: string)
    requires AllDigits(d)
    ensures LeadingDigits(d) == |d|
    decreases |d|
  {
    if |d| > 0 {
      LeadingDigitsOfDigits(d[1..]);
    }
  }

  /** Numbers inside text sort by value: "a2" comes before "a10". */
  lemma NaturalOrderExample()
    ensures NumericCompare("a2", "a10").Ok? && NumericCompare("a2", "a10").value < 0
  {
    assert "a2" == "a" + "2" && "a10" == "a" + "10";
    CommonPrefix("a", "2", "10");
    assert DecimalValue("10"[..1]) == 1;
    assert "2" + "" == "2" && "10" + "" == "10";
    RunsByValue("2", "10", "", "");
  }

  /** Leading zeros: "01" and "1" have the same value; "01" sorts first. */
  lemma LeadingZerosExample()
    ensures NumericCompare("01", "1").Ok? && NumericCompare("01", "1").value < 0
  {
    assert "01"[..1] == "0";
    assert "01" + "" == "01" && "1" + "" == "1";
    RunsByLeadingZeros("01", "1", "", "");
  }

  /** char.IsDigit takes the ARABIC-INDIC DIGIT THREE for a digit, int.Parse
      does not: comparing it even with itself throws. */
  lemma OtherScriptDigitThrows()
    ensures NumericCompare("\U{0663}", "\U{0663}") == Err(Format)
  {
    NumericCompareReflexive("\U{0663}");
  }
}
