/** String helpers (OJWebService/Utils/StringExt.cs). */
module StringExt {
  import opened Wrappers
  import opened Chars

  /** The loop of IsWhiteSpace(str, start, length). The counter `i` moves
      but the index `idx` it reads never does. */
  function WhiteSpaceLoop(str: string, idx: int, i: int, length: int): (r: Outcome<bool>)
    ensures i >= length ==> r == Ok(true)
    ensures i < length && 0 <= idx < |str| ==> r == Ok(Chars.IsWhiteSpace(str[idx]))
    ensures i < length && !(0 <= idx < |str|) ==> r == Err(ArgumentOutOfRange)
    decreases length - i
  {
    if i >= length then Ok(true)
    else if !(0 <= idx < |str|) then Err(ArgumentOutOfRange)
    else if !Chars.IsWhiteSpace(str[idx]) then Ok(false)
    else WhiteSpaceLoop(str, idx, i + 1, length)
  }

  /** IsWhiteSpace(str, start, length): meant to say whether the substring
      is all white space, but it only ever inspects `str[start]`. */
  function IsWhiteSpace(str: string, start: int, length: int): (r: Outcome<bool>)
    ensures length <= 0 ==> r == Ok(true)
    ensures length > 0 && 0 <= start < |str| ==> r == Ok(Chars.IsWhiteSpace(str[start]))
    ensures length > 0 && !(0 <= start < |str|) ==> r == Err(ArgumentOutOfRange)
  {
    WhiteSpaceLoop(str, start, 0, length)
  }

  /** The documented meaning and the behaviour part ways: " x" is reported
      as all white space. */
  lemma IsWhiteSpaceChecksFirstOnly()
    ensures IsWhiteSpace(" x", 0, 2) == Ok(true)
    ensures !Chars.IsWhiteSpace(" x"[1])
  {
  }

  predicate IsComma(c: char) { c == ',' }

  predicate AllParse(pieces: seq<string>, parse: string -> Outcome<int>) {
    forall i :: 0 <= i < |pieces| ==> parse(pieces[i]).Ok?
  }

  /** `parse` over the pieces in order; the first failure propagates. */
  function ParseAll(pieces: seq<string>, parse: string -> Outcome<int>): (r: Outcome<seq<int>>)
    ensures r.Ok? <==> AllParse(pieces, parse)
    ensures r.Ok? ==> |r.value| == |pieces|
    ensures r.Ok? ==> forall i :: 0 <= i < |pieces| ==> parse(pieces[i]) == Ok(r.value[i])
  {
    if |pieces| == 0 then Ok([])
    else
      var head := parse(pieces[0]);
      if head.Err? then Err(head.error)
      else
        var tail := ParseAll(pieces[1..], parse);
        if tail.Err? then
          assert !AllParse(pieces[1..], parse);
          Err(tail.error)
        else
          var r := [head.value] + tail.value;
          assert forall i :: 1 <= i < |pieces| ==> pieces[i] == pieces[1..][i - 1] && r[i] == tail.value[i - 1];
          Ok(r)
  }

  /** ParseIntArray: one int.Parse per comma-separated piece. */
  function ParseIntArray(str: string): (r: Outcome<seq<int>>)
    ensures r.Ok? <==> AllParse(Split(str, IsComma), ParseInt)
    ensures r.Ok? ==> |r.value| == |Split(str, IsComma)| == CountWhere(str, IsComma) + 1
    ensures r.Ok? ==> forall i :: 0 <= i < |Split(str, IsComma)| ==> ParseInt(Split(str, IsComma)[i]) == Ok(r.value[i])
  {
    SplitCount(str, IsComma);
    ParseAll(Split(str, IsComma), ParseInt)
  }

  function IntsToStrings(xs: seq<int>): (r: seq<string>)
    ensures |r| == |xs| && forall i :: 0 <= i < |xs| ==> r[i] == IntToString(xs[i])
  {
    if |xs| == 0 then [] else [IntToString(xs[0])] + IntsToStrings(xs[1..])
  }

  lemma {:induction false} ParseAllOfToStrings(xs: seq<int>)
    ensures ParseAll(IntsToStrings(xs), ParseInt) == Ok(xs)
  {
    if |xs| > 0 {
      ParseIntOfToString(xs[0]);
      ParseAllOfToStrings(xs[1..]);
      var strs := IntsToStrings(xs);
      assert strs[1..] == IntsToStrings(xs[1..]);
      assert strs[0] == IntToString(xs[0]);
      assert ParseAll(strs, ParseInt) == Ok([xs[0]] + xs[1..]);
      assert [xs[0]] + xs[1..] == xs;
    }
  }

  /** Writing a non-empty array as comma-separated decimals and parsing it back is the identity. */
  lemma ParseIntArrayRoundTrip(xs: seq<int>)
    requires |xs| >= 1
    ensures ParseIntArray(Join(",", IntsToStrings(xs))) == Ok(xs)
  {
    var strs := IntsToStrings(xs);
    forall k | 0 <= k < |strs|
      ensures FreeOf(strs[k], IsComma)
    {
      IntToStringHasNoComma(xs[k]);
    }
    SplitJoin(',', strs, IsComma);
    ParseAllOfToStrings(xs);
  }

  lemma IntToStringHasNoComma(i: int)
    ensures FreeOf(IntToString(i), IsComma)
  {
    var s := IntToString(i);
    var d := NatToString(if i < 0 then -i else i);
    assert forall j :: 0 <= j < |d| ==> IsDigit(d[j]);
    if i < 0 {
      assert forall j :: 1 <= j < |s| ==> s[j] == d[j - 1];
    }
  }
}
