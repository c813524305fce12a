/** TextReader extension methods (OJWebService/Utils/TextReaderExt.cs) and
    the TextReader.ReadLine they build on. A reader is modelled by the text
    it has not consumed yet: every operation returns its answer together
    with the remaining text. */
module TextReaderExt {
  import opened Wrappers
  import opened Chars
  import StringExt
  import opened EnumerableExt

  // ---------------------------------------------------------------------
  // TextReader.ReadLine

  /** The length of the first line: the position of the first '\n' or '\r', or |s|. */
  function LineEnd(s: string): (n: nat)
    ensures n <= |s| && NoLineBreak(s[..n])
    ensures n < |s| ==> IsLineBreak(s[n])
  {
    var n := SeparatorAt(s, IsLineBreak);
    assert forall j :: 0 <= j < n ==> s[..n][j] == s[j];
    n
  }

  /** TextReader.ReadLine: null at the end of the text; otherwise the text up
      to the next "\n", "\r" or "\r\n", which is consumed but not returned. */
  function ReadLine(s: string): (r: (Option<string>, string))
    ensures r.0.None? <==> |s| == 0
    ensures r.0.None? ==> r.1 == []
    ensures r.0.Some? ==> NoLineBreak(r.0.value) && |r.1| < |s|
    ensures r.0.Some? ==> |r.0.value| <= |s| - |r.1| <= |r.0.value| + 2
    ensures r.0.Some? ==> s[..|r.0.value|] == r.0.value && s[|s| - |r.1|..] == r.1
    ensures r.0.Some? ==> forall i :: |r.0.value| <= i < |s| - |r.1| ==> IsLineBreak(s[i])
  {
    if |s| == 0 then (None, [])
    else
      var n := LineEnd(s);
      if n == |s| then (Some(s), [])
      else if s[n] == '\r' && n + 1 < |s| && s[n + 1] == '\n' then (Some(s[..n]), s[n + 2..])
      else (Some(s[..n]), s[n + 1..])
  }

  /** A line followed by the "\r\n" that TextWriter.WriteLine appends. */
  function Crlf(line: string, rest: string): string {
    line + "\r\n" + rest
  }

  /** A line written with a "\r\n" terminator is read back by ReadLine. */
  lemma ReadLineCrLf(line: string, rest: string)
    requires NoLineBreak(line)
    ensures ReadLine(Crlf(line, rest)) == (Some(line), rest)
  {
    var s := line + "\r\n" + rest;
    assert s[|line|] == '\r';
    assert forall j :: 0 <= j < |line| ==> s[j] == line[j];
    assert LineEnd(s) == |line|;
    assert s[..|line|] == line;
    assert s[|line| + 2..] == rest;
  }

  /** File.ReadAllLines: ReadLine repeated until it returns null. */
  function Lines(s: string): (lines: seq<string>)
    ensures forall k :: 0 <= k < |lines| ==> NoLineBreak(lines[k])
    ensures |s| == 0 <==> |lines| == 0
    decreases |s|
  {
    var (line, rest) := ReadLine(s);
    if line.None? then [] else [line.value] + Lines(rest)
  }

  lemma LinesUnfold(s: string)
    requires |s| > 0
    ensures Lines(s) == [ReadLine(s).0.value] + Lines(ReadLine(s).1)
  {
  }

  // ---------------------------------------------------------------------
  // ReadNonEmptyLine, ReadNonCommentLine

  /** `line` is the trimmed first element of `lines` satisfying `pred` and
      `after` is what follows it; `line` is None when no element does. */
  predicate FoundIn(lines: seq<string>, line: Option<string>, after: seq<string>, pred: string -> bool) {
    var k := FirstIndex(lines, pred, 0);
    && (line.None? <==> k == -1)
    && (line.Some? ==> line.value == Trim(lines[k]) && after == lines[k + 1..])
  }

  /** A search that skips elements 0..k finds what a search of the rest finds. */
  lemma FoundAfter(lines: seq<string>, k: nat, line: Option<string>, after: seq<string>, pred: string -> bool)
    requires k < |lines| && forall i :: 0 <= i <= k ==> !pred(lines[i])
    requires FoundIn(lines[k + 1..], line, after, pred)
    ensures FoundIn(lines, line, after, pred)
  {
    var tail := lines[k + 1..];
    var m := FirstIndex(tail, pred, 0);
    FirstIndexMeaning(tail, pred, 0);
    if m != -1 {
      forall i | 0 <= i < m + k + 1
        ensures !pred(lines[i])
      {
        if i > k { assert lines[i] == tail[i - k - 1]; }
      }
      assert lines[m + k + 1] == tail[m];
      FirstIndexIs(lines, pred, m + k + 1);
      assert lines[m + k + 2..] == tail[m + 1..];
    } else {
      forall i | 0 <= i < |lines|
        ensures !pred(lines[i])
      {
        if i > k { assert lines[i] == tail[i - k - 1]; }
      }
      FirstIndexMeaning(lines, pred, 0);
    }
  }

  /** A search for `q` that passes the first hit of a weaker `p` finds what a search of the rest finds. */
  lemma FoundPast(lines: seq<string>, k: int, line: Option<string>, after: seq<string>, p: string -> bool, q: string -> bool)
    requires forall x :: q(x) ==> p(x)
    requires k == FirstIndex(lines, p, 0) && k != -1 && !q(lines[k])
    requires FoundIn(lines[k + 1..], line, after, q)
    ensures FoundIn(lines, line, after, q)
  {
    assert forall i :: 0 <= i < k ==> !p(lines[i]);
    FoundAfter(lines, k, line, after, q);
  }

  /** A search for `q` agrees with a search for a weaker `p` whose first hit satisfies `q`. */
  lemma FoundWeaker(lines: seq<string>, line: Option<string>, after: seq<string>, p: string -> bool, q: string -> bool)
    requires forall x :: q(x) ==> p(x)
    requires FoundIn(lines, line, after, p)
    requires FirstIndex(lines, p, 0) != -1 ==> q(lines[FirstIndex(lines, p, 0)])
    ensures FoundIn(lines, line, after, q)
  {
    assert FirstIndex(lines, q, 0) == FirstIndex(lines, p, 0);
  }

  predicate Blank(line: string) {
    |Trim(line)| == 0
  }

  predicate NonBlank(line: string) {
    !Blank(line)
  }

  /** ReadNonEmptyLine: the first line that is not blank, trimmed; null
      when only blank lines remain. */
  function ReadNonEmptyLine(s: string): (r: (Option<string>, string))
    ensures |r.1| < |s| || r.1 == s == []
    ensures r.0.Some? ==> |r.0.value| > 0
    decreases |s|
  {
    var (line, rest) := ReadLine(s);
    if line.None? then (None, rest)
    else
      var t := Trim(line.value);
      if |t| > 0 then (Some(t), rest) else ReadNonEmptyLine(rest)
  }

  /** ReadNonEmptyLine returns the trimmed first non-blank line and leaves the
      reader just after it. */
  lemma {:induction false} ReadNonEmptyLineMeaning(s: string)
    ensures FoundIn(Lines(s), ReadNonEmptyLine(s).0, Lines(ReadNonEmptyLine(s).1), NonBlank)
    decreases |s|
  {
    var (line, rest) := ReadLine(s);
    if line.Some? {
      LinesUnfold(s);
      if |Trim(line.value)| == 0 {
        ReadNonEmptyLineMeaning(rest);
        var r := ReadNonEmptyLine(rest);
        assert Lines(s)[1..] == Lines(rest);
        FoundAfter(Lines(s), 0, r.0, Lines(r.1), NonBlank);
      }
    }
  }

  predicate NonComment(line: string) {
    NonBlank(line) && Trim(line)[0] != '#'
  }

  /** ReadNonCommentLine: the first line that is neither blank nor, once
      trimmed, starts with '#'; null when there is none. */
  function ReadNonCommentLine(s: string): (r: (Option<string>, string))
    ensures |r.1| <= |s|
    decreases |s|
  {
    var (line, rest) := ReadNonEmptyLine(s);
    if line.None? || line.value[0] != '#' then (line, rest)
    else ReadNonCommentLine(rest)
  }

  /** ReadNonCommentLine returns the trimmed first non-comment line and leaves
      the reader just after it. */
  lemma {:induction false} ReadNonCommentLineMeaning(s: string)
    ensures FoundIn(Lines(s), ReadNonCommentLine(s).0, Lines(ReadNonCommentLine(s).1), NonComment)
    decreases |s|
  {
    var (line, rest) := ReadNonEmptyLine(s);
    var lines := Lines(s);
    var k := FirstIndex(lines, NonBlank, 0);
    ReadNonEmptyLineMeaning(s);
    if line.None? || line.value[0] != '#' {
      FoundWeaker(lines, line, Lines(rest), NonBlank, NonComment);
    } else {
      var r := ReadNonCommentLine(rest);
      assert ReadNonCommentLine(s) == r;
      ReadNonCommentLineMeaning(rest);
      assert k != -1 && line.value == Trim(lines[k]) && Lines(rest) == lines[k + 1..];
      assert !NonComment(lines[k]);
      FoundPast(lines, k, r.0, Lines(r.1), NonBlank, NonComment);
    }
  }

  // ---------------------------------------------------------------------
  // ReadBracketedLine

  predicate NotWhite(c: char) { !Chars.IsWhiteSpace(c) }

  predicate AllWhite(s: string) {
    forall i :: 0 <= i < |s| ==> Chars.IsWhiteSpace(s[i])
  }

  /** The body of ReadBracketedLine once a line was read: Ok(Some(text)) for
      `true` with `line = text`, Ok(None) for `false`, Err for an exception. */
  function Bracketed(line: string): (r: Outcome<Option<string>>)
    ensures r.Err? ==> r.error == ArgumentOutOfRange
    ensures r.Ok? && r.value.Some? ==>
      (|r.value.value| >= 2 && NotWhite(r.value.value[0]) && NotWhite(r.value.value[|r.value.value| - 1])
       && |line| > 0 && line[|line| - 1] == ']')
  {
    BracketedAt(line, IndexOf(line, '['), LastIndexOf(line, ']'))
  }

  /** Bracketed once '[' was searched from the front (`left`) and ']' from
      the back (`right`): the two white-space tests, then the text between. */
  function BracketedAt(line: string, left: int, right: int): (r: Outcome<Option<string>>)
    requires -1 <= left < |line| && -1 <= right < |line|
    requires right >= 0 ==> line[right] == ']'
    ensures r.Err? ==> r.error == ArgumentOutOfRange
    ensures r.Ok? && r.value.Some? ==>
      (|r.value.value| >= 2 && NotWhite(r.value.value[0]) && NotWhite(r.value.value[|r.value.value| - 1])
       && |line| > 0 && right == |line| - 1)
  {
    var leading := StringExt.IsWhiteSpace(line, 0, left);
    if leading.Err? then Err(leading.error)
    else if !leading.value then Ok(None)
    else
      var trailing := StringExt.IsWhiteSpace(line, right, |line| - right - 1);
      if trailing.Err? then Err(trailing.error)
      else if !trailing.value then Ok(None)
      else BracketedText(line, FirstIndex(line, NotWhite, left + 1), LastIndex(line, NotWhite, right - 1))
  }

  /** The text from the first non-white character `first` to the last one
      `last`, when they are at least two apart. */
  function BracketedText(line: string, first: int, last: int): (r: Outcome<Option<string>>)
    requires -1 <= first < |line| && -1 <= last < |line|
    requires first >= 0 ==> NotWhite(line[first])
    requires last >= 0 ==> NotWhite(line[last])
    ensures r.Err? ==> r.error == ArgumentOutOfRange
    ensures r.Ok? && r.value.Some? ==>
      (|r.value.value| >= 2 && NotWhite(r.value.value[0]) && NotWhite(r.value.value[|r.value.value| - 1]))
  {
    if first >= last then Ok(None)
    else if first < 0 then Err(ArgumentOutOfRange)
    else Ok(Some(line[first..last + 1]))
  }

  /** ReadBracketedLine: reads exactly one line and judges it. */
  function ReadBracketedLine(s: string): (r: (Outcome<Option<string>>, string))
    ensures r.1 == ReadLine(s).1
    ensures |s| == 0 ==> r.0 == Ok(None)
    ensures |s| > 0 ==> r.0 == Bracketed(ReadLine(s).0.value)
  {
    var (line, rest) := ReadLine(s);
    if line.None? then (Ok(None), rest) else (Bracketed(line.value), rest)
  }

  /** `ws* '[' ws* X ws* ']'` with X of at least two characters that starts
      and ends with non-white space is accepted with text X. */
  lemma BracketedAccepts(w: string, v1: string, x: string, v2: string)
    requires AllWhite(w) && AllWhite(v1) && AllWhite(v2)
    requires |x| >= 2 && NotWhite(x[0]) && NotWhite(x[|x| - 1])
    ensures Bracketed(w + "[" + v1 + x + v2 + "]").Ok?
    ensures Bracketed(w + "[" + v1 + x + v2 + "]").value.Some?
    ensures Bracketed(w + "[" + v1 + x + v2 + "]").value.value == x
  {
    var line := w + "[" + v1 + x + v2 + "]";
    var a := |w| + 1 + |v1|;
    AcceptsSearches(w, v1, x, v2);
    BracketedFound(line, |w|, a, |x|);
  }

  /** The searches Bracketed performs, on a line of the accepted shape. */
  lemma AcceptsSearches(w: string, v1: string, x: string, v2: string)
    requires AllWhite(w) && AllWhite(v1) && AllWhite(v2)
    requires |x| >= 2 && NotWhite(x[0]) && NotWhite(x[|x| - 1])
    ensures var line := w + "[" + v1 + x + v2 + "]";
      var a := |w| + 1 + |v1|;
      && IndexOf(line, '[') == |w| && LastIndexOf(line, ']') == |line| - 1
      && StringExt.IsWhiteSpace(line, 0, |w|) == Ok(true)
      && FirstIndex(line, NotWhite, |w| + 1) == a
      && LastIndex(line, NotWhite, |line| - 2) == a + |x| - 1
      && line[a..a + |x|] == x
  {
    AcceptsOpen(w, v1, x, v2);
    AcceptsFirst(w, v1, x, v2);
    AcceptsLast(w, v1, x, v2);
  }

  /** Bracketed once the searches it performs are known. */
  lemma BracketedFound(line: string, left: nat, a: nat, n: nat)
    requires n >= 2 && left < a && a + n < |line|
    requires IndexOf(line, '[') == left && LastIndexOf(line, ']') == |line| - 1
    requires StringExt.IsWhiteSpace(line, 0, left) == Ok(true)
    requires FirstIndex(line, NotWhite, left + 1) == a && LastIndex(line, NotWhite, |line| - 2) == a + n - 1
    ensures Bracketed(line) == Ok(Some(line[a..a + n]))
  {
    assert Bracketed(line) == BracketedAt(line, left, |line| - 1);
    BracketedAtFound(line, left, a, n);
  }

  lemma BracketedAtFound(line: string, left: nat, a: nat, n: nat)
    requires n >= 2 && left < a && a + n < |line| && line[|line| - 1] == ']'
    requires StringExt.IsWhiteSpace(line, 0, left) == Ok(true)
    requires FirstIndex(line, NotWhite, left + 1) == a && LastIndex(line, NotWhite, |line| - 2) == a + n - 1
    ensures BracketedAt(line, left, |line| - 1) == Ok(Some(line[a..a + n]))
  {
    assert StringExt.IsWhiteSpace(line, |line| - 1, 0) == Ok(true);
  }

  lemma AcceptsOpen(w: string, v1: string, x: string, v2: string)
    requires AllWhite(w)
    ensures IndexOf(w + "[" + v1 + x + v2 + "]", '[') == |w|
    ensures StringExt.IsWhiteSpace(w + "[" + v1 + x + v2 + "]", 0, |w|) == Ok(true)
  {
    var line := w + "[" + v1 + x + v2 + "]";
    assert line[|w|] == '[';
    assert forall i :: 0 <= i < |w| ==> line[i] == w[i];
    assert line[..|w|] == w;
    assert '[' !in w by {
      forall i | 0 <= i < |w| ensures w[i] != '[' { assert Chars.IsWhiteSpace(w[i]); }
    }
  }

  lemma AcceptsFirst(w: string, v1: string, x: string, v2: string)
    requires AllWhite(v1) && |x| > 0 && NotWhite(x[0])
    ensures FirstIndex(w + "[" + v1 + x + v2 + "]", NotWhite, |w| + 1) == |w| + 1 + |v1|
  {
    var line := w + "[" + v1 + x + v2 + "]";
    var a := |w| + 1 + |v1|;
    assert line[a] == x[0];
    assert forall i :: |w| + 1 <= i < a ==> line[i] == v1[i - |w| - 1];
  }

  lemma AcceptsLast(w: string, v1: string, x: string, v2: string)
    requires AllWhite(v2) && |x| > 0 && NotWhite(x[|x| - 1])
    ensures var line := w + "[" + v1 + x + v2 + "]";
      && LastIndexOf(line, ']') == |line| - 1
      && LastIndex(line, NotWhite, |line| - 2) == |w| + |v1| + |x|
      && line[|w| + 1 + |v1|..|w| + 1 + |v1| + |x|] == x
  {
    var line := w + "[" + v1 + x + v2 + "]";
    var b := |w| + |v1| + |x|;
    assert line[b] == x[|x| - 1];
    assert forall i :: b < i < |line| - 1 ==> line[i] == v2[i - b - 1];
    assert forall i :: 0 <= i < |x| ==> line[|w| + 1 + |v1| + i] == x[i];
  }

  /** Bracketed content shorter than two characters is rejected: "[a]". */
  lemma BracketedRejectsSingleChar(v1: string, c: char, v2: string)
    requires AllWhite(v1) && AllWhite(v2) && NotWhite(c) && c != '['
    ensures Bracketed("[" + v1 + [c] + v2 + "]") == Ok(None)
  {
    var line := "[" + v1 + [c] + v2 + "]";
    var n := |line|;
    var a := 1 + |v1|;
    assert line[a] == c;
    assert forall i :: 1 <= i < a ==> line[i] == v1[i - 1];
    assert forall i :: a < i < n - 1 ==> line[i] == v2[i - a - 1];
    assert IndexOf(line, '[') == 0;
    assert LastIndexOf(line, ']') == n - 1;
    assert FirstIndex(line, NotWhite, 1) == a;
    assert LastIndex(line, NotWhite, n - 2) == a;
  }

  // Behaviour that follows from StringExt.IsWhiteSpace inspecting a single character.

  /** White space after ']' rejects the line: the character examined is the ']' itself. */
  lemma BracketedRejectsTrailingSpace()
    ensures Bracketed("[ab] ") == Ok(None)
  {
    assert IndexOf("[ab] ", '[') == 0;
    assert LastIndexOf("[ab] ", ']') == 3;
  }

  /** A non-empty line without ']' throws: the whitespace test starts at index -1. */
  lemma BracketedThrowsWithoutBracket()
    ensures Bracketed("ab") == Err(ArgumentOutOfRange)
  {
    assert IndexOf("ab", '[') == -1;
    assert LastIndexOf("ab", ']') == -1;
  }

  /** Without any '[' the first test passes: IsWhiteSpace(0, -1) has a
      negative length. So "X]" is accepted with the text X. */
  lemma BracketedWithoutOpen(x: string)
    requires '[' !in x && |x| >= 2 && NotWhite(x[0]) && NotWhite(x[|x| - 1])
    ensures Bracketed(x + "]") == Ok(Some(x))
  {
    var line := x + "]";
    var n := |x|;
    assert line[..n] == x && line[n] == ']';
    assert '[' !in line by {
      forall i | 0 <= i < |line| ensures line[i] != '[' {
        if i < n { assert line[i] == x[i]; }
      }
    }
    assert IndexOf(line, '[') == -1;
    assert LastIndexOf(line, ']') == n;
    assert line[0] == x[0] && line[n - 1] == x[n - 1];
    assert FirstIndex(line, NotWhite, 0) == 0;
    assert LastIndex(line, NotWhite, n - 1) == n - 1;
    assert BracketedAt(line, -1, n) == BracketedText(line, 0, n - 1);
  }

  /** The first test rejects a line whose first character is neither white
      space nor '[' as soon as a '[' follows; the ']' is never looked at. */
  lemma BracketedRejectsBeforeClose(line: string)
    requires |line| > 0 && NotWhite(line[0]) && line[0] != '[' && '[' in line
    ensures Bracketed(line) == Ok(None)
  {
    var left := IndexOf(line, '[');
    assert left > 0;
    assert StringExt.IsWhiteSpace(line, 0, left) == Ok(false);
  }

  /** "ab]" is accepted and "x[" rejected: neither line is refused for a
      missing bracket. */
  lemma BracketedMissingBrackets()
    ensures Bracketed("ab]") == Ok(Some("ab"))
    ensures Bracketed("x[") == Ok(None)
  {
    assert NotWhite('a') && NotWhite('b') && "ab"[0] == 'a' && "ab"[1] == 'b';
    BracketedWithoutOpen("ab");
    assert "ab" + "]" == "ab]";
    assert "x["[1] == '[' && NotWhite('x');
    BracketedRejectsBeforeClose("x[");
  }

  /** Only the first character before '[' is examined: " c[X]" is accepted
      whatever the non-white `c`. */
  lemma BracketedTestsFirstCharOnly(c: char, x: string)
    requires NotWhite(c) && c != '['
    requires |x| >= 2 && NotWhite(x[0]) && NotWhite(x[|x| - 1])
    ensures Bracketed([' ', c] + "[" + x + "]") == Ok(Some(x))
  {
    BracketedAfter([' ', c], x);
  }

  /** A bare "[X]" line is accepted with text X. */
  lemma BracketedPlain(x: string)
    requires |x| >= 2 && NotWhite(x[0]) && NotWhite(x[|x| - 1])
    ensures Bracketed("[" + x + "]").Ok?
    ensures Bracketed("[" + x + "]").value.Some?
    ensures Bracketed("[" + x + "]").value.value == x
  {
    BracketedAfter("", x);
    assert "" + "[" + x + "]" == "[" + x + "]";
  }

  /** "p[X]" is accepted with text X when `p` holds no '[' and starts with
      white space (only that first character is examined). */
  lemma BracketedAfter(p: string, x: string)
    requires '[' !in p && (|p| > 0 ==> Chars.IsWhiteSpace(p[0]))
    requires |x| >= 2 && NotWhite(x[0]) && NotWhite(x[|x| - 1])
    ensures Bracketed(p + "[" + x + "]") == Ok(Some(x))
  {
    var line := p + "[" + x + "]";
    assert IndexOf(line, '[') == |p| && LastIndexOf(line, ']') == |line| - 1
        && StringExt.IsWhiteSpace(line, 0, |p|) == Ok(true) by {
      AfterBrackets(p, x);
    }
    assert FirstIndex(line, NotWhite, |p| + 1) == |p| + 1
        && LastIndex(line, NotWhite, |line| - 2) == |p| + |x|
        && line[|p| + 1..|p| + 1 + |x|] == x by {
      AfterText(p, x);
    }
    BracketedFound(line, |p|, |p| + 1, |x|);
  }

  lemma AfterBrackets(p: string, x: string)
    requires '[' !in p && (|p| > 0 ==> Chars.IsWhiteSpace(p[0]))
    ensures var line := p + "[" + x + "]";
      && IndexOf(line, '[') == |p| && LastIndexOf(line, ']') == |line| - 1
      && StringExt.IsWhiteSpace(line, 0, |p|) == Ok(true)
  {
    var line := p + "[" + x + "]";
    assert line[|p|] == '[' && line[|line| - 1] == ']';
    assert line[..|p|] == p;
  }

  lemma AfterText(p: string, x: string)
    requires |x| >= 2 && NotWhite(x[0]) && NotWhite(x[|x| - 1])
    ensures var line := p + "[" + x + "]";
      && FirstIndex(line, NotWhite, |p| + 1) == |p| + 1
      && LastIndex(line, NotWhite, |line| - 2) == |p| + |x|
      && line[|p| + 1..|p| + 1 + |x|] == x
  {
    var line := p + "[" + x + "]";
    var a := |p| + 1;
    assert line[a] == x[0] && line[a + |x| - 1] == x[|x| - 1];
    assert line[a..a + |x|] == x;
  }

  // ---------------------------------------------------------------------
  // ReadIntArray (and the identical loop of Trace.GetEnumerator)

  predicate IsRunSeparator(c: char) { c == ',' || c == ' ' }

  /** The digit accumulator after one character that is neither a separator
      nor a line break: -1 means "no number pending". */
  function Step(value: int, c: char): (v: int)
    requires value >= -1
    ensures v >= -1
  {
    if IsDigit(c) then (if value == -1 then DigitValue(c) else value * 10 + DigitValue(c))
    else value
  }

  /** Drops the run of '\n' / '\r' that follows a line. */
  function SkipLineBreaks(s: string): (r: string)
    ensures |r| <= |s| && r == s[|s| - |r|..]
    ensures |r| > 0 ==> !IsLineBreak(r[0])
  {
    if |s| > 0 && IsLineBreak(s[0]) then SkipLineBreaks(s[1..]) else s
  }

  /** The character loop shared by ReadIntArray and Trace.GetEnumerator. */
  function ScanRuns(s: string, value: int, acc: seq<nat>): (r: (seq<nat>, string))
    requires value >= -1
    ensures |r.1| <= |s| && r.1 == s[|s| - |r.1|..]
    decreases |s|
  {
    if |s| == 0 then (if value != -1 then acc + [value] else acc, [])
    else if IsLineBreak(s[0]) then (if value != -1 then acc + [value] else acc, SkipLineBreaks(s[1..]))
    else if IsRunSeparator(s[0]) then ScanRuns(s[1..], -1, if value != -1 then acc + [value] else acc)
    else ScanRuns(s[1..], Step(value, s[0]), acc)
  }

  /** ReadIntArray: the numbers of the next line and the text after it and
      after any line breaks that follow. */
  function ReadIntArray(s: string): (r: (seq<nat>, string))
    ensures |r.1| <= |s| && r.1 == s[|s| - |r.1|..]
    ensures LineEnd(s) < |s| ==> |r.1| < |s|
  {
    ScanRuns(s, -1, [])
  }

  // The meaning of the scanner, as an independent definition over pieces.

  function DigitsOf(p: string): (d: string)
    ensures AllDigits(d)
  {
    if |p| == 0 then []
    else if IsDigit(p[|p| - 1]) then DigitsOf(p[..|p| - 1]) + [p[|p| - 1]]
    else DigitsOf(p[..|p| - 1])
  }

  lemma {:induction false} DigitsOfDigits(d: string)
    requires AllDigits(d)
    ensures DigitsOf(d) == d
    decreases |d|
  {
    if |d| > 0 {
      DigitsOfDigits(d[..|d| - 1]);
      assert d[..|d| - 1] + [d[|d| - 1]] == d;
    }
  }

  /** One piece between separators yields the number its digits spell, if it has any. */
  function PieceValue(p: string): seq<nat> {
    var d := DigitsOf(p);
    if |d| == 0 then [] else [DecimalValue(d)]
  }

  function PieceValues(pieces: seq<string>): seq<nat> {
    if |pieces| == 0 then [] else PieceValue(pieces[0]) + PieceValues(pieces[1..])
  }

  /** The numbers of a line: split at ',' and ' ', drop pieces without
      digits, read the digits of each remaining piece as a decimal number. */
  function RunValues(line: string): seq<nat> {
    PieceValues(Split(line, IsRunSeparator))
  }

  /** `Step` folded over a piece, front to back. */
  function Accumulate(value: int, p: string): (v: int)
    requires value >= -1
    ensures v >= -1
    decreases |p|
  {
    if |p| == 0 then value else Accumulate(Step(value, p[0]), p[1..])
  }

  lemma {:induction false} AccumulateSnoc(value: int, p: string, c: char)
    requires value >= -1
    ensures Accumulate(value, p + [c]) == Step(Accumulate(value, p), c)
    decreases |p|
  {
    if |p| == 0 {
      assert p + [c] == [c];
    } else {
      assert (p + [c])[1..] == p[1..] + [c];
      AccumulateSnoc(Step(value, p[0]), p[1..], c);
    }
  }

  /** Starting with no pending number, a piece accumulates the value of its digits. */
  lemma {:induction false} AccumulatePiece(p: string)
    ensures Accumulate(-1, p) == (if |DigitsOf(p)| == 0 then -1 else DecimalValue(DigitsOf(p)))
    decreases |p|
  {
    if |p| > 0 {
      var q := p[..|p| - 1];
      var c := p[|p| - 1];
      assert p == q + [c];
      AccumulatePiece(q);
      AccumulateSnoc(-1, q, c);
      if IsDigit(c) {
        var d := DigitsOf(q) + [c];
        assert d[..|d| - 1] == DigitsOf(q);
      }
    }
  }

  predicate Plain(p: string) {
    forall i :: 0 <= i < |p| ==> !IsRunSeparator(p[i]) && !IsLineBreak(p[i])
  }

  /** Characters that are neither separators nor line breaks only feed the accumulator. */
  lemma {:induction false} ScanPlain(p: string, t: string, value: int, acc: seq<nat>)
    requires value >= -1 && Plain(p)
    ensures ScanRuns(p + t, value, acc) == ScanRuns(t, Accumulate(value, p), acc)
    decreases |p|
  {
    if |p| > 0 {
      assert (p + t)[0] == p[0];
      assert (p + t)[1..] == p[1..] + t;
      ScanPlain(p[1..], t, Step(value, p[0]), acc);
    } else {
      assert p + t == t;
    }
  }

  function Emit(acc: seq<nat>, value: int): seq<nat>
    requires value >= -1
  {
    if value != -1 then acc + [value] else acc
  }

  /** The scanner over one line followed by its terminator. */
  lemma {:induction false} ScanLine(line: string, t: string, acc: seq<nat>)
    requires NoLineBreak(line)
    requires |t| == 0 || IsLineBreak(t[0])
    ensures ScanRuns(line + t, -1, acc).0 == acc + RunValues(line)
    ensures ScanRuns(line + t, -1, acc).1 == (if |t| == 0 then [] else SkipLineBreaks(t[1..]))
    decreases |line|
  {
    var i := SeparatorAt(line, IsRunSeparator);
    if i == |line| {
      ScanLastPiece(line, t, acc);
    } else {
      var p := line[..i];
      var rest := line[i + 1..];
      var acc' := Emit(acc, Accumulate(-1, p));
      ScanLineStep(line, t, i, acc);
      ScanLine(rest, t, acc');
      RunValuesStep(line, i, acc);
    }
  }

  /** The values of a line are those of its first piece followed by those of the rest. */
  lemma RunValuesStep(line: string, i: nat, acc: seq<nat>)
    requires i == SeparatorAt(line, IsRunSeparator) && i < |line|
    ensures Emit(acc, Accumulate(-1, line[..i])) + RunValues(line[i + 1..]) == acc + RunValues(line)
  {
    var p := line[..i];
    var r := RunValues(line[i + 1..]);
    calc {
      Emit(acc, Accumulate(-1, p)) + r;
      { EmitPiece(acc, p); }
      (acc + PieceValue(p)) + r;
      { AppendAssoc(acc, PieceValue(p), r); }
      acc + (PieceValue(p) + r);
      { SplitAt(line, i); }
      acc + RunValues(line);
    }
  }

  lemma AppendAssoc<T>(a: seq<T>, b: seq<T>, c: seq<T>)
    ensures (a + b) + c == a + (b + c)
  {
  }

  /** Emitting what a piece accumulated appends the piece's value. */
  lemma EmitPiece(acc: seq<nat>, p: string)
    ensures Emit(acc, Accumulate(-1, p)) == acc + PieceValue(p)
  {
    AccumulatePiece(p);
  }

  /** Up to and including the first separator of a line. */
  lemma ScanLineStep(line: string, t: string, i: nat, acc: seq<nat>)
    requires NoLineBreak(line)
    requires i == SeparatorAt(line, IsRunSeparator) && i < |line|
    ensures ScanRuns(line + t, -1, acc) == ScanRuns(line[i + 1..] + t, -1, Emit(acc, Accumulate(-1, line[..i])))
    ensures NoLineBreak(line[i + 1..])
  {
    var p := line[..i];
    var u := line + t;
    var rest := line[i + 1..];
    assert u[..i] == p;
    assert Plain(p);
    ScanPlainPrefix(u, i, acc);
    ScanSeparator(line, t, i, Accumulate(-1, p), acc);
    forall j | 0 <= j < |rest| ensures !IsLineBreak(rest[j]) { assert rest[j] == line[i + 1 + j]; }
  }

  /** The scanner over a plain prefix of its input. */
  lemma ScanPlainPrefix(u: string, i: nat, acc: seq<nat>)
    requires i <= |u| && Plain(u[..i])
    ensures ScanRuns(u, -1, acc) == ScanRuns(u[i..], Accumulate(-1, u[..i]), acc)
  {
    assert u == u[..i] + u[i..];
    ScanPlain(u[..i], u[i..], -1, acc);
  }

  /** A line without separators is a single piece. */
  lemma ScanLastPiece(line: string, t: string, acc: seq<nat>)
    requires NoLineBreak(line) && FreeOf(line, IsRunSeparator)
    requires |t| == 0 || IsLineBreak(t[0])
    ensures ScanRuns(line + t, -1, acc).0 == acc + RunValues(line)
    ensures ScanRuns(line + t, -1, acc).1 == (if |t| == 0 then [] else SkipLineBreaks(t[1..]))
  {
    assert Plain(line);
    ScanPlain(line, t, -1, acc);
    AccumulatePiece(line);
    SplitLast(line, IsRunSeparator);
    assert [line][1..] == [];
    assert RunValues(line) == PieceValue(line) + PieceValues([]);
  }

  /** After the first separator of a line the scan restarts on the rest of the line. */
  lemma ScanSeparator(line: string, t: string, i: nat, value: int, acc: seq<nat>)
    requires i < |line| && IsRunSeparator(line[i]) && value >= -1
    ensures ScanRuns((line + t)[i..], value, acc) == ScanRuns(line[i + 1..] + t, -1, Emit(acc, value))
  {
    var u := (line + t)[i..];
    assert u[0] == line[i];
    assert u[1..] == line[i + 1..] + t;
  }

  lemma SplitAt(line: string, i: nat)
    requires i == SeparatorAt(line, IsRunSeparator) && i < |line|
    ensures PieceValues(Split(line, IsRunSeparator)) == PieceValue(line[..i]) + PieceValues(Split(line[i + 1..], IsRunSeparator))
  {
    var parts := Split(line, IsRunSeparator);
    assert parts == [line[..i]] + Split(line[i + 1..], IsRunSeparator);
    assert parts[1..] == Split(line[i + 1..], IsRunSeparator);
  }

  /** ReadIntArray returns the numbers of the next line, in order, and consumes
      that line together with the line breaks that follow it. */
  lemma ReadIntArrayMeaning(s: string)
    ensures ReadIntArray(s).0 == RunValues(s[..LineEnd(s)])
    ensures ReadIntArray(s).1 == (if LineEnd(s) == |s| then [] else SkipLineBreaks(s[LineEnd(s) + 1..]))
  {
    var n := LineEnd(s);
    assert s == s[..n] + s[n..];
    ScanLine(s[..n], s[n..], []);
    if n < |s| {
      assert s[n..][1..] == s[n + 1..];
    }
  }

  /** A line of numbers written with a "\r\n" terminator reads back as its
      numbers, and the reader stops where the next line starts. */
  lemma ReadIntArrayCrlf(line: string, more: string)
    requires NoLineBreak(line) && (|more| == 0 || !IsLineBreak(more[0]))
    ensures ReadIntArray(Crlf(line, more)) == (RunValues(line), more)
  {
    var t := "\r\n" + more;
    AppendAssoc(line, "\r\n", more);
    assert Crlf(line, more) == line + t;
    ScanLine(line, t, []);
    assert [] + RunValues(line) == RunValues(line);
    SkipCrlf(more);
  }

  lemma SkipCrlf(more: string)
    requires |more| == 0 || !IsLineBreak(more[0])
    ensures SkipLineBreaks(("\r\n" + more)[1..]) == more
  {
    assert ("\r\n" + more)[1..] == "\n" + more;
    assert ("\n" + more)[1..] == more;
  }

  /** A digit in the middle of other characters continues the pending number: "1x2" reads as 12. */
  lemma ReadIntArrayIgnoresOtherChars()
    ensures ReadIntArray("1x2").0 == [12]
  {
    assert !IsLineBreak('1') && !IsRunSeparator('1') && Step(-1, '1') == 1;
    assert !IsLineBreak('x') && !IsRunSeparator('x') && Step(1, 'x') == 1;
    assert !IsLineBreak('2') && !IsRunSeparator('2') && Step(1, '2') == 12;
    assert "1x2"[1..] == "x2" && "x2"[1..] == "2" && "2"[1..] == "";
    var last := ScanRuns("", 12, []);
    assert last.0 == [] + [12] == [12];
    assert ScanRuns("2", 1, []) == ScanRuns("", 12, []);
    assert ScanRuns("x2", 1, []) == ScanRuns("2", 1, []);
    assert ScanRuns("1x2", -1, []) == ScanRuns("x2", 1, []);
  }

  /** char.IsDigit takes the ARABIC-INDIC DIGIT THREE (U+0663) for a digit,
      and the reader adds its distance from '0': the line reads as [1587]. */
  lemma ReadIntArrayOtherScriptDigit()
    ensures ReadIntArray("\U{0663}").0 == [1587]
  {
    assert "\U{0663}"[1..] == "";
  }
}
