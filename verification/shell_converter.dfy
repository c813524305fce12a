/** The .sh to .bat rewriter (OJWebService/Utils/ShellConverter.cs): shell
    quoting becomes batch quoting, and relative paths that start with "../"
    are put in double quotes. */
module ShellConverter {
  import opened Wrappers
  import opened Chars
  import opened TextReaderExt

  const CpCommand := "cp $ARISTOTLE_DB_DIR/"

  // ---------------------------------------------------------------------
  // ConvertString

  /** Batch escaping inside a quoted region: '"' and '%' are doubled. */
  function Escape(t: string): (r: string)
    ensures |r| >= |t|
  {
    if |t| == 0 then ""
    else (if t[0] == '"' then "\"\"" else if t[0] == '%' then "%%" else [t[0]]) + Escape(t[1..])
  }

  /** ConvertString from the given in-string state: a '\'' becomes '"' and
      toggles the state; inside, '"' and '%' are doubled; outside, a
      backslash copies the next character, and one at the very end reads
      past the string. */
  function ConvertFrom(s: string, inString: bool): (r: Outcome<string>)
    ensures r.Err? ==> r.error == IndexOutOfRange && |s| > 0 && s[|s| - 1] == '\\'
    decreases |s|
  {
    if |s| == 0 then Ok("")
    else
      var c := s[0];
      if c == '\\' && !inString then
        if |s| < 2 then Err(IndexOutOfRange)
        else var rest :- ConvertFrom(s[2..], false); Ok([s[1]] + rest)
      else
        var rest :- ConvertFrom(s[1..], if c == '\'' then !inString else inString);
        var out :=
          if c == '\'' then "\""
          else if inString && c == '"' then "\"\""
          else if inString && c == '%' then "%%"
          else [c];
        Ok(out + rest)
  }

  function ConvertString(s: string): (r: Outcome<string>)
    ensures r.Err? ==> r.error == IndexOutOfRange && |s| > 0 && s[|s| - 1] == '\\'
  {
    ConvertFrom(s, false)
  }

  /** Without single quotes and backslashes nothing changes. */
  lemma {:induction false} ConvertPlain(s: string)
    requires '\'' !in s && '\\' !in s
    ensures ConvertString(s) == Ok(s)
    decreases |s|
  {
    if |s| > 0 {
      assert s == [s[0]] + s[1..];
      ConvertPlain(s[1..]);
    }
  }

  /** Inside a quoted region the text is escaped, up to the closing quote. */
  lemma {:induction false} ConvertQuoted(t: string, rest: string)
    requires '\'' !in t
    ensures ConvertFrom(t + rest, true).Ok? == ConvertFrom(rest, true).Ok?
    ensures ConvertFrom(t + rest, true).Ok? ==>
      ConvertFrom(t + rest, true).value == Escape(t) + ConvertFrom(rest, true).value
    decreases |t|
  {
    if |t| == 0 {
      assert t + rest == rest;
    } else {
      assert (t + rest)[1..] == t[1..] + rest;
      ConvertQuoted(t[1..], rest);
      if ConvertFrom(rest, true).Ok? {
        var c := if t[0] == '"' then "\"\"" else if t[0] == '%' then "%%" else [t[0]];
        AppendAssoc(c, Escape(t[1..]), ConvertFrom(rest, true).value);
      }
    }
  }

  /** A single-quoted shell string becomes a double-quoted batch string. */
  lemma QuotedString(t: string)
    requires '\'' !in t
    ensures ConvertString("'" + t + "'") == Ok("\"" + Escape(t) + "\"")
  {
    var s := "'" + t + "'";
    assert s[1..] == t + "'";
    ConvertQuoted(t, "'");
    assert "'"[1..] == "";
    assert ConvertFrom("", false) == Ok("");
    assert "\"" + "" == "\"";
    assert ConvertFrom("'", true) == Ok("\"");
    AppendAssoc("\"", Escape(t), "\"");
  }

  /** Only a backslash outside quotes can put a '\'' into the output. */
  lemma {:induction false} ConvertRemovesQuotes(s: string, inString: bool)
    requires '\\' !in s
    requires ConvertFrom(s, inString).Ok?
    ensures '\'' !in ConvertFrom(s, inString).value
    decreases |s|
  {
    if |s| > 0 {
      assert s[0] != '\\';
      assert '\\' !in s[1..] by {
        assert forall x :: x in s[1..] ==> x in s;
      }
      var rest := ConvertFrom(s[1..], if s[0] == '\'' then !inString else inString);
      ConvertRemovesQuotes(s[1..], if s[0] == '\'' then !inString else inString);
      var out :=
        if s[0] == '\'' then "\""
        else if inString && s[0] == '"' then "\"\""
        else if inString && s[0] == '%' then "%%"
        else [s[0]];
      assert '\'' !in out;
      assert ConvertFrom(s, inString).value == out + rest.value;
    }
  }

  /** An escaped quote outside a string is copied: the output keeps a '\''. */
  lemma EscapedQuoteKept()
    ensures ConvertString("\\'") == Ok("'")
  {
    assert "\\'"[2..] == "" && "\\'"[1] == '\'';
    assert ['\''] + "" == "'";
  }

  /** A backslash at the end, outside quotes, reads past the string. */
  lemma TrailingBackslash()
    ensures ConvertString("a\\") == Err(IndexOutOfRange)
  {
    assert "a\\"[1..] == "\\";
  }

  // ---------------------------------------------------------------------
  // ProcessPath

  /** The first white-space position at or after `j`, or |s|. */
  function WhiteFrom(s: string, j: nat): (k: nat)
    requires j <= |s|
    ensures j <= k <= |s|
    ensures forall m :: j <= m < k ==> !IsWhiteSpace(s[m])
    ensures k < |s| ==> IsWhiteSpace(s[k])
    decreases |s| - j
  {
    if j == |s| || IsWhiteSpace(s[j]) then j else WhiteFrom(s, j + 1)
  }

  predicate DotDotSlash(s: string) {
    |s| >= 3 && s[0] == '.' && s[1] == '.' && s[2] == '/'
  }

  /** ProcessPath as a function of the rest of the string and whether the
      previous character was white space: a "../" at the start or after
      white space is put in quotes up to the next white space. */
  function ProcessPath(s: string, preIsWhiteSpace: bool): (r: string)
    ensures |r| >= |s|
    decreases |s|
  {
    if |s| == 0 then ""
    else if preIsWhiteSpace && DotDotSlash(s) then
      var k := WhiteFrom(s, 3);
      "\"" + s[..k] + "\"" + ProcessPath(s[k..], true)
    else [s[0]] + ProcessPath(s[1..], IsWhiteSpace(s[0]))
  }

  /** Quotes are added in pairs: the output is longer by an even number. */
  lemma {:induction false} ProcessPathQuotePairs(s: string, pre: bool)
    ensures (|ProcessPath(s, pre)| - |s|) % 2 == 0
    decreases |s|
  {
    if |s| > 0 {
      if pre && DotDotSlash(s) {
        ProcessPathQuotePairs(s[WhiteFrom(s, 3)..], true);
      } else {
        ProcessPathQuotePairs(s[1..], IsWhiteSpace(s[0]));
      }
    }
  }

  /** ProcessPath's loop: a StringBuilder, the start of the pending copy, and
      the scan position. */
  method ProcessPathLoop(str: string) returns (r: string)
    ensures r == ProcessPath(str, true)
  {
    var text := "";
    var preIsWhiteSpace := true;
    var start := 0;
    var replaceLen := |str| - 2;
    var i := 0;
    ghost var whole := ProcessPath(str, true);
    assert str[0..0] == "" && str[0..] == str;
    while i < replaceLen
      invariant 0 <= start <= i <= |str|
      invariant whole == text + (str[start..i] + ProcessPath(str[i..], preIsWhiteSpace))
    {
      text, start, i, preIsWhiteSpace := ScanStep(str, whole, text, start, i, preIsWhiteSpace);
    }
    FinishPath(str, whole, text, start, i, preIsWhiteSpace);
    if start < |str| {
      text := text + str[start..];
    }
    r := text;
  }

  /** One pass of the loop at position `i`. A quoted path that runs to the
      end of the string leaves the scan position at the end, which ends the
      loop as the source's `break` does. */
  method ScanStep(str: string, ghost whole: string, text: string, start: nat, i: nat, pre: bool)
      returns (text': string, start': nat, i': nat, pre': bool)
    requires start <= i && i + 2 < |str|
    requires whole == text + (str[start..i] + ProcessPath(str[i..], pre))
    ensures start' <= i' <= |str| && i' > i
    ensures whole == text' + (str[start'..i'] + ProcessPath(str[i'..], pre'))
  {
    if str[i] == '.' && pre && str[i + 1] == '.' && str[i + 2] == '/' {
      text', start', i', pre' := MatchedStep(str, whole, text, start, i);
    } else {
      PlainStep(str, start, i, pre);
      text', start', i', pre' := text, start, i + 1, IsWhiteSpace(str[i]);
    }
  }

  /** The pass that found a "../" at `i`: the quoted path, then the white
      space that ended it, if any. */
  method MatchedStep(str: string, ghost whole: string, text: string, start: nat, i: nat)
      returns (text': string, start': nat, i': nat, pre': bool)
    requires start <= i && i + 2 < |str|
    requires str[i] == '.' && str[i + 1] == '.' && str[i + 2] == '/'
    requires whole == text + (str[start..i] + ProcessPath(str[i..], true))
    ensures start' <= i' <= |str| && i' > i
    ensures whole == text' + (str[start'..i'] + ProcessPath(str[i'..], pre'))
  {
    var k;
    text', k := AppendPath(str, whole, text, start, i);
    if k < |str| {
      assert !DotDotSlash(str[k..]) by {
        assert str[k..][0] == str[k] && IsWhiteSpace(str[k]);
      }
      var ws := IsWhiteSpace(str[k]);
      PlainStep(str, k, k, true);
      assert whole == text' + (str[k..k + 1] + ProcessPath(str[k + 1..], ws));
      start', i', pre' := k, k + 1, ws;
    } else {
      assert whole == text' + (str[k..k] + ProcessPath(str[k..], true));
      start', i', pre' := k, k, true;
    }
  }

  /** The branch that found a "../" at `at`: the pending text, then the path
      up to the next white space in quotes. Returns the new builder contents
      and where the path ends. */
  method AppendPath(str: string, ghost whole: string, text: string, start: nat, at: nat) returns (text': string, k: nat)
    requires start <= at && at + 3 <= |str|
    requires str[at] == '.' && str[at + 1] == '.' && str[at + 2] == '/'
    requires whole == text + (str[start..at] + ProcessPath(str[at..], true))
    ensures at + 3 <= k <= |str|
    ensures k < |str| ==> IsWhiteSpace(str[k])
    ensures whole == text' + (str[k..k] + ProcessPath(str[k..], true))
  {
    k := PathEnd(str, at + 3);
    MatchStep(str, whole, text, str[start..at], at, k);
    text' := text + str[start..at] + "\"" + str[at..k] + "\"";
  }

  /** The inner loop: the first white space at or after `from`, or the end. */
  method PathEnd(str: string, from: nat) returns (k: nat)
    requires from <= |str|
    ensures from <= k <= |str|
    ensures forall m :: from <= m < k ==> !IsWhiteSpace(str[m])
    ensures k < |str| ==> IsWhiteSpace(str[k])
  {
    k := from;
    while k < |str| && !IsWhiteSpace(str[k])
      invariant from <= k <= |str|
      invariant forall m :: from <= m < k ==> !IsWhiteSpace(str[m])
    {
      k := k + 1;
    }
  }

  /** After the loop, at most two characters are left and they are copied as they are. */
  lemma FinishPath(str: string, whole: string, text: string, start: nat, i: nat, pre: bool)
    requires start <= i <= |str| && i >= |str| - 2
    requires whole == text + (str[start..i] + ProcessPath(str[i..], pre))
    ensures whole == text + (if start < |str| then str[start..] else "")
  {
    ShortIdentity(str[i..], pre);
    assert str[start..i] + str[i..] == str[start..];
    if start == |str| {
      assert str[start..] == [];
      assert text + [] == text;
    }
  }

  /** A match at `at`: the path up to `k` goes in quotes. */
  lemma PathStep(str: string, at: nat, k: nat)
    requires at + 3 <= k <= |str| && DotDotSlash(str[at..])
    requires forall m :: at + 3 <= m < k ==> !IsWhiteSpace(str[m])
    requires k < |str| ==> IsWhiteSpace(str[k])
    ensures ProcessPath(str[at..], true) == "\"" + str[at..k] + "\"" + ProcessPath(str[k..], true)
  {
    var s := str[at..];
    var w := WhiteFrom(s, 3);
    assert w == k - at;
    assert s[..w] == str[at..k];
    assert s[w..] == str[k..];
  }

  lemma MatchAssoc(text: string, a: string, m: string, e: string, p: string)
    requires |e| == 0
    ensures text + (a + ("\"" + m + "\"" + p)) == text + a + "\"" + m + "\"" + (e + p)
  {
    assert e + p == p;
  }

  /** The loop invariant survives a quoted path from `at` to `k`. */
  lemma MatchStep(str: string, whole: string, before: string, pending: string, at: nat, k: nat)
    requires at + 3 <= k <= |str| && DotDotSlash(str[at..])
    requires forall m :: at + 3 <= m < k ==> !IsWhiteSpace(str[m])
    requires k < |str| ==> IsWhiteSpace(str[k])
    requires whole == before + (pending + ProcessPath(str[at..], true))
    ensures whole
         == before + pending + "\"" + str[at..k] + "\"" + (str[k..k] + ProcessPath(str[k..], true))
  {
    PathStep(str, at, k);
    MatchAssoc(before, pending, str[at..k], str[k..k], ProcessPath(str[k..], true));
  }

  /** One character copied as it is. */
  lemma PlainStep(str: string, start: nat, i: nat, pre: bool)
    requires start <= i < |str|
    requires !(pre && DotDotSlash(str[i..]))
    ensures str[start..i] + ProcessPath(str[i..], pre)
         == str[start..i + 1] + ProcessPath(str[i + 1..], IsWhiteSpace(str[i]))
  {
    assert str[i..][1..] == str[i + 1..];
    AppendAssoc(str[start..i], [str[i]], ProcessPath(str[i + 1..], IsWhiteSpace(str[i])));
    assert str[start..i] + [str[i]] == str[start..i + 1];
  }

  /** Fewer than three characters cannot hold a "../". */
  lemma {:induction false} ShortIdentity(s: string, pre: bool)
    requires |s| < 3
    ensures ProcessPath(s, pre) == s
    decreases |s|
  {
    if |s| > 0 {
      ShortIdentity(s[1..], IsWhiteSpace(s[0]));
      assert [s[0]] + s[1..] == s;
    }
  }

  /** A "../" where ProcessPath would quote it: at the start or after white space. */
  predicate PathAt(s: string, i: int, pre: bool)
    requires 0 <= i <= |s|
  {
    DotDotSlash(s[i..]) && (if i == 0 then pre else IsWhiteSpace(s[i - 1]))
  }

  /** Without such a "../" the text is unchanged. */
  lemma {:induction false} ProcessPathIdentity(s: string, pre: bool)
    requires forall i :: 0 <= i <= |s| ==> !PathAt(s, i, pre)
    ensures ProcessPath(s, pre) == s
    decreases |s|
  {
    if |s| > 0 {
      assert !PathAt(s, 0, pre);
      forall i | 0 <= i <= |s[1..]| ensures !PathAt(s[1..], i, IsWhiteSpace(s[0])) {
        assert !PathAt(s, i + 1, pre);
        assert s[1..][i..] == s[i + 1..];
        if i > 0 {
          assert s[1..][i - 1] == s[i];
        }
      }
      ProcessPathIdentity(s[1..], IsWhiteSpace(s[0]));
      assert [s[0]] + s[1..] == s;
    }
  }

  /** The text without its '"' characters. */
  function Unquote(s: string): (r: string)
    ensures |r| <= |s|
  {
    if |s| == 0 then "" else (if s[0] == '"' then "" else [s[0]]) + Unquote(s[1..])
  }

  lemma {:induction false} UnquoteAppend(a: string, b: string)
    ensures Unquote(a + b) == Unquote(a) + Unquote(b)
    decreases |a|
  {
    if |a| == 0 {
      assert a + b == b;
    } else {
      assert (a + b)[1..] == a[1..] + b;
      UnquoteAppend(a[1..], b);
      AppendAssoc(if a[0] == '"' then "" else [a[0]], Unquote(a[1..]), Unquote(b));
    }
  }

  /** ProcessPath only inserts '"': removing every '"' gives the same text
      as removing them from the input. */
  lemma {:induction false} ProcessPathOnlyQuotes(s: string, pre: bool)
    ensures Unquote(ProcessPath(s, pre)) == Unquote(s)
    decreases |s|
  {
    if |s| == 0 {
    } else if pre && DotDotSlash(s) {
      var k := WhiteFrom(s, 3);
      ProcessPathOnlyQuotes(s[k..], true);
      UnquoteQuoted(s[..k], ProcessPath(s[k..], true));
      UnquoteAppend(s[..k], s[k..]);
      assert s[..k] + s[k..] == s;
    } else {
      var p := ProcessPath(s[1..], IsWhiteSpace(s[0]));
      ProcessPathOnlyQuotes(s[1..], IsWhiteSpace(s[0]));
      UnquoteCons(s[0], s[1..]);
      UnquoteCons(s[0], p);
      assert [s[0]] + s[1..] == s;
    }
  }

  lemma UnquoteCons(c: char, t: string)
    ensures Unquote([c] + t) == (if c == '"' then "" else [c]) + Unquote(t)
  {
    assert ([c] + t)[1..] == t;
  }

  /** The quotes put around a path disappear again. */
  lemma UnquoteQuoted(m: string, p: string)
    ensures Unquote("\"" + m + "\"" + p) == Unquote(m) + Unquote(p)
  {
    var q := "\"";
    assert Unquote(q) == [] by {
      assert q[1..] == [];
    }
    UnquoteAppend(q, m);
    assert Unquote(q + m) == Unquote(m);
    UnquoteAppend(q + m, q);
    assert Unquote(q + m + q) == Unquote(m);
    UnquoteAppend(q + m + q, p);
  }

  /** So a text without '"' of its own is recovered exactly. */
  lemma ProcessPathRecovers(s: string)
    requires '"' !in s
    ensures Unquote(ProcessPath(s, true)) == s
  {
    ProcessPathOnlyQuotes(s, true);
    UnquoteNoQuotes(s);
  }

  lemma {:induction false} UnquoteNoQuotes(s: string)
    requires '"' !in s
    ensures Unquote(s) == s
    decreases |s|
  {
    if |s| > 0 {
      UnquoteNoQuotes(s[1..]);
      assert [s[0]] + s[1..] == s;
    }
  }

  /** A leading "../" path is quoted up to the white space that ends it. */
  lemma QuotesPath(path: string, rest: string)
    requires DotDotSlash(path) && NoWhiteSpace(path)
    requires |rest| == 0 || IsWhiteSpace(rest[0])
    ensures ProcessPath(path + rest, true) == "\"" + path + "\"" + ProcessPath(rest, true)
  {
    var s := path + rest;
    assert DotDotSlash(s);
    assert forall m :: 0 <= m < |path| ==> s[m] == path[m];
    assert |rest| > 0 ==> s[|path|] == rest[0];
    assert WhiteFrom(s, 3) == |path|;
    assert s[..|path|] == path && s[|path|..] == rest;
  }

  // ---------------------------------------------------------------------
  // Convert

  /** The rule Convert applies to line `i` of the script. */
  function ConvertLine(i: nat, line: string): (r: Outcome<string>)
    ensures i == 0 ==> r == Ok("@echo off")
    ensures i > 0 && StartsWith(line, "echo") && !StartsWith(line, CpCommand) ==> r == Ok(line)
  {
    if i == 0 then Ok("@echo off")
    else if StartsWith(line, CpCommand) then
      Ok("copy /Y " + ProcessPath(line[|CpCommand|..], true) + " >nul")
    else if !StartsWith(line, "echo") then
      var s :- ConvertString(line);
      Ok(ProcessPath(s, true))
    else Ok(line)
  }

  /** Every line from `i` on, converted. */
  function ConvertLines(lines: seq<string>, i: nat): (r: Outcome<seq<string>>)
    ensures r.Ok? ==> |r.value| == |lines|
    decreases |lines|
  {
    if |lines| == 0 then Ok([])
    else
      var first :- ConvertLine(i, lines[0]);
      var rest :- ConvertLines(lines[1..], i + 1);
      Ok([first] + rest)
  }

  /** Convert: the lines of the script, line 0 replaced (an empty file has
      no line 0), the rest converted, joined with "\r\n". */
  function Convert(script: string): (r: Outcome<string>)
    ensures |script| == 0 ==> r == Err(IndexOutOfRange)
  {
    var lines := TextReaderExt.Lines(script);
    if |lines| == 0 then Err(IndexOutOfRange)
    else
      var converted :- ConvertLines(lines, 0);
      Ok(Join("\r\n", converted))
  }

  /** Line k of the converted script follows the per-line rule for k. */
  lemma {:induction false} ConvertLinesEach(lines: seq<string>, i: nat)
    requires ConvertLines(lines, i).Ok?
    ensures forall k :: 0 <= k < |lines| ==> ConvertLine(i + k, lines[k]) == Ok(ConvertLines(lines, i).value[k])
    decreases |lines|
  {
    if |lines| > 0 {
      ConvertLinesEach(lines[1..], i + 1);
      var r := ConvertLines(lines, i).value;
      forall k | 0 <= k < |lines| ensures ConvertLine(i + k, lines[k]) == Ok(r[k]) {
        if k > 0 {
          assert lines[1..][k - 1] == lines[k];
          assert r[k] == ConvertLines(lines[1..], i + 1).value[k - 1];
        }
      }
    }
  }

  /** A script converts only if every line does: one failing line fails it. */
  lemma {:induction false} ConvertLinesFails(lines: seq<string>, i: nat, k: nat)
    requires k < |lines| && ConvertLine(i + k, lines[k]).Err?
    ensures ConvertLines(lines, i).Err?
    decreases |lines|
  {
    if k > 0 {
      assert lines[1..][k - 1] == lines[k];
      ConvertLinesFails(lines[1..], i + 1, k - 1);
    }
  }
}
