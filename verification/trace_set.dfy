/** The trace file of a test suite (OJWebService/TestSuits/TraceSet.cs): four
    bracketed header sections, then per test case a bracketed TestCase line
    followed by one line of node ids. The writer that produces the file
    (TestSuit.GetTrace, OJWebService/TestSuits/TestSuit.cs) is modelled too,
    so that reading can be checked against writing. */
module TraceSet {
  import opened Wrappers
  import opened Chars
  import opened TextReaderExt
  import Trace

  const TestCaseCount := "TestCaseCount"
  const SuccessCountSection := "SuccessCount"
  const FailCountSection := "FailCount"
  const InstrumentLevelSection := "InstrumentLevel"
  const TestCaseSection := "TestCase"
  const Success := "success"
  const Fail := "fail"

  /** The header values and the position of the shared reader (None once
      enumeration has finished). Unset counts are 0 and an unset level is null. */
  datatype TraceSet = TraceSet(count: int, successCount: int, failCount: int,
                               instrumentLevel: Option<string>, reader: Option<string>)

  /** One test case as the graph builder consumes it: the trace is enumerated
      as soon as it is yielded. */
  datatype Run = Run(isSuccessful: bool, nodes: seq<nat>)

  // ---------------------------------------------------------------------
  // Sections

  /** The text after the first ':' (the whole line when there is none), left-trimmed. */
  function SectionValue(line: string): string {
    TrimStart(line[IndexOf(line, ':') + 1..])
  }

  /** The text before the first ':', right-trimmed; Substring(0, -1) throws when there is none. */
  function SectionKey(line: string): (r: Outcome<string>)
    ensures r.Err? <==> ':' !in line
    ensures r.Err? ==> r.error == ArgumentOutOfRange
  {
    var idx := IndexOf(line, ':');
    if idx < 0 then Err(ArgumentOutOfRange) else Ok(TrimEnd(line[..idx]))
  }

  /** ParseSection: sets the field named by the key; unknown keys change nothing. */
  function ParseSection(ts: TraceSet, line: string): (r: Outcome<TraceSet>)
    ensures r.Err? ==> r.error in {ArgumentOutOfRange, Format}
    ensures r.Ok? ==> r.value.reader == ts.reader
  {
    var value := SectionValue(line);
    var key :- SectionKey(line);
    if key == TestCaseCount then
      var n :- ParseInt(value); Ok(ts.(count := n))
    else if key == SuccessCountSection then
      var n :- ParseInt(value); Ok(ts.(successCount := n))
    else if key == FailCountSection then
      var n :- ParseInt(value); Ok(ts.(failCount := n))
    else if key == InstrumentLevelSection then
      Ok(ts.(instrumentLevel := Some(value)))
    else Ok(ts)
  }

  /** A section line without ':' throws; so does a count that is not a
      number. Otherwise the field the key names is set and nothing else
      changes. */
  lemma ParseSectionMeaning(ts: TraceSet, line: string)
    ensures ParseSection(ts, line).Err? <==>
      (|| ':' !in line
       || (SectionKey(line).value in {TestCaseCount, SuccessCountSection, FailCountSection}
           && ParseInt(SectionValue(line)).Err?))
    ensures ParseSection(ts, line).Ok? ==> match SectionKey(line).value
      case "TestCaseCount" => ParseSection(ts, line).value == ts.(count := ParseInt(SectionValue(line)).value)
      case "SuccessCount" => ParseSection(ts, line).value == ts.(successCount := ParseInt(SectionValue(line)).value)
      case "FailCount" => ParseSection(ts, line).value == ts.(failCount := ParseInt(SectionValue(line)).value)
      case "InstrumentLevel" => ParseSection(ts, line).value == ts.(instrumentLevel := Some(SectionValue(line)))
      case _ => ParseSection(ts, line).value == ts
  {
  }

  // ---------------------------------------------------------------------
  // Opening and enumerating

  /** One header line: it must be accepted by ReadBracketedLine, and it is
      handed to ParseSection. */
  function ReadSection(ts: TraceSet, s: string): (r: (Outcome<TraceSet>, string))
    ensures r.0.Err? ==> r.0.error in {ArgumentOutOfRange, Format, BadTraceFile}
    ensures |s| == 0 ==> r.0 == Err(BadTraceFile)
  {
    var (line, rest) := ReadBracketedLine(s);
    if line.Err? then (Err(line.error), rest)
    else if line.value.None? then (Err(BadTraceFile), rest)
    else (ParseSection(ts, line.value.value), rest)
  }

  /** The constructor's four header steps, `n` of them left. */
  function ReadSections(ts: TraceSet, s: string, n: nat): (r: Outcome<TraceSet>)
    ensures r.Ok? ==> r.value.reader.Some?
    ensures r.Err? ==> r.error in {ArgumentOutOfRange, Format, BadTraceFile}
    ensures n > 0 && |s| == 0 ==> r == Err(BadTraceFile)
    decreases n
  {
    if n == 0 then Ok(ts.(reader := Some(s)))
    else
      var (next, rest) := ReadSection(ts, s);
      if next.Err? then Err(next.error) else ReadSections(next.value, rest, n - 1)
  }

  /** new TraceSet(file): a file whose first four lines are not accepted
      by ReadBracketedLine is rejected. */
  function Open(text: string): (r: Outcome<TraceSet>)
    ensures r.Ok? ==> r.value.reader.Some?
    ensures r.Err? ==> r.error in {ArgumentOutOfRange, Format, BadTraceFile}
    ensures |text| == 0 ==> r == Err(BadTraceFile)
  {
    ReadSections(TraceSet(0, 0, 0, None, None), text, 4)
  }

  /** One pass of the enumeration loop: the TestCase line, which must be
      accepted by ReadBracketedLine, and the trace read right after it. */
  function ReadRun(s: string): (r: (Outcome<Run>, string))
    ensures |r.1| <= |s|
    ensures r.0.Err? ==> r.0.error in {ArgumentOutOfRange, BadTraceFile}
    ensures |s| == 0 ==> r.0 == Err(BadTraceFile)
  {
    var (line, rest) := ReadBracketedLine(s);
    if line.Err? then (Err(line.error), rest)
    else if line.value.None? then (Err(BadTraceFile), rest)
    else
      var t := Trace.Trace(SectionValue(line.value.value) == Success, Some(rest));
      var e := Trace.Enumerate(t);
      (Ok(Run(t.isSuccessful, e.values)), e.rest.value)
  }

  /** `n` passes of a reading step that stops at the first exception.
      Returns what the passes read and where the reader stands. */
  function Repeat<T>(step: string -> (Outcome<T>, string), s: string, n: int): (r: (Outcome<seq<T>>, string))
    ensures r.0.Ok? ==> |r.0.value| == if n < 0 then 0 else n
    decreases n
  {
    if n <= 0 then (Ok([]), s)
    else
      var (x, rest) := step(s);
      if x.Err? then (Err(x.error), rest)
      else
        var (more, rest') := Repeat(step, rest, n - 1);
        if more.Err? then (Err(more.error), rest')
        else (Ok([x.value] + more.value), rest')
  }

  /** The enumeration loop with `n` test cases left. */
  function ReadRuns(s: string, n: int): (r: (Outcome<seq<Run>>, string))
    ensures r.0.Ok? ==> |r.0.value| == if n < 0 then 0 else n
  {
    Repeat(ReadRun, s, n)
  }

  /** GetEnumerator: Count test cases, then the reader is closed. An
      exception leaves the reader where the failing read left it. */
  function Enumerate(ts: TraceSet): (r: (Outcome<seq<Run>>, TraceSet))
    ensures ts.reader.None? ==> r == (Ok([]), ts)
    ensures r.0.Ok? ==> |r.0.value| == (if ts.reader.None? || ts.count < 0 then 0 else ts.count)
    ensures r.0.Ok? ==> r.1 == ts.(reader := None)
    ensures r.0.Err? ==> r.1.reader.Some?
  {
    match ts.reader
    case None => (Ok([]), ts)
    case Some(s) =>
      var (runs, rest) := ReadRuns(s, ts.count);
      if runs.Ok? then (runs, ts.(reader := None)) else (runs, ts.(reader := Some(rest)))
  }

  /** A finished enumeration cannot be repeated: the second one yields nothing. */
  lemma EnumerateOnce(ts: TraceSet)
    ensures Enumerate(ts).0.Ok? ==> Enumerate(Enumerate(ts).1) == (Ok([]), Enumerate(ts).1)
  {
  }

  // ---------------------------------------------------------------------
  // The writer (TestSuit.GetTrace)

  /** The text of a "[{0} : {1}]" section. */
  function SectionText(key: string, value: string): string {
    key + " : " + value
  }

  function SectionLine(key: string, value: string): string {
    "[" + SectionText(key, value) + "]"
  }

  function NatStrings(xs: seq<nat>): (r: seq<string>)
    ensures |r| == |xs|
  {
    if |xs| == 0 then [] else [NatToString(xs[0])] + NatStrings(xs[1..])
  }

  /** The trace line: the per-statement lines of one execution joined with ", ". */
  function TraceLine(nodes: seq<nat>): string {
    Join(", ", NatStrings(nodes))
  }

  function CountSuccesses(runs: seq<Run>): (n: nat)
    ensures n <= |runs|
  {
    if |runs| == 0 then 0 else (if runs[0].isSuccessful then 1 else 0) + CountSuccesses(runs[1..])
  }

  /** The value of a TestCase section. */
  function Verdict(isSuccessful: bool): string {
    if isSuccessful then Success else Fail
  }

  function RunsText(runs: seq<Run>): string {
    if |runs| == 0 then ""
    else
      Crlf(SectionLine(TestCaseSection, Verdict(runs[0].isSuccessful)),
        Crlf(TraceLine(runs[0].nodes), RunsText(runs[1..])))
  }

  /** The four header sections in front of `body`. */
  function Header(count: nat, successCount: nat, failCount: nat, level: string, body: string): string {
    Crlf(SectionLine(TestCaseCount, NatToString(count)),
      Crlf(SectionLine(SuccessCountSection, NatToString(successCount)),
        Crlf(SectionLine(FailCountSection, NatToString(failCount)),
          Crlf(SectionLine(InstrumentLevelSection, level), body))))
  }

  /** The whole file: the header, then each test case. */
  function Write(level: string, runs: seq<Run>): string {
    var k := CountSuccesses(runs);
    Header(|runs|, k, |runs| - k, level, RunsText(runs))
  }

  // ---------------------------------------------------------------------
  // Reading back what the writer wrote

  /** A value that survives a section line: one line, at least one
      character, no white space at either end. */
  predicate Token(s: string) {
    |s| > 0 && NotWhite(s[0]) && NotWhite(s[|s| - 1]) && NoLineBreak(s)
  }

  /** Characters the trace line is made of. */
  predicate RunText(s: string) {
    forall i :: 0 <= i < |s| ==> IsDigit(s[i]) || IsRunSeparator(s[i])
  }

  lemma SectionLineRead(key: string, value: string, rest: string)
    requires Token(key) && Token(value)
    ensures ReadBracketedLine(Crlf(SectionLine(key, value), rest)).0.Ok?
    ensures ReadBracketedLine(Crlf(SectionLine(key, value), rest)).0.value.Some?
    ensures ReadBracketedLine(Crlf(SectionLine(key, value), rest)).0.value.value == SectionText(key, value)
    ensures ReadBracketedLine(Crlf(SectionLine(key, value), rest)).1 == rest
  {
    var x := SectionText(key, value);
    var line := SectionLine(key, value);
    assert x[0] == key[0] && x[|x| - 1] == value[|value| - 1];
    assert NoLineBreak(line) by {
      forall i | 0 <= i < |x| ensures !IsLineBreak(x[i]) {
        if i >= |key| + 3 {
          assert x[i] == value[i - |key| - 3];
        } else if i < |key| {
          assert x[i] == key[i];
        }
      }
      forall i | 0 <= i < |line| ensures !IsLineBreak(line[i]) {
        if 0 < i < |line| - 1 {
          assert line[i] == x[i - 1];
        }
      }
    }
    ReadLineCrLf(line, rest);
    BracketedPlain(x);
  }

  /** The key and the value of a "key : value" section come back apart. */
  lemma SectionSplit(key: string, value: string)
    requires Token(key) && Token(value) && ':' !in key
    ensures SectionKey(SectionText(key, value)) == Ok(key)
    ensures SectionValue(SectionText(key, value)) == value
  {
    var x := SectionText(key, value);
    var at := |key| + 1;
    assert x[at] == ':';
    assert x[..at] == key + " ";
    assert IndexOf(x, ':') == at;
    TrimEndSuffix(key, " ", IsWhiteSpace);
    assert x[at + 1..] == " " + value;
    TrimStartPrefix(" ", value, IsWhiteSpace);
  }

  lemma NatToken(n: nat)
    ensures Token(NatToString(n)) && RunText(NatToString(n))
  {
    var d := NatToString(n);
    assert forall i :: 0 <= i < |d| ==> IsDigit(d[i]);
  }

  lemma TraceLineUnfold(nodes: seq<nat>)
    requires |nodes| >= 2
    ensures TraceLine(nodes) == NatToString(nodes[0]) + ", " + TraceLine(nodes[1..])
  {
    assert NatStrings(nodes)[1..] == NatStrings(nodes[1..]);
  }

  lemma {:induction false} TraceLineText(nodes: seq<nat>)
    ensures RunText(TraceLine(nodes)) && NoLineBreak(TraceLine(nodes))
    decreases |nodes|
  {
    if |nodes| == 1 {
      NatToken(nodes[0]);
    } else if |nodes| >= 2 {
      var d := NatToString(nodes[0]);
      var j := TraceLine(nodes[1..]);
      NatToken(nodes[0]);
      TraceLineText(nodes[1..]);
      TraceLineUnfold(nodes);
      var line := d + ", " + j;
      forall i | 0 <= i < |line| ensures IsDigit(line[i]) || IsRunSeparator(line[i]) {
        if i < |d| {
          assert line[i] == d[i];
        } else if i >= |d| + 2 {
          assert line[i] == j[i - |d| - 2];
        }
      }
    }
  }

  lemma PieceOfNat(n: nat)
    ensures PieceValue(NatToString(n)) == [n]
  {
    DigitsOfDigits(NatToString(n));
    NatToStringRoundTrip(n);
  }

  lemma SplitCommaSpace(d: string, j: string)
    requires FreeOf(d, IsRunSeparator)
    ensures Split(d + ", " + j, IsRunSeparator) == [d] + ([""] + Split(j, IsRunSeparator))
  {
    assert d + ", " + j == d + [','] + (" " + j);
    SplitPiece(d, ',', " " + j, IsRunSeparator);
    assert "" + [' '] + j == " " + j;
    SplitPiece("", ' ', j, IsRunSeparator);
  }

  lemma PieceValuesCommaSpace(d: string, tail: seq<string>)
    ensures PieceValues([d] + ([""] + tail)) == PieceValue(d) + PieceValues(tail)
  {
    var pieces := [d] + ([""] + tail);
    assert pieces[1..] == [""] + tail;
    assert ([""] + tail)[1..] == tail;
    assert PieceValues([""] + tail) == PieceValues(tail);
  }

  /** The trace line reads back as the node ids it was written from. */
  lemma {:induction false} TraceLineValues(nodes: seq<nat>)
    ensures RunValues(TraceLine(nodes)) == nodes
    decreases |nodes|
  {
    if |nodes| == 0 {
      assert PieceValues([""]) == PieceValue("") + PieceValues([]);
    } else if |nodes| == 1 {
      var d := NatToString(nodes[0]);
      NatToken(nodes[0]);
      SplitLast(d, IsRunSeparator);
      PieceOfNat(nodes[0]);
      assert PieceValues([d]) == PieceValue(d) + PieceValues([]);
    } else {
      var d := NatToString(nodes[0]);
      var j := TraceLine(nodes[1..]);
      TraceLineUnfold(nodes);
      TraceLineValues(nodes[1..]);
      NatToken(nodes[0]);
      PieceOfNat(nodes[0]);
      SplitCommaSpace(d, j);
      PieceValuesCommaSpace(d, Split(j, IsRunSeparator));
      assert [nodes[0]] + nodes[1..] == nodes;
    }
  }

  /** A trace followed by the next TestCase line (or the end of the file)
      yields its node ids and leaves the reader at that line. */
  lemma TraceRead(b: bool, nodes: seq<nat>, more: string)
    requires |more| == 0 || more[0] == '['
    ensures Trace.Enumerate(Trace.Trace(b, Some(Crlf(TraceLine(nodes), more)))).values == nodes
    ensures Trace.Enumerate(Trace.Trace(b, Some(Crlf(TraceLine(nodes), more)))).rest == Some(more)
  {
    TraceLineText(nodes);
    TraceLineValues(nodes);
    ReadIntArrayCrlf(TraceLine(nodes), more);
    Trace.EnumerateIsReadIntArray(Trace.Trace(b, Some(Crlf(TraceLine(nodes), more))));
  }

  lemma RunsTextStart(runs: seq<Run>)
    ensures |RunsText(runs)| == 0 || RunsText(runs)[0] == '['
  {
  }

  lemma TestCaseValue(b: bool)
    ensures Token(TestCaseSection) && ':' !in TestCaseSection
    ensures Token(Verdict(b))
    ensures (Verdict(b) == Success) == b
  {
    assert |Fail| != |Success|;
  }

  /** A section line is read and split into its key and value. */
  lemma SectionRead(key: string, value: string, rest: string)
    requires Token(key) && Token(value) && ':' !in key
    ensures ReadBracketedLine(Crlf(SectionLine(key, value), rest)) == (Ok(Some(SectionText(key, value))), rest)
    ensures SectionValue(SectionText(key, value)) == value
  {
    SectionLineRead(key, value, rest);
    SectionSplit(key, value);
  }

  /** One section line and the trace line after it, read by one pass of the
      enumeration loop. */
  lemma ReadRunOf(key: string, value: string, nodes: seq<nat>, tail: string)
    requires Token(key) && Token(value) && ':' !in key
    requires |tail| == 0 || tail[0] == '['
    ensures ReadRun(Crlf(SectionLine(key, value), Crlf(TraceLine(nodes), tail)))
         == (Ok(Run(value == Success, nodes)), tail)
  {
    SectionRead(key, value, Crlf(TraceLine(nodes), tail));
    TraceRead(value == Success, nodes, tail);
  }

  /** One pass of the enumeration loop over what the writer wrote for one test case. */
  lemma ReadRunText(runs: seq<Run>)
    requires |runs| > 0
    ensures ReadRun(RunsText(runs)) == (Ok(runs[0]), RunsText(runs[1..]))
  {
    var b := runs[0].isSuccessful;
    TestCaseValue(b);
    RunsTextStart(runs[1..]);
    ReadRunOf(TestCaseSection, Verdict(b), runs[0].nodes, RunsText(runs[1..]));
  }

  /** The test cases read back as written, and the whole text is consumed. */
  lemma ReadRunsText(runs: seq<Run>)
    ensures ReadRuns(RunsText(runs), |runs|) == (Ok(runs), "")
  {
    var texts := seq(|runs| + 1, i requires 0 <= i <= |runs| => RunsText(runs[i..]));
    forall i | 0 <= i < |runs| ensures ReadRun(texts[i]) == (Ok(runs[i]), texts[i + 1]) {
      ReadRunText(runs[i..]);
      assert runs[i..][1..] == runs[i + 1..];
    }
    assert runs[0..] == runs;
    RepeatChain(ReadRun, texts, runs);
  }

  /** Passes that each read one value, from one text to the next, read all
      of them and stop at the last text. */
  lemma {:induction false} RepeatChain<T>(step: string -> (Outcome<T>, string), texts: seq<string>, xs: seq<T>)
    requires |texts| == |xs| + 1
    requires forall i :: 0 <= i < |xs| ==> step(texts[i]) == (Ok(xs[i]), texts[i + 1])
    ensures Repeat(step, texts[0], |xs|) == (Ok(xs), texts[|xs|])
    decreases |xs|
  {
    if |xs| > 0 {
      RepeatChain(step, texts[1..], xs[1..]);
      assert [xs[0]] + xs[1..] == xs;
    }
  }

  lemma HeaderKeys()
    ensures Token(TestCaseCount) && ':' !in TestCaseCount
    ensures Token(SuccessCountSection) && ':' !in SuccessCountSection
    ensures Token(FailCountSection) && ':' !in FailCountSection
    ensures Token(InstrumentLevelSection) && ':' !in InstrumentLevelSection
  {
  }

  /** A count written by the writer is parsed back into its field. */
  lemma CountSectionParse(ts: TraceSet, key: string, c: nat)
    requires key in {TestCaseCount, SuccessCountSection, FailCountSection}
    ensures Token(NatToString(c))
    ensures ParseSection(ts, SectionText(key, NatToString(c))).Ok?
    ensures key == TestCaseCount ==> ParseSection(ts, SectionText(key, NatToString(c))).value == ts.(count := c)
    ensures key == SuccessCountSection ==> ParseSection(ts, SectionText(key, NatToString(c))).value == ts.(successCount := c)
    ensures key == FailCountSection ==> ParseSection(ts, SectionText(key, NatToString(c))).value == ts.(failCount := c)
  {
    HeaderKeys();
    NatToken(c);
    SectionSplit(key, NatToString(c));
    ParseIntOfToString(c);
    assert IntToString(c) == NatToString(c);
  }

  lemma LevelSectionParse(ts: TraceSet, level: string)
    requires Token(level)
    ensures ParseSection(ts, SectionText(InstrumentLevelSection, level)) == Ok(ts.(instrumentLevel := Some(level)))
  {
    HeaderKeys();
    SectionSplit(InstrumentLevelSection, level);
  }

  /** A header line written by the writer, read by one constructor step. */
  lemma SectionStep(ts: TraceSet, key: string, value: string, rest: string)
    requires Token(key) && Token(value)
    ensures ReadSection(ts, Crlf(SectionLine(key, value), rest)) == (ParseSection(ts, SectionText(key, value)), rest)
  {
    SectionLineRead(key, value, rest);
  }

  lemma ReadSectionsStep(ts: TraceSet, s: string, n: nat)
    requires ReadSection(ts, s).0.Ok?
    ensures ReadSections(ts, s, n + 1) == ReadSections(ReadSection(ts, s).0.value, ReadSection(ts, s).1, n)
  {
  }

  lemma CountStep(ts: TraceSet, key: string, c: nat, rest: string)
    requires key in {TestCaseCount, SuccessCountSection, FailCountSection}
    ensures key == TestCaseCount ==>
      ReadSection(ts, Crlf(SectionLine(key, NatToString(c)), rest)) == (Ok(ts.(count := c)), rest)
    ensures key == SuccessCountSection ==>
      ReadSection(ts, Crlf(SectionLine(key, NatToString(c)), rest)) == (Ok(ts.(successCount := c)), rest)
    ensures key == FailCountSection ==>
      ReadSection(ts, Crlf(SectionLine(key, NatToString(c)), rest)) == (Ok(ts.(failCount := c)), rest)
  {
    HeaderKeys();
    CountSectionParse(ts, key, c);
    SectionStep(ts, key, NatToString(c), rest);
  }

  lemma LevelStep(ts: TraceSet, level: string, rest: string)
    requires Token(level)
    ensures ReadSection(ts, Crlf(SectionLine(InstrumentLevelSection, level), rest))
         == (Ok(ts.(instrumentLevel := Some(level))), rest)
  {
    LevelSectionParse(ts, level);
    HeaderKeys();
    SectionStep(ts, InstrumentLevelSection, level, rest);
  }

  /** Opening a file recovers its header: the counts, the level, and the
      reader positioned after the header. */
  lemma OpenHeader(count: nat, successCount: nat, failCount: nat, level: string, body: string)
    requires Token(level)
    ensures Open(Header(count, successCount, failCount, level, body))
         == Ok(TraceSet(count, successCount, failCount, Some(level), Some(body)))
  {
    var ts0 := TraceSet(0, 0, 0, None, None);
    var ts1 := ts0.(count := count);
    var ts2 := ts1.(successCount := successCount);
    var ts3 := ts2.(failCount := failCount);
    var ts4 := ts3.(instrumentLevel := Some(level));
    var t3 := Crlf(SectionLine(InstrumentLevelSection, level), body);
    var t2 := Crlf(SectionLine(FailCountSection, NatToString(failCount)), t3);
    var t1 := Crlf(SectionLine(SuccessCountSection, NatToString(successCount)), t2);
    var t0 := Crlf(SectionLine(TestCaseCount, NatToString(count)), t1);
    CountStep(ts0, TestCaseCount, count, t1);
    ReadSectionsStep(ts0, t0, 3);
    CountStep(ts1, SuccessCountSection, successCount, t2);
    ReadSectionsStep(ts1, t1, 2);
    CountStep(ts2, FailCountSection, failCount, t3);
    ReadSectionsStep(ts2, t2, 1);
    LevelStep(ts3, level, body);
    ReadSectionsStep(ts3, t3, 0);
    assert Header(count, successCount, failCount, level, body) == t0;
  }

  /** Writing the test cases and reading them back gives the same test cases. */
  lemma WriteThenEnumerate(level: string, runs: seq<Run>)
    requires Token(level)
    ensures Open(Write(level, runs)).Ok?
    ensures Enumerate(Open(Write(level, runs)).value).0 == Ok(runs)
  {
    var k := CountSuccesses(runs);
    var body := RunsText(runs);
    assert Write(level, runs) == Header(|runs|, k, |runs| - k, level, body);
    OpenHeader(|runs|, k, |runs| - k, level, body);
    var ts := TraceSet(|runs|, k, |runs| - k, Some(level), Some(body));
    assert Open(Write(level, runs)) == Ok(ts);
    ReadRunsText(runs);
    assert Enumerate(ts).0 == ReadRuns(body, |runs|).0;
  }
}
