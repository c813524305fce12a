# OJWebService fault localisation, modelled in Dafny

OJWebService localises faults in a student's program from how the program behaves.

1. An instrumented run writes one *trace* per test case: the verdict and the node ids it ran through.
2. The *trace set* file groups the traces under a bracketed header.
3. A *node-info collection* maps every node id to its function, the flag "first node of the function", and the source line.
4. Every trace becomes a *behaviour graph*: vertices are nodes, edges are transitions, both counted, and each edge carries a frequency.
5. The graphs of the failing runs are merged into a search space.
6. *Graph mining* explores the search space breadth first:
   - seeds are single edges;
   - each path is extended by one node at a time: queued paths have at most six edges, and paths that are scored and returned have at most five;
   - every extension must pass a call/return consistency check (*PathChecker*);
   - each path gets a score;
   - the best `k` results are kept in a ranked list with no two results whose edge sets nest.

The project also models the text utilities the parsers rest on:
- the line readers of `TextReaderExt`;
- the comma-separated integer parser of `StringExt`;
- the index searches of `EnumerableExt`;
- the natural-order string comparison of `StringCompareExt`;
- the shell-to-batch script converter `ShellConverter`.

Each source file is one Dafny module. Two helper modules have no source file of their own:
- `Wrappers`: `Option`, and `Outcome = Ok(value) | Err(error)`, where each `Error` stands for the .NET exception the code would throw;
- `Chars`: the .NET character and string primitives the code calls, such as `char.IsWhiteSpace`, `Trim`, `IndexOf`, `Split`, `int.Parse`, `bool.Parse` and `ToString`.

Objects are immutable values:
- a mutation returns the new value;
- a reader is the text still unread;
- an exception is an `Err`.

Behaviour the model keeps as the code has it:

- **ExecutePath**: a path can repeat a node. A seed edge that is a self-loop gives the path `n, n` (`ExecutePath.Seed`). Extension skips only nodes already on the path, and only in the miner.
- **ReadBracketedLine** makes two tests and then cuts out the text:
  - The first test looks only at the first character, and only when a `[` comes after it. So a line with no `[` passes, and `"ab]"` is accepted as `ab`. A line whose first character is neither white space nor `[` is rejected as soon as it holds a `[`, whatever follows: `"x["` is rejected, not refused for a missing `]`.
  - The second test requires the last `]` to be the last character. The white-space test there looks at the `]` itself, so any character after it rejects the line. A non-empty line that passes the first test and has no `]` throws.
  - The text runs from the first non-white character after the first `[` (after the start of the line when there is no `[`) to the last non-white character before the last `]`. The line is rejected unless that text is at least two characters long, so a content of one character is rejected.
- **NumericCompare** answers 0 for a string and its prefix only when the longer string does not go on with a digit run at that point. For example, `"1"` against `"12"` gives -11.
- **Digits** are what `char.IsDigit` accepts: every decimal digit of Unicode general category Nd, not only `0`-`9`. `int.Parse` accepts only `0`-`9`. So `NumericCompare` throws `FormatException` on a digit run of another script, even when comparing a string with itself. `ReadIntArray` and the trace reader add such a digit's distance from `'0'`, so U+0663 (ARABIC-INDIC DIGIT THREE) reads as 1587.
- **int.Parse** ignores NULs at the very end of its argument, after any trailing white space: `"5\0"` reads as 5. A NUL followed by white space is a format error. **bool.Parse** trims NULs together with white space on both sides: `"True\0"` reads as true.
- **ConvertString** can produce a `'`: an escaped `\'` outside quotes is copied as it is.
- **StringExt.IsWhiteSpace(str, start, length)** looks only at `str[start]`.
- **ExecutableStatementCount** is cached and never invalidated. After an `Add` it can report a stale count.
- **Result.CompareTo** can throw `ArgumentOutOfRange` on paths that retrace an edge. An example is `PathResult.CompareToMayThrow`. On the paths the miner builds it never throws (`PathResult.CompareToMeaning`).
- **Edge.GetHashCode** collides for node ids of 65536 and above.

## Model

| member | source | states |
|---|---|---|
| StringExt.IsWhiteSpace | OJWebService/Utils/StringExt.cs:15-25 | A non-positive length answers true. Otherwise the answer is whether the character at `start` is white space. A `start` outside the string throws ArgumentOutOfRange. |
| StringExt.IsWhiteSpaceChecksFirstOnly | OJWebService/Utils/StringExt.cs:17-19 | `" x"` is reported as all white space although its second character is not: only the first character is examined. |
| StringExt.ParseIntArray | OJWebService/Utils/StringExt.cs:31-40 | Succeeds exactly when every comma-separated piece parses. The result then has one element per piece (the number of commas plus one), each the value of its piece. |
| Chars.ParseIntOfDigits | OJWebService/Utils/StringExt.cs:37 | int.Parse reads a run of ASCII digits, with or without a '-' sign, as its value. |
| Chars.ParseIntTrailingNulls | OJWebService/TestSuits/NodeInfoCollection.cs:45 | int.Parse ignores NULs at the end of its argument, also after trailing white space: "5\0" and "5 \0" read as 5. |
| Chars.ParseIntInnerNull | OJWebService/TestSuits/NodeInfoCollection.cs:45 | A NUL is not white space to int.Parse: "5\0 " is a format error. |
| Chars.ParseBoolTrailingNull | OJWebService/TestSuits/NodeInfoCollection.cs:45 | bool.Parse trims NULs with the white space: "True\0" reads as true. |
| StringExt.ParseIntArrayRoundTrip | OJWebService/Utils/StringExt.cs:31-40 | Joining a non-empty integer array with commas and parsing the text gives back the array. |
| EnumerableExt.FirstIndex | OJWebService/Utils/EnumerableExt.cs:24-44 | The answer is -1 or a matching position at or after `startIndex`. |
| EnumerableExt.FirstIndexMeaning | OJWebService/Utils/EnumerableExt.cs:24-44 | Nothing between `startIndex` and the answer matches. The answer is -1 exactly when nothing from `startIndex` on matches. |
| EnumerableExt.FirstIndexIs | OJWebService/Utils/EnumerableExt.cs:36-43 | A match with no match before it is the index returned. |
| EnumerableExt.LastIndex | OJWebService/Utils/EnumerableExt.cs:57-75 | The answer is -1 or a matching position not after `startIndex`. |
| EnumerableExt.LastIndexMeaning | OJWebService/Utils/EnumerableExt.cs:57-75 | No position after the answer, up to `startIndex`, matches. |
| StringCompareExt.NumericCompare | OJWebService/Utils/StringCompareExt.cs:14-59 | The only exception is FormatException, from int.Parse on a digit run. Two strings with no digit outside `0`-`9` never throw. |
| StringCompareExt.NumericCompareReflexive | OJWebService/Utils/StringCompareExt.cs:14-59 | A string compares equal to itself, unless it holds a digit of another script. Such a digit throws FormatException, because int.Parse accepts only `0`-`9`. |
| StringCompareExt.NumericCompareAntisymmetric | OJWebService/Utils/StringCompareExt.cs:14-59 | Swapping the two strings negates the result, and throws exactly when the original order throws. |
| StringCompareExt.CommonPrefix | OJWebService/Utils/StringCompareExt.cs:16-57 | A common prefix that ends at a digit-run boundary does not change the result, when its digits are all `0`-`9`. A digit of another script in it throws FormatException. |
| StringCompareExt.PrefixCompare | OJWebService/Utils/StringCompareExt.cs:16-58 | A string and a longer string that extends it compare equal in both orders, when the longer one does not continue a digit run there. A digit of another script in the shorter one throws instead. |
| StringCompareExt.PrefixInsideRun | OJWebService/Utils/StringCompareExt.cs:19-42 | A prefix that ends inside a digit run does not compare equal: "1" against "12" gives -11. |
| StringCompareExt.FirstDifference | OJWebService/Utils/StringCompareExt.cs:48-51 | At the first difference outside digit runs, the result is the difference of the two character codes. A digit of another script before it throws instead. |
| StringCompareExt.RunsByValue | OJWebService/Utils/StringCompareExt.cs:19-42 | Two digit runs with different values compare by their decimal values when both are all `0`-`9`; otherwise int.Parse throws FormatException. |
| StringCompareExt.RunsByLeadingZeros | OJWebService/Utils/StringCompareExt.cs:43-46 | Two digit runs with equal values but different lengths compare ordinally as text when both are all `0`-`9`; otherwise int.Parse throws FormatException. |
| StringCompareExt.NaturalOrderExample | OJWebService/Utils/StringCompareExt.cs:14-59 | Numbers inside text sort by value: "a2" comes before "a10". |
| StringCompareExt.LeadingZerosExample | OJWebService/Utils/StringCompareExt.cs:43-46 | "01" sorts before "1". |
| StringCompareExt.OtherScriptDigitThrows | OJWebService/Utils/StringCompareExt.cs:19-38 | char.IsDigit accepts U+0663 but int.Parse does not, so comparing "\u0663" with itself throws FormatException. |
| TextReaderExt.ReadNonEmptyLine | OJWebService/Utils/TextReaderExt.cs:37-52 | A line it returns is non-empty. It always consumes input, unless the text has already ended. |
| TextReaderExt.ReadNonEmptyLineMeaning | OJWebService/Utils/TextReaderExt.cs:37-52 | Returns the trimmed first line that is not blank, and leaves the reader just after it. Returns null exactly when every remaining line is blank. |
| TextReaderExt.ReadNonCommentLine | OJWebService/Utils/TextReaderExt.cs:17-31 | It never reads back: the text left is at most the text given. |
| TextReaderExt.ReadNonCommentLineMeaning | OJWebService/Utils/TextReaderExt.cs:17-31 | Returns the trimmed first line that is neither blank nor a '#' comment, and leaves the reader just after it. Returns null exactly when there is no such line. |
| TextReaderExt.ReadBracketedLine | OJWebService/Utils/TextReaderExt.cs:60-88 | Reads exactly one line. At the end of the text it answers null. Otherwise its verdict is the one Bracketed gives for that line. |
| TextReaderExt.Bracketed | OJWebService/Utils/TextReaderExt.cs:69-86 | An accepted line ends with ']'. Its text is at least two characters long and starts and ends with a non-white character. |
| TextReaderExt.BracketedAccepts | OJWebService/Utils/TextReaderExt.cs:69-86 | A line of the form white space, '[', white space, X, white space, ']' is accepted with the text X, when X starts and ends non-white and has at least two characters. |
| TextReaderExt.BracketedPlain | OJWebService/Utils/TextReaderExt.cs:69-86 | A bare "[X]" line is accepted with the text X. |
| TextReaderExt.BracketedAfter | OJWebService/Utils/TextReaderExt.cs:69-86 | "p[X]" is accepted with the text X when p holds no '[' and starts with white space, whatever else p holds. |
| TextReaderExt.BracketedRejectsSingleChar | OJWebService/Utils/TextReaderExt.cs:79-84 | A content of one character is rejected. |
| TextReaderExt.BracketedRejectsTrailingSpace | OJWebService/Utils/TextReaderExt.cs:74-78 | "[ab] " is rejected: white space after ']' is not allowed. |
| TextReaderExt.BracketedThrowsWithoutBracket | OJWebService/Utils/TextReaderExt.cs:74-75 | "ab", with neither bracket, throws ArgumentOutOfRange: the first test passes, and the test after the missing ']' reads before the start of the line. |
| TextReaderExt.BracketedWithoutOpen | OJWebService/Utils/TextReaderExt.cs:69-86 | A line with no '[' passes the first test: "X]" is accepted with the text X when X starts and ends non-white and has at least two characters. |
| TextReaderExt.BracketedRejectsBeforeClose | OJWebService/Utils/TextReaderExt.cs:69-73 | A line whose first character is neither white space nor '[' is rejected as soon as it holds a '[', whether or not it has a ']'. |
| TextReaderExt.BracketedMissingBrackets | OJWebService/Utils/TextReaderExt.cs:69-78 | "ab]" is accepted as "ab", and "x[" is rejected without an exception. |
| TextReaderExt.BracketedTestsFirstCharOnly | OJWebService/Utils/TextReaderExt.cs:69-73 | " c[X]" is accepted whatever the character c. |
| TextReaderExt.ReadIntArray | OJWebService/Utils/TextReaderExt.cs:94-133 | The reader only moves forward: the text left is a suffix of the input. When a line break follows, at least that line is consumed. |
| TextReaderExt.ReadIntArrayMeaning | OJWebService/Utils/TextReaderExt.cs:94-133 | Returns the numbers of the next line, in order, and consumes the line together with the line breaks after it. A digit is anything char.IsDigit accepts, and it adds its distance from `'0'`. |
| TextReaderExt.ReadIntArrayCrlf | OJWebService/Utils/TextReaderExt.cs:94-133 | A line of numbers ended by "\r\n" reads back as its numbers, and the reader stops at the next line. |
| TextReaderExt.ReadIntArrayIgnoresOtherChars | OJWebService/Utils/TextReaderExt.cs:121-131 | A character other than a digit, a separator or a line break does not end a number: "1x2" reads as 12. |
| TextReaderExt.ReadIntArrayOtherScriptDigit | OJWebService/Utils/TextReaderExt.cs:121-129 | U+0663 is a digit to char.IsDigit and adds `ich - '0'`, so a line holding it reads as [1587]. |
| Trace.Enumerate | OJWebService/TestSuits/Trace.cs:36-81 | Enumeration keeps the verdict and drops the reader. A trace without a reader yields nothing. |
| Trace.EnumerateMeaning | OJWebService/TestSuits/Trace.cs:43-80 | A trace yields the numbers of its line, separated by ',' or ' ', in order. A digit is anything char.IsDigit accepts. It leaves the reader after the line and the line breaks that follow it. |
| Trace.EnumerateIsReadIntArray | OJWebService/TestSuits/Trace.cs:43-80 | The trace parser reads a line exactly as ReadIntArray does. |
| Trace.EnumerateOnce | OJWebService/TestSuits/Trace.cs:36-59 | A trace can be enumerated only once: a second enumeration yields nothing. |
| Trace.EnumerateOtherScriptDigit | OJWebService/TestSuits/Trace.cs:69-77 | A node id written with U+0663 reads as 1587, its distance from `'0'`. |
| TraceSet.SectionKey | OJWebService/TestSuits/TraceSet.cs:99-101 | Fails with ArgumentOutOfRange exactly when the line has no ':'. |
| TraceSet.ParseSection | OJWebService/TestSuits/TraceSet.cs:97-116 | A section line fails only with ArgumentOutOfRange, when it has no ':', or with FormatException, from a count that is not a number. It never moves the file reader. |
| TraceSet.ParseSectionMeaning | OJWebService/TestSuits/TraceSet.cs:97-116 | A section fails exactly when it has no ':' or a count key has a value that is not a number. Otherwise it sets the field its key names and changes nothing else. |
| TraceSet.SectionSplit | OJWebService/TestSuits/TraceSet.cs:99-101 | The key and value of a "key : value" section come back apart. |
| TraceSet.Open | OJWebService/TestSuits/TraceSet.cs:66-91 | Opening fails only with ArgumentOutOfRange, FormatException or the bad-file exception; an empty file is a bad file. An opened trace set has a reader left for the test cases. |
| TraceSet.OpenHeader | OJWebService/TestSuits/TraceSet.cs:66-91 | Opening a file recovers the three counts and the instrument level of its header, and positions the reader after the header. |
| TraceSet.Enumerate | OJWebService/TestSuits/TraceSet.cs:140-159 | On success it yields Count test cases and closes the reader. A trace set without a reader yields nothing. An exception leaves a reader behind. |
| TraceSet.EnumerateOnce | OJWebService/TestSuits/TraceSet.cs:140-159 | A finished enumeration cannot be repeated: the second one yields nothing. |
| TraceSet.ReadRun | OJWebService/TestSuits/TraceSet.cs:146-155 | One pass of the loop never reads back. It fails only with ArgumentOutOfRange from ReadBracketedLine, or with the bad-file exception when no bracketed line is left, as at the end of the text. |
| TraceSet.ReadRunOf | OJWebService/TestSuits/TraceSet.cs:149-155 | One pass of the loop reads a TestCase section and the trace line after it into the verdict and the node ids. |
| TraceSet.ReadRunsText | OJWebService/TestSuits/TraceSet.cs:146-156 | The test cases read back as they were written, and the whole text is consumed. |
| TraceSet.TraceLineValues | OJWebService/TestSuits/TestSuit.cs:233-256 | A trace line as the writer writes it reads back as the node ids it was written from. |
| TraceSet.WriteThenEnumerate | OJWebService/TestSuits/TestSuit.cs:225-258 | A trace file written for some test cases opens, and enumerating it gives back the same test cases. |
| NodeInfoCollection.Add | OJWebService/TestSuits/NodeInfoCollection.cs:86-91 | The new info gets the id equal to the count before the call, and Get finds it under that id. Every older id keeps its info. |
| NodeInfoCollection.Get | OJWebService/TestSuits/NodeInfoCollection.cs:54-57 | Fails with ArgumentOutOfRange exactly for an id outside the table. |
| NodeInfoCollection.AddAllIds | OJWebService/TestSuits/NodeInfoCollection.cs:86-91 | Adding infos one by one gives them the ids 0, 1, 2, ... in order. |
| NodeInfoCollection.GetIds | OJWebService/TestSuits/NodeInfoCollection.cs:97-109 | Returns, in strictly ascending order, exactly the ids whose line is the given one. |
| NodeInfoCollection.ExecutableStatementCount | OJWebService/TestSuits/NodeInfoCollection.cs:70-80 | The table of infos is unchanged, the count is cached afterwards, and a count cached before is returned as it is. |
| NodeInfoCollection.ExecutableStatementCountFresh | OJWebService/TestSuits/NodeInfoCollection.cs:74-77 | Computed without a cache, the count is the number of distinct source lines. |
| NodeInfoCollection.ExecutableStatementCountStale | OJWebService/TestSuits/NodeInfoCollection.cs:70-91 | A count taken before an Add is returned again after it. |
| NodeInfoCollection.ExecutableStatementCountStaleExample | OJWebService/TestSuits/NodeInfoCollection.cs:70-91 | An empty table counted once still reports 0 lines after a node is added, although it then has one line. |
| NodeInfoCollection.ParseLine | OJWebService/TestSuits/NodeInfoCollection.cs:44-45 | A line fails only with IndexOutOfRange, for a missing field, or with FormatException, for a bad flag or number. A parsed info belongs to the function named by the first word. |
| NodeInfoCollection.ParseLineRejects | OJWebService/TestSuits/NodeInfoCollection.cs:44-45 | An empty line or a line of one word cannot be loaded: it throws IndexOutOfRange. |
| NodeInfoCollection.SaveLineSplit | OJWebService/TestSuits/NodeInfoCollection.cs:122 | A saved line splits back into its three fields. |
| NodeInfoCollection.ParseSaveLine | OJWebService/TestSuits/NodeInfoCollection.cs:44-45 | A saved line loads back as the info it was saved from. |
| NodeInfoCollection.Load | OJWebService/TestSuits/NodeInfoCollection.cs:32-48 | Loading fails only with IndexOutOfRange or FormatException, the exceptions of the line parser. An empty file loads as the empty table. A loaded table has no cached statement count, so the first ExecutableStatementCount counts its lines. |
| NodeInfoCollection.LoadChain | OJWebService/TestSuits/NodeInfoCollection.cs:37-46 | Lines that each parse, one after another, load as the table of those infos in order. |
| NodeInfoCollection.LoadSave | OJWebService/TestSuits/NodeInfoCollection.cs:32-48 | Saving a table and loading the file gives back the same infos, when no function name holds white space. |
| ShellConverter.ConvertString | OJWebService/Utils/ShellConverter.cs:88-137 | The only exception is IndexOutOfRange, and only when the text ends in a backslash. |
| ShellConverter.ConvertPlain | OJWebService/Utils/ShellConverter.cs:88-137 | A text without single quotes and backslashes is unchanged. |
| ShellConverter.ConvertQuoted | OJWebService/Utils/ShellConverter.cs:94-119 | Inside a quoted region, '"' and '%' are doubled up to the closing quote. |
| ShellConverter.QuotedString | OJWebService/Utils/ShellConverter.cs:94-134 | A single-quoted shell string becomes a double-quoted batch string with its content escaped. |
| ShellConverter.ConvertRemovesQuotes | OJWebService/Utils/ShellConverter.cs:127-130 | Without backslashes, the output holds no single quote. |
| ShellConverter.EscapedQuoteKept | OJWebService/Utils/ShellConverter.cs:116-126 | An escaped quote outside a string is copied, so the output keeps a single quote. |
| ShellConverter.TrailingBackslash | OJWebService/Utils/ShellConverter.cs:121-125 | A backslash at the very end, outside quotes, reads past the string and throws. |
| ShellConverter.ProcessPath | OJWebService/Utils/ShellConverter.cs:46-82 | The output is never shorter than the input: the rewrite only adds characters. |
| ShellConverter.ProcessPathQuotePairs | OJWebService/Utils/ShellConverter.cs:55-69 | Double quotes are added in pairs: the output is longer than the input by an even number of characters. |
| ShellConverter.ProcessPathLoop | OJWebService/Utils/ShellConverter.cs:46-82 | The loop with its StringBuilder computes what ProcessPath defines: every "../" path that starts a word is put in double quotes. |
| ShellConverter.ShortIdentity | OJWebService/Utils/ShellConverter.cs:46-82 | A text of fewer than three characters is unchanged. |
| ShellConverter.ProcessPathIdentity | OJWebService/Utils/ShellConverter.cs:46-82 | A text with no "../" at the start of a word is unchanged. |
| ShellConverter.ProcessPathOnlyQuotes | OJWebService/Utils/ShellConverter.cs:55-69 | ProcessPath only inserts '"': removing every '"' from the output gives the input with its '"' removed. |
| ShellConverter.ProcessPathRecovers | OJWebService/Utils/ShellConverter.cs:46-82 | A text without '"' of its own is recovered from the output by removing the quotes. |
| ShellConverter.QuotesPath | OJWebService/Utils/ShellConverter.cs:55-69 | A leading "../" path is put in quotes up to the white space that ends it. |
| ShellConverter.ConvertLine | OJWebService/Utils/ShellConverter.cs:25-37 | Line 0 becomes "@echo off". An echo line that is not a copy command is kept as it is. |
| ShellConverter.ConvertLinesEach | OJWebService/Utils/ShellConverter.cs:26-38 | Line k of the converted script is line k of the input under the rule for its position. |
| ShellConverter.ConvertLinesFails | OJWebService/Utils/ShellConverter.cs:26-38 | One failing line fails the whole script. |
| ShellConverter.Convert | OJWebService/Utils/ShellConverter.cs:21-40 | An empty script throws IndexOutOfRange, because it has no line 0. |
| Edge.NewEdge | OJWebService/Graphs/Edge.cs:15-21 | A new edge has the given endpoints and no executions. |
| Edge.Equals | OJWebService/Graphs/Edge.cs:78-89 | An edge equal to another is never null and has the same endpoints. Every edge equals itself. |
| Edge.EqualsIsKeyEquality | OJWebService/Graphs/Edge.cs:78-89 | Two edges are equal exactly when their endpoints are, whatever their counters. Equality is symmetric. |
| Edge.EqualsTransitive | OJWebService/Graphs/Edge.cs:78-89 | Equality of edges is transitive. |
| Edge.EqualsObjectMeaning | OJWebService/Graphs/Edge.cs:100-104 | Equals(object) is false for null and for other classes. On edges it agrees with Equals(Edge). |
| Edge.Hash | OJWebService/Graphs/Edge.cs:66-69 | The hash code is a 32-bit signed value. For a source below 32768 and a target below 65536 it is source * 65536 + target: the source fills the high half and the target the low half. |
| Edge.HashRespectsEquals | OJWebService/Graphs/Edge.cs:109-112 | Equal edges have equal hash codes. |
| Edge.HashInjectiveBelow65536 | OJWebService/Graphs/Edge.cs:66-69 | For node ids below 65536, edges with the same hash code are equal. |
| Edge.HashCollision | OJWebService/Graphs/Edge.cs:66-69 | Above that they collide: 1 → 0 and 0 → 65536 share a hash code. |
| Edge.OpEqMeaning | OJWebService/Graphs/Edge.cs:124-142 | `==` holds exactly when both sides are null, or both are edges with the same endpoints. It is symmetric, and `!=` is its negation. |
| Vector.NewVector | OJWebService/Graphs/Vector.cs:20-24 | A new vertex has its id, no executions and no out-edges. |
| Vector.GetEdge | OJWebService/Graphs/Vector.cs:47-52 | Null exactly when no out-edge leads to the target. Otherwise it is an out-edge to the target. |
| Vector.GetOrAddEdge | OJWebService/Graphs/Vector.cs:58-67 | The vertex keeps its id and count, and GetEdge finds the returned edge to the target. A present edge is returned with nothing changed. Otherwise a new edge with no executions is appended. |
| Vector.GetOrAddEdgeMeaning | OJWebService/Graphs/Vector.cs:58-67 | The edge returned goes from the vertex to the target. GetEdge finds it afterwards, and the vertex stays valid. |
| Vector.GetOrAddEdgeIdempotent | OJWebService/Graphs/Vector.cs:61-66 | A second call with the same target returns the same edge and adds nothing. |
| Vector.GetOrAddEdgeOthers | OJWebService/Graphs/Vector.cs:61-65 | The edges to other targets, present or absent, are unaffected. |
| Vector.NewVectorHasNoEdge | OJWebService/Graphs/Vector.cs:47-52 | A new vertex has no edge to any target. |
| Vector.SetEdgeMeaning | OJWebService/Graphs/Graph.cs:144-146 | Updating the counters of an out-edge in place changes what GetEdge finds at that target only. Targets and their order stay the same. |
| Graph.GetVector | OJWebService/Graphs/Graph.cs:104-109 | Finds a vertex exactly when its id is in the graph. |
| Graph.GetEdge | OJWebService/Graphs/Graph.cs:116-124 | A found edge starts at a vertex of the graph and leads to the target. |
| Graph.AddEdge | OJWebService/Graphs/Graph.cs:130-148 | Adding an edge keeps the graph's verdict. The vertices afterwards are the old ones plus both endpoints. |
| Graph.AddEdgeValid | OJWebService/Graphs/Graph.cs:130-148 | AddEdge keeps the graph invariant and adds exactly the edge (from, to) to the edge set. |
| Graph.AddEdgeCounts | OJWebService/Graphs/Graph.cs:130-148 | The edge (from, to) is counted once more and no other edge is. The to-vertex is counted, and the from-vertex only when it is new. |
| Graph.AddEdgeShape | OJWebService/Graphs/Graph.cs:130-148 | Both endpoints become vertices. The edge list gains (from, to) only when it lacked it. |
| Graph.AddTraceEdgeCounts | OJWebService/Graphs/Graph.cs:44-52 | Each edge is counted once per transition of the run that takes it. |
| Graph.TraceGraphEdges | OJWebService/Graphs/Graph.cs:40-52 | The edges of a run's graph are exactly its transitions, each counted as often as the run makes it. |
| Graph.TraceGraphVertices | OJWebService/Graphs/Graph.cs:40-52 | A run of fewer than two nodes leaves the graph without vertices. Otherwise the vertices are the run's nodes, each counted once per visit. |
| Graph.AnyOtherFunctionMeaning | OJWebService/Graphs/Graph.cs:56-57 | With every target known, the answer is whether some out-edge leads into another function. It fails only on an unknown target. |
| Graph.VectorFrequenciesMeaning | OJWebService/Graphs/Graph.cs:54-75 | On a vertex with known targets, every out-edge gets 1 when one of them leads into another function. Otherwise each gets its share of the outgoing executions, and the shares add up to 1. Nothing but the frequencies changes. |
| Graph.Frequencies | OJWebService/Graphs/Graph.cs:54-75 | The frequency loop fails only with ArgumentOutOfRange. On success it keeps the vertex ids, the edge set and the verdict. |
| Graph.FrequenciesErr | OJWebService/Graphs/Graph.cs:54-57 | The frequency loop fails exactly when some vertex is missing from the node table. |
| Graph.FrequenciesCounts | OJWebService/Graphs/Graph.cs:54-75 | The frequency loop keeps every edge count and vertex count. |
| Graph.FrequenciesAt | OJWebService/Graphs/Graph.cs:54-75 | After the loop, every vertex's out-edges carry 1 each when one leads into another function, and otherwise shares of the outgoing executions adding up to 1. |
| Graph.FromRun | OJWebService/Graphs/Graph.cs:40-76 | The trace constructor fails only with ArgumentOutOfRange and keeps the run's verdict. A run of fewer than two nodes always gives a graph with no vertices. |
| Graph.FromRunErr | OJWebService/Graphs/Graph.cs:40-76 | The trace constructor fails exactly when the run has two or more nodes and names a node the table lacks. |
| Graph.FromRunMeaning | OJWebService/Graphs/Graph.cs:40-76 | The graph of a run is valid and keeps the run's verdict. Its edges are the run's transitions with their multiplicities. For two or more nodes, its vertices are the run's nodes with their multiplicities. |
| Graph.Merge | OJWebService/Graphs/Graph.cs:28-34 | Fails with NullReference exactly when one of the graphs is null. |
| Graph.MergeMeaning | OJWebService/Graphs/Graph.cs:28-34 | The merged graph is valid. Its edges are those of the inputs, each counted once per input graph that has it. |
| Graph.MergeAllCounts | OJWebService/Graphs/Graph.cs:30-33 | Merging counts each edge once per graph that has it. |
| ExecutePath.Seed | OJWebService/Graphs/ExecutePath.cs:25-30 | A seed path has the two endpoints of its edge as nodes and that edge as its only edge. |
| ExecutePath.ContainsNode | OJWebService/Graphs/ExecutePath.cs:52-55 | True exactly when the id is one of the path's nodes. |
| ExecutePath.Extend | OJWebService/Graphs/ExecutePath.cs:61-73 | The new path has the old nodes followed by the new node. |
| ExecutePath.ExtendValid | OJWebService/Graphs/ExecutePath.cs:61-73 | The edges stay the consecutive node pairs; the one new edge runs from the old last node. |
| ExecutePath.ExtendSimple | OJWebService/Graphs/ExecutePath.cs:61-73 | Extending by a node not on the path adds a new edge, keeping one edge per step. |
| ExecutePath.ExtendMayRepeat | OJWebService/Graphs/ExecutePath.cs:65-69 | Extending by a node already on the path can retrace an edge: 1, 2, 1, 2 has four nodes but two edges. |
| ExecutePath.StepsAppend | OJWebService/Graphs/ExecutePath.cs:65-71 | Appending a node adds exactly the step from the old last node. |
| PathChecker.Step | OJWebService/Graphs/PathChecker.cs:42-58 | One step fails exactly on a node missing from the table. When the path is still accepted, the state's function is that of the node. |
| PathChecker.WalkKnown | OJWebService/Graphs/PathChecker.cs:40-59 | A walk fails only on a node missing from the table. Over known nodes it never fails. |
| PathChecker.Check | OJWebService/Graphs/PathChecker.cs:35-61 | Check throws only ArgumentOutOfRange, and only for an empty path or a node missing from the table. A non-empty path of known nodes always gets a verdict. |
| PathChecker.CheckErr | OJWebService/Graphs/PathChecker.cs:35-61 | Check throws only ArgumentOutOfRange, and only for an empty path or an unknown node. A non-empty path of known nodes always gets a verdict. |
| PathChecker.CheckShort | OJWebService/Graphs/PathChecker.cs:37-60 | Every path of one or two known nodes is accepted. |
| PathChecker.CheckPrefix | OJWebService/Graphs/PathChecker.cs:40-60 | A rejected or failing path keeps its verdict when extended, so every prefix of an accepted path is accepted. |
| PathChecker.CheckSameFunction | OJWebService/Graphs/PathChecker.cs:44-47 | A step to a node of the same function as the node before it never changes the verdict. |
| PathChecker.CallAndReturn | OJWebService/Graphs/PathChecker.cs:48-57 | A return to the caller on the stack is accepted. A return to a different function is rejected. |
| PathResult.CompareScores | OJWebService/Graphs/Result.cs:59 | Zero exactly for equal scores, negative exactly when the first is lower. |
| PathResult.CompareNodes | OJWebService/Graphs/Result.cs:71-83 | The node loop throws only ArgumentOutOfRange, which it does when the other path is shorter. Otherwise it answers -1, 0 or 1. |
| PathResult.CompareTo | OJWebService/Graphs/Result.cs:56-84 | It throws only ArgumentOutOfRange, and only between results with equal scores and equal edge counts. Otherwise a higher score ranks first, and for equal scores fewer edges rank first. |
| PathResult.CompareToMeaning | OJWebService/Graphs/Result.cs:56-84 | On results the miner builds, CompareTo never throws. It is negative exactly when the first is ranked before the second: higher score, then fewer edges, then lexicographically smaller nodes. It is zero exactly for equal score and path. |
| PathResult.CompareToReflexive | OJWebService/Graphs/Result.cs:56-84 | A result compares equal to itself. |
| PathResult.CompareToAntisymmetric | OJWebService/Graphs/Result.cs:56-84 | Swapping the operands flips the sign. |
| PathResult.CompareToTransitive | OJWebService/Graphs/Result.cs:56-84 | CompareTo is transitive on results the miner builds, as a sorted list needs. |
| PathResult.PrecedesAsymmetric | OJWebService/Graphs/Result.cs:59-83 | No result is ranked both before and after another. |
| PathResult.PrecedesTransitive | OJWebService/Graphs/Result.cs:56-84 | The ranking is transitive. |
| PathResult.PrecedesTotal | OJWebService/Graphs/Result.cs:56-84 | Two results the miner builds are ordered one way or the other, unless they have the same score and path. |
| PathResult.CompareToMayThrow | OJWebService/Graphs/Result.cs:71-82 | On paths that retrace an edge, CompareTo throws: 1, 2, 1, 2 against 1, 2, 1. |
| ResultList.InsertionIndexMeaning | OJWebService/Graphs/GraphMining.cs:112-116 | BinarySearch's answer, complemented when negative, splits the ranked list. Before it are results the new one does not precede; from it on, results that do not precede the new one. |
| ResultList.PruneMeaning | OJWebService/Graphs/GraphMining.cs:129-136 | The removal loop keeps the prefix, drops the scanned results nested with the new one, and keeps the rest. |
| ResultList.UnnestedMembers | OJWebService/Graphs/GraphMining.cs:129-136 | Everything kept comes from the list, and nothing kept is nested with the new result. |
| ResultList.AddResultShape | OJWebService/Graphs/GraphMining.cs:108-144 | The new list is the results before the insertion index, the new result, and the later results not nested with it, cut to the limit. |
| ResultList.AddResultRejects | OJWebService/Graphs/GraphMining.cs:117-127 | The result is added exactly when its insertion index is below the limit and no earlier result is nested with it. When it is rejected, the list is unchanged. |
| ResultList.AddResultPlaces | OJWebService/Graphs/GraphMining.cs:129-143 | An added result sits at its insertion index. The results before it are untouched, and every result comes from the old list or is the new one. |
| ResultList.AddResultKeeps | OJWebService/Graphs/GraphMining.cs:112-143 | The list stays ranked, well formed and free of nested edge sets. |
| ResultList.AddResultMeaning | OJWebService/Graphs/GraphMining.cs:108-144 | The properties of AddResult together: when it accepts, where the result goes, what stays, and the invariants kept. |
| ResultList.AddResult | OJWebService/Graphs/GraphMining.cs:108-144 | A rejected result leaves the list unchanged. An added result leaves a non-empty list within the limit. |
| GraphMining.Mining | OJWebService/Graphs/GraphMining.cs:50-102 | A negative limit throws ArgumentOutOfRange in the list allocation. A null failing graph throws NullReference when the space is merged. With every vertex known the search succeeds, and fails otherwise only with ArgumentOutOfRange. The results are then ranked, unnested and within the limit. Each is a passing path of at most five edges in the search space, with a positive score given by the score function. |
| GraphMining.Explore | OJWebService/Graphs/GraphMining.cs:68-100 | The search loop terminates. It succeeds when every vertex is known, and its results are what Mining returns. |
| GraphMining.Turn | OJWebService/Graphs/GraphMining.cs:76-99 | One turn keeps the queue of passing paths and the result list. The queue becomes lighter than it was with the path just taken. |
| GraphMining.Offer | OJWebService/Graphs/GraphMining.cs:81-89 | A result whose score is not positive or lies below the current limit leaves the list and the limit unchanged. |
| GraphMining.OfferKeeps | OJWebService/Graphs/GraphMining.cs:81-89 | Offering a scored queued path keeps the list ranked, unnested and within the limit. |
| GraphMining.ScoreStep | OJWebService/Graphs/GraphMining.cs:81-89 | Adding a scored queued path keeps the list what Mining returns. |
| GraphMining.Expand | OJWebService/Graphs/GraphMining.cs:90-98 | The queue keeps its old paths and gains only passing extensions of the path. It becomes lighter than it was with the path. It fails only when a vertex of the space is missing from the node table. |
| GraphMining.ExtensionsMeaning | OJWebService/Graphs/GraphMining.cs:92-95 | The query yields exactly the extensions to nodes not on the path that pass the check. |
| GraphMining.ExtensionsFail | OJWebService/Graphs/GraphMining.cs:92-95 | The query fails exactly when the check throws on some candidate extension, and then with that exception. |
| GraphMining.CandidateMeaning | OJWebService/Graphs/GraphMining.cs:92-95 | One out-edge contributes exactly its passing extension, and fails exactly when the check throws on it. |
| GraphMining.ExpandQueued | OJWebService/Graphs/GraphMining.cs:90-98 | Expanding a path of at most five edges yields at most as many paths as the space has edges, each passing and one edge longer. |
| GraphMining.ExtendQueued | OJWebService/Graphs/GraphMining.cs:92-95 | A passing extension along an edge of the space is a queued path one edge longer. |
| GraphMining.ExpandFails | OJWebService/Graphs/GraphMining.cs:92-95 | The check throws on an extension only when a vertex of the space is missing from the node table. |
| GraphMining.EnqueueStep | OJWebService/Graphs/GraphMining.cs:90-98 | After expansion the queue is still queued, and lighter than it was with the expanded path. |
| GraphMining.SeedQueued | OJWebService/Graphs/GraphMining.cs:69-73 | Every edge of the search space seeds a queued path. |
| GraphMining.OutDegreeBound | OJWebService/Graphs/GraphMining.cs:92 | No vertex has more out-edges than the graph has edges. |
| GraphMining.ExpansionLighter | OJWebService/Graphs/GraphMining.cs:74-100 | At most B paths of e + 1 edges weigh less than one path of e edges. This is the termination measure of the loop. |
| GraphMining.PopWeight | OJWebService/Graphs/GraphMining.cs:76 | Taking the front path off the queue makes it lighter by that path's weight. |
| GraphCollection.Place | OJWebService/Graphs/GraphCollection.cs:42-49 | The graph goes into the next slot of the graphs array and of its verdict's array. It throws IndexOutOfRange exactly when the verdict's array is full. |
| GraphCollection.Fill | OJWebService/Graphs/GraphCollection.cs:38-51 | On success, one graph is placed per test case, and neither verdict array overflows. |
| GraphCollection.Build | OJWebService/Graphs/GraphCollection.cs:33-52 | A negative header count throws on allocation. The arrays have the sizes the header gives. All graph slots are filled when the trace set was not yet enumerated, and all are null when it was. |
| GraphCollection.FillMeaning | OJWebService/Graphs/GraphCollection.cs:38-51 | The loop succeeds exactly when every test case is read and built and neither verdict array overflows. It then holds the graphs in order, split by verdict. Once reading and building succeed, its only failure is the overflow. |
| GraphCollection.EnumeratedMeaning | OJWebService/Graphs/GraphCollection.cs:38-51 | The same for the loop over the whole enumeration of the trace set. |
| GraphCollection.BuildMeaning | OJWebService/Graphs/GraphCollection.cs:33-52 | The constructor succeeds exactly when the counts are not negative, every test case is read and built, and there are no more successful or failing cases than the header announces. The slots then hold the graphs in file order, then null. |
| GraphCollection.VerdictsCount | OJWebService/Graphs/GraphCollection.cs:42-49 | There are as many successful graphs as successful test cases, and the rest are failing. |
| GraphCollection.WriteThenBuild | OJWebService/Graphs/GraphCollection.cs:33-52 | For a file the writer wrote whose test cases all have graphs, the collection is built and no slot stays null. Every graph, successful graph and failing graph is in file order. |

## Left out

- DoubleComparer: scores are compared exactly, as reals, without the tolerance.
- FisherScore, InformationGain and ScoreFunction are not part of this model. The score of a path is a parameter of the miner, a function from a path to its score and its maximum possible score. The `Init` call that prepares these functions is left out with them.
- `Data`, `Text` and `ToString` of paths, results and graphs are display helpers and are not modelled.
- File and stream I/O: a file is its text, and a reader is the text still unread. Opening, closing and disposing are not modelled.
- 32-bit integer overflow:
  - `int.Parse` of digit runs longer than an int holds;
  - `value * 10` in the trace and integer-array parsers;
  - the subtraction in NumericCompare.

  The model computes with unbounded integers.
- Strings are sequences of Unicode scalar values, not UTF-16 code units. The two agree below U+10000. Above it, ordinal differences and indices differ from the source's, which count surrogate code units. This affects the positions in StringExt.IsWhiteSpace, ReadBracketedLine and ShellConverter.
- NumericCompare: strings are sequences of Unicode scalar values, not UTF-16 code units, so the result can differ above U+FFFF:
  - `cx - cy` and `string.CompareOrdinal` subtract surrogate code units in the source. For example, "\U{10000}" against "\uFFFF" is 1 in the model and -10239 in the source.
  - `char.IsDigit(string, int)` reads a surrogate pair as one code point. Digits above U+FFFF are not modelled.
- FirstDifference: the difference it states is that of Unicode scalar values. Above U+FFFF the source subtracts UTF-16 code units instead, as under NumericCompare.
- Graph.Frequencies: frequencies are exact rational numbers. The source divides doubles, `(double)e.ExecuteCount / maxCount` at Graph.cs:71, so its shares add up to 1 only up to rounding. Graph.VectorFrequenciesMeaning and Graph.FrequenciesAt state the exact sums.
- Chars.IsDigit: the digits are general category Nd of the Basic Multilingual Plane as of Unicode 8.0. Other .NET versions' character tables may add or drop digits.
- Edge.GetHashCode is modelled with explicit 32-bit wrap-around. Its use inside .NET hash sets is not modelled: sets of edges are compared by endpoints.
- List<T>.BinarySearch wraps a throwing comparer in InvalidOperationException. This is not modelled because the comparer never throws on the results the miner builds (`PathResult.CompareToMeaning`).
- Mining's branch for a vertex missing from the search space is not modelled separately, because it cannot happen: the last node of a queued path is always a vertex (`GraphMining.Expand` ensures `Last(p) in space.vectors`).
- ExecutePath.Extend: the model requires a non-empty path. Every path is built from a seed, so it has at least two nodes.
- Graph.Merge: the vertex counts of the merged graph are not stated; only its edges and edge counts are.
- Dictionary and HashSet enumeration order is taken to be insertion order, which is what .NET does when nothing is removed. This fixes the order of seeds and expansions.
- GraphCollection.Build does not return the trace set's reader after a failed construction; it returns only the error.
- The SuccessFrequency and FailFrequency properties of Edge are not modelled, because only FisherScore sets and reads them.
- Folder preparation, the instrumenters, the web service entry points, Graphviz output and the user interface are outside the fault-localisation core.
