/** The table of instrumented statements (OJWebService/TestSuits/NodeInfo.cs,
    OJWebService/TestSuits/NodeInfoCollection.cs): node id i is the i-th
    NodeInfo added. The table is saved one "function isFirst line" line per
    node and loaded back by splitting each line at white space. */
module NodeInfoCollection {
  import opened Wrappers
  import opened Chars
  import opened TextReaderExt

  /** One instrumented statement: its function, whether it is the function's
      first node, and its source line. */
  datatype NodeInfo = NodeInfo(ownedFunction: string, isFirstNode: bool, line: int)

  /** The infos in id order and the ExecutableStatementCount cache (None for
      the source's -1, "not computed yet"). */
  datatype NodeInfoCollection = NodeInfoCollection(infos: seq<NodeInfo>, cache: Option<nat>)

  function Empty(): (c: NodeInfoCollection)
    ensures Count(c) == 0 && c.cache.None?
  {
    NodeInfoCollection([], None)
  }

  function Count(c: NodeInfoCollection): nat {
    |c.infos|
  }

  /** Add: appends the info; its id is the count before the call. */
  function Add(c: NodeInfoCollection, info: NodeInfo): (r: (NodeInfoCollection, nat))
    ensures Count(r.0) == Count(c) + 1
    ensures r.1 == Count(c)
    ensures Get(r.0, r.1) == Ok(info)
    ensures forall id :: 0 <= id < Count(c) ==> Get(r.0, id) == Get(c, id)
    ensures r.0.cache == c.cache
  {
    (NodeInfoCollection(c.infos + [info], c.cache), |c.infos|)
  }

  /** The indexer: List<T>'s indexer throws for an id outside the table. */
  function Get(c: NodeInfoCollection, id: int): (r: Outcome<NodeInfo>)
    ensures r.Err? <==> !(0 <= id < Count(c))
    ensures r.Err? ==> r.error == ArgumentOutOfRange
  {
    if 0 <= id < |c.infos| then Ok(c.infos[id]) else Err(ArgumentOutOfRange)
  }

  /** Adding infos one by one gives them the ids 0, 1, 2, ... in order. */
  lemma {:induction false} AddAllIds(infos: seq<NodeInfo>)
    ensures Count(AddAll(Empty(), infos)) == |infos|
    ensures forall id :: 0 <= id < |infos| ==> Get(AddAll(Empty(), infos), id) == Ok(infos[id])
    decreases |infos|
  {
    if |infos| > 0 {
      var init := infos[..|infos| - 1];
      AddAllIds(init);
      assert AddAll(Empty(), infos) == Add(AddAll(Empty(), init), infos[|infos| - 1]).0;
    }
  }

  function AddAll(c: NodeInfoCollection, infos: seq<NodeInfo>): (r: NodeInfoCollection)
    ensures r.cache == c.cache
  {
    if |infos| == 0 then c else Add(AddAll(c, infos[..|infos| - 1]), infos[|infos| - 1]).0
  }

  // ---------------------------------------------------------------------
  // GetIds

  /** GetIds: the ids whose line is `line`, in ascending order. */
  method GetIds(c: NodeInfoCollection, line: int) returns (ids: seq<nat>)
    ensures forall k :: 0 <= k < |ids| - 1 ==> ids[k] < ids[k + 1]
    ensures forall id: nat :: id in ids <==> id < Count(c) && c.infos[id].line == line
  {
    ids := [];
    var i := 0;
    while i < |c.infos|
      invariant 0 <= i <= |c.infos|
      invariant forall k :: 0 <= k < |ids| ==> ids[k] < i
      invariant forall k :: 0 <= k < |ids| - 1 ==> ids[k] < ids[k + 1]
      invariant forall id: nat :: id in ids <==> id < i && c.infos[id].line == line
    {
      if c.infos[i].line == line {
        ids := ids + [i];
      }
      i := i + 1;
    }
  }

  // ---------------------------------------------------------------------
  // ExecutableStatementCount

  /** Enumerable.Distinct: the first occurrence of each value, in order. */
  function Distinct(xs: seq<int>): (r: seq<int>)
    ensures forall x :: x in r <==> x in xs
    ensures forall i, j :: 0 <= i < j < |r| ==> r[i] != r[j]
  {
    if |xs| == 0 then []
    else
      var d := Distinct(xs[..|xs| - 1]);
      if xs[|xs| - 1] in d then d else d + [xs[|xs| - 1]]
  }

  function Lines(infos: seq<NodeInfo>): (r: seq<int>)
    ensures |r| == |infos| && forall i :: 0 <= i < |infos| ==> r[i] == infos[i].line
  {
    if |infos| == 0 then [] else Lines(infos[..|infos| - 1]) + [infos[|infos| - 1].line]
  }

  /** The set of source lines that have at least one node. */
  function LineSet(infos: seq<NodeInfo>): set<int> {
    set i | 0 <= i < |infos| :: infos[i].line
  }

  /** ExecutableStatementCount: computed on first access and cached; the
      cache is never invalidated. */
  function ExecutableStatementCount(c: NodeInfoCollection): (r: (NodeInfoCollection, nat))
    ensures r.0.infos == c.infos && r.0.cache == Some(r.1)
    ensures c.cache.Some? ==> r.1 == c.cache.value
  {
    match c.cache
    case Some(n) => (c, n)
    case None =>
      var n := |Distinct(Lines(c.infos))|;
      (c.(cache := Some(n)), n)
  }

  /** A sequence without repeated values has as many elements as its set. */
  lemma {:induction false} NoDuplicatesCard(r: seq<int>)
    requires forall i, j :: 0 <= i < j < |r| ==> r[i] != r[j]
    ensures |set x | x in r| == |r|
    decreases |r|
  {
    if |r| > 0 {
      var init := r[..|r| - 1];
      NoDuplicatesCard(init);
      assert (set x | x in r) == (set x | x in init) + {r[|r| - 1]};
      assert r[|r| - 1] !in init;
    }
  }

  /** Computed afresh, the count is the number of distinct source lines. */
  lemma ExecutableStatementCountFresh(c: NodeInfoCollection)
    requires c.cache.None?
    ensures ExecutableStatementCount(c).1 == |LineSet(c.infos)|
  {
    var d := Distinct(Lines(c.infos));
    NoDuplicatesCard(d);
    assert (set x | x in d) == LineSet(c.infos) by {
      forall x | x in LineSet(c.infos) ensures x in d {
        var i :| 0 <= i < |c.infos| && c.infos[i].line == x;
        assert Lines(c.infos)[i] == x;
      }
    }
  }

  /** The cache goes stale: a count taken before an Add is returned after it. */
  lemma ExecutableStatementCountStale(c: NodeInfoCollection, info: NodeInfo)
    ensures var (c1, n) := ExecutableStatementCount(c);
      ExecutableStatementCount(Add(c1, info).0).1 == n
  {
  }

  /** For instance: an empty table counted once still reports 0 lines after a node is added. */
  lemma ExecutableStatementCountStaleExample(info: NodeInfo)
    ensures var c := Add(ExecutableStatementCount(Empty()).0, info).0;
      && ExecutableStatementCount(c).1 == 0
      && |LineSet(c.infos)| == 1
  {
    var c := Add(ExecutableStatementCount(Empty()).0, info).0;
    assert LineSet(c.infos) == {info.line};
  }

  // ---------------------------------------------------------------------
  // Save and load

  /** One saved line: WriteLine("{0} {1} {2}", function, isFirst, line). */
  function SaveLine(info: NodeInfo): string {
    info.ownedFunction + " " + (BoolToString(info.isFirstNode) + " " + IntToString(info.line))
  }

  function SaveText(infos: seq<NodeInfo>): string {
    if |infos| == 0 then "" else Crlf(SaveLine(infos[0]), SaveText(infos[1..]))
  }

  /** One loaded line: string.Split() at white space (empty pieces kept), then
      the NodeInfo constructor's arguments evaluated left to right. */
  function ParseLine(line: string): (r: Outcome<NodeInfo>)
    ensures r.Err? ==> r.error in {IndexOutOfRange, Format}
    ensures r.Ok? ==> r.value.ownedFunction == Split(line, IsWhiteSpace)[0]
  {
    var strs := Split(line, IsWhiteSpace);
    if |strs| < 2 then Err(IndexOutOfRange)
    else
      var isFirst :- ParseBool(strs[1]);
      if |strs| < 3 then Err(IndexOutOfRange)
      else
        var n :- ParseInt(strs[2]);
        Ok(NodeInfo(strs[0], isFirst, n))
  }

  /** The loading constructor's loop, one info per line until the end of
      the text, with the line parser as a parameter. */
  function LoadWith(parse: string -> Outcome<NodeInfo>, text: string): (r: Outcome<NodeInfoCollection>)
    ensures r.Ok? ==> r.value.cache.None?
    ensures r.Err? ==> exists l :: parse(l).Err? && parse(l).error == r.error
    ensures |text| == 0 ==> r == Ok(Empty())
    decreases |text|
  {
    var (line, rest) := ReadLine(text);
    if line.None? then Ok(Empty())
    else
      var info :- parse(line.value);
      var more :- LoadWith(parse, rest);
      Ok(NodeInfoCollection([info] + more.infos, None))
  }

  /** The loading constructor. */
  function Load(text: string): (r: Outcome<NodeInfoCollection>)
    ensures r.Ok? ==> r.value.cache.None?
    ensures r.Err? ==> r.error in {IndexOutOfRange, Format}
    ensures |text| == 0 ==> r == Ok(Empty())
  {
    LoadWith(ParseLine, text)
  }

  /** The empty line and a line of one word cannot be loaded. */
  lemma ParseLineRejects(word: string)
    requires NoWhiteSpace(word)
    ensures ParseLine(word) == Err(IndexOutOfRange)
  {
    SplitLast(word, IsWhiteSpace);
  }

  lemma IntToStringNoWhiteSpace(i: int)
    ensures NoWhiteSpace(IntToString(i))
  {
    var d := NatToString(if i < 0 then -i else i);
    assert forall k :: 0 <= k < |d| ==> IsDigit(d[k]);
  }

  lemma SplitSpace(a: string, rest: string)
    requires NoWhiteSpace(a)
    ensures Split(a + " " + rest, IsWhiteSpace) == [a] + Split(rest, IsWhiteSpace)
  {
    assert FreeOf(a, IsWhiteSpace);
    assert a + " " + rest == a + [' '] + rest;
    SplitPiece(a, ' ', rest, IsWhiteSpace);
  }

  /** A saved line splits back into its three fields. */
  lemma SaveLineSplit(info: NodeInfo)
    requires NoWhiteSpace(info.ownedFunction)
    ensures Split(SaveLine(info), IsWhiteSpace)
         == [info.ownedFunction, BoolToString(info.isFirstNode), IntToString(info.line)]
  {
    var f := info.ownedFunction;
    var b := BoolToString(info.isFirstNode);
    var n := IntToString(info.line);
    IntToStringNoWhiteSpace(info.line);
    assert NoWhiteSpace(b);
    SplitSpace(f, b + " " + n);
    SplitSpace(b, n);
    assert FreeOf(n, IsWhiteSpace);
    SplitLast(n, IsWhiteSpace);
    assert [f] + ([b] + [n]) == [f, b, n];
  }

  /** A saved line loads back as the info it was saved from. */
  lemma ParseSaveLine(info: NodeInfo)
    requires NoWhiteSpace(info.ownedFunction)
    ensures ParseLine(SaveLine(info)) == Ok(info)
  {
    SaveLineSplit(info);
    ParseBoolOfToString(info.isFirstNode);
    ParseIntOfToString(info.line);
  }

  lemma SaveLineNoBreak(info: NodeInfo)
    requires NoWhiteSpace(info.ownedFunction)
    ensures NoLineBreak(SaveLine(info))
  {
    var f := info.ownedFunction;
    var b := BoolToString(info.isFirstNode);
    var n := IntToString(info.line);
    var s := SaveLine(info);
    IntToStringNoWhiteSpace(info.line);
    forall k | 0 <= k < |s| ensures !IsLineBreak(s[k]) {
      if k < |f| {
        assert s[k] == f[k];
      } else if |f| + 1 <= k < |f| + 1 + |b| {
        assert s[k] == b[k - |f| - 1];
      } else if k >= |f| + 2 + |b| {
        assert s[k] == n[k - |f| - 2 - |b|];
      }
    }
  }

  /** `text` starts with a line that parses as `info`, and `rest` follows that line. */
  predicate LoadsFirst(parse: string -> Outcome<NodeInfo>, text: string, info: NodeInfo, rest: string) {
    && ReadLine(text).0.Some?
    && ReadLine(text).1 == rest
    && parse(ReadLine(text).0.value) == Ok(info)
  }

  /** Lines that each parse, from one text to the next, load as a table in order. */
  lemma {:induction false} LoadChain(parse: string -> Outcome<NodeInfo>, texts: seq<string>, infos: seq<NodeInfo>)
    requires |texts| == |infos| + 1 && texts[|infos|] == ""
    requires forall i :: 0 <= i < |infos| ==> LoadsFirst(parse, texts[i], infos[i], texts[i + 1])
    ensures LoadWith(parse, texts[0]) == Ok(NodeInfoCollection(infos, None))
    decreases |infos|
  {
    if |infos| > 0 {
      LoadChain(parse, texts[1..], infos[1..]);
      assert [infos[0]] + infos[1..] == infos;
    }
  }

  /** The first saved line is read back as the first info. */
  lemma SaveTextFirst(infos: seq<NodeInfo>)
    requires |infos| > 0 && NoWhiteSpace(infos[0].ownedFunction)
    ensures LoadsFirst(ParseLine, SaveText(infos), infos[0], SaveText(infos[1..]))
  {
    SaveLineNoBreak(infos[0]);
    ParseSaveLine(infos[0]);
    ReadLineCrLf(SaveLine(infos[0]), SaveText(infos[1..]));
  }

  /** Saving a table and loading the file gives the same nodes, provided no
      function name contains white space. */
  lemma LoadSave(infos: seq<NodeInfo>)
    requires forall i :: 0 <= i < |infos| ==> NoWhiteSpace(infos[i].ownedFunction)
    ensures Load(SaveText(infos)) == Ok(NodeInfoCollection(infos, None))
  {
    var texts := seq(|infos| + 1, i requires 0 <= i <= |infos| => SaveText(infos[i..]));
    forall i | 0 <= i < |infos| ensures LoadsFirst(ParseLine, texts[i], infos[i], texts[i + 1]) {
      SaveTextFirst(infos[i..]);
      assert infos[i..][1..] == infos[i + 1..];
    }
    assert infos[0..] == infos;
    LoadChain(ParseLine, texts, infos);
  }
}
