/** The behaviour graphs of a test suite (OJWebService/Graphs/GraphCollection.cs):
    one graph per test case in file order, and the successful and the
    failing ones in arrays of their own. The arrays are sized by the
    header counts before the test cases are read, and the test cases are
    read lazily, one graph built and placed before the next is read, so an
    exception is reported for the first test case that raises one. */
module GraphCollection {
  import opened Wrappers
  import TraceSet
  import NodeInfoCollection
  import Graph

  /** The three arrays; a slot nothing was placed in holds null (None). */
  datatype GraphCollection = GraphCollection(graphs: seq<Option<Graph.Graph>>,
                                             successes: seq<Option<Graph.Graph>>,
                                             fails: seq<Option<Graph.Graph>>)

  /** What the constructor has placed so far: the filled prefix of each array. */
  datatype Filling = Filling(graphs: seq<Graph.Graph>, successes: seq<Graph.Graph>, fails: seq<Graph.Graph>)

  /** An array of `size` slots whose first ones hold `placed`. */
  function Slots(placed: seq<Graph.Graph>, size: nat): (r: seq<Option<Graph.Graph>>)
    requires |placed| <= size
    ensures |r| == size
    ensures forall i :: 0 <= i < |placed| ==> r[i] == Some(placed[i])
    ensures forall i :: |placed| <= i < size ==> r[i].None?
  {
    seq(size, i requires 0 <= i < size => if i < |placed| then Some(placed[i]) else None)
  }

  // ---------------------------------------------------------------------
  // The constructor

  /** One placement: the graph goes into the next slot of `graphs`, and into
      the next slot of `successes` or of `fails`; writing past the end of
      either array throws. */
  function Place(f: Filling, g: Graph.Graph, successCount: nat, failCount: nat): (r: Outcome<Filling>)
    ensures r.Err? <==> (if g.isSuccessful then |f.successes| >= successCount else |f.fails| >= failCount)
    ensures r.Err? ==> r.error == IndexOutOfRange
    ensures r.Ok? ==> r.value.graphs == f.graphs + [g]
    ensures r.Ok? && g.isSuccessful ==> r.value.successes == f.successes + [g] && r.value.fails == f.fails
    ensures r.Ok? && !g.isSuccessful ==> r.value.fails == f.fails + [g] && r.value.successes == f.successes
  {
    if g.isSuccessful then
      if |f.successes| < successCount then Ok(Filling(f.graphs + [g], f.successes + [g], f.fails))
      else Err(IndexOutOfRange)
    else
      if |f.fails| < failCount then Ok(Filling(f.graphs + [g], f.successes, f.fails + [g]))
      else Err(IndexOutOfRange)
  }

  /** The foreach loop with `n` test cases left to enumerate from the reader
      text `s`: read one with `read` (one pass of the enumeration loop,
      TraceSet.ReadRun), build its graph, place it, go on. */
  function Fill(read: string -> (Outcome<TraceSet.Run>, string), s: string, n: int,
                infos: NodeInfoCollection.NodeInfoCollection,
                successCount: nat, failCount: nat, f: Filling): (r: Outcome<Filling>)
    requires |f.successes| <= successCount && |f.fails| <= failCount
    ensures r.Ok? ==> |r.value.graphs| == |f.graphs| + (if n < 0 then 0 else n)
    ensures r.Ok? ==> |r.value.successes| <= successCount && |r.value.fails| <= failCount
    ensures r.Ok? ==> |r.value.successes| + |r.value.fails| == |f.successes| + |f.fails| + (if n < 0 then 0 else n)
    decreases n
  {
    if n <= 0 then Ok(f)
    else
      var (run, rest) := read(s);
      if run.Err? then Err(run.error)
      else
        var g :- Graph.FromRun(run.value, infos);
        var f' :- Place(f, g, successCount, failCount);
        Fill(read, rest, n - 1, infos, successCount, failCount, f')
  }

  /** new GraphCollection(traces, infos). A negative header count makes
      the array allocation throw before anything is read; an enumeration
      that has already finished yields nothing, leaving every slot null. */
  function Build(ts: TraceSet.TraceSet, infos: NodeInfoCollection.NodeInfoCollection): (r: Outcome<GraphCollection>)
    ensures ts.count < 0 || ts.successCount < 0 || ts.failCount < 0 ==> r == Err(Overflow)
    ensures r.Ok? ==> |r.value.graphs| == ts.count && |r.value.successes| == ts.successCount && |r.value.fails| == ts.failCount
    ensures r.Ok? && ts.reader.Some? ==> forall i :: 0 <= i < |r.value.graphs| ==> r.value.graphs[i].Some?
    ensures r.Ok? && ts.reader.None? ==> forall i :: 0 <= i < |r.value.graphs| ==> r.value.graphs[i].None?
  {
    if ts.count < 0 || ts.successCount < 0 || ts.failCount < 0 then Err(Overflow)
    else
      var f :- Enumerated(ts, infos);
      Ok(GraphCollection(Slots(f.graphs, ts.count), Slots(f.successes, ts.successCount), Slots(f.fails, ts.failCount)))
  }

  /** The foreach loop over the whole enumeration, from empty arrays. */
  function Enumerated(ts: TraceSet.TraceSet, infos: NodeInfoCollection.NodeInfoCollection): (r: Outcome<Filling>)
    requires ts.count >= 0 && ts.successCount >= 0 && ts.failCount >= 0
    ensures r.Ok? ==> Fits(r.value, ts.successCount, ts.failCount)
    ensures r.Ok? ==> |r.value.graphs| == (if ts.reader.None? then 0 else ts.count)
  {
    match ts.reader
    case None => Ok(Filling([], [], []))
    case Some(s) => Fill(TraceSet.ReadRun, s, ts.count, infos, ts.successCount, ts.failCount, Filling([], [], []))
  }

  // ---------------------------------------------------------------------
  // The contents as a definition

  /** Every test case has a graph. */
  predicate Builds(runs: seq<TraceSet.Run>, infos: NodeInfoCollection.NodeInfoCollection) {
    forall i :: 0 <= i < |runs| ==> Graph.FromRun(runs[i], infos).Ok?
  }

  /** The graphs of the test cases, in file order. */
  function Graphs(runs: seq<TraceSet.Run>, infos: NodeInfoCollection.NodeInfoCollection): (r: seq<Graph.Graph>)
    requires Builds(runs, infos)
    ensures |r| == |runs|
    ensures forall i :: 0 <= i < |runs| ==> r[i].isSuccessful == runs[i].isSuccessful
  {
    seq(|runs|, i requires 0 <= i < |runs| => Graph.FromRun(runs[i], infos).value)
  }

  /** The graphs whose verdict is `successful`, in their order. */
  function Verdicts(gs: seq<Graph.Graph>, successful: bool): (r: seq<Graph.Graph>)
    ensures |r| <= |gs|
    ensures forall i :: 0 <= i < |r| ==> r[i].isSuccessful == successful
  {
    if |gs| == 0 then []
    else (if gs[0].isSuccessful == successful then [gs[0]] else []) + Verdicts(gs[1..], successful)
  }

  /** The three arrays' contents for these graphs: all of them, the
      successful ones, the failing ones. */
  function Apart(gs: seq<Graph.Graph>): Filling {
    Filling(gs, Verdicts(gs, true), Verdicts(gs, false))
  }

  function Then(f: Filling, g: Filling): Filling {
    Filling(f.graphs + g.graphs, f.successes + g.successes, f.fails + g.fails)
  }

  /** Filling arrays that start empty gives what is filled in. */
  lemma ThenNothing(g: Filling)
    ensures Then(Filling([], [], []), g) == g
  {
    assert [] + g.graphs == g.graphs && [] + g.successes == g.successes && [] + g.fails == g.fails;
  }

  predicate Fits(f: Filling, successCount: nat, failCount: nat) {
    |f.successes| <= successCount && |f.fails| <= failCount
  }

  // ---------------------------------------------------------------------
  // The constructor fills the arrays as the definition says

  /** Every graph has one verdict or the other. */
  lemma {:induction false} VerdictsSplit(gs: seq<Graph.Graph>)
    ensures |Verdicts(gs, true)| + |Verdicts(gs, false)| == |gs|
    decreases |gs|
  {
    if |gs| > 0 {
      VerdictsSplit(gs[1..]);
    }
  }

  /** Each verdict keeps a graph exactly when it has that verdict, in order:
      it takes the first graph and filters the rest. */
  lemma VerdictsCons(g: Graph.Graph, gs: seq<Graph.Graph>, successful: bool)
    ensures Verdicts([g] + gs, successful) == (if g.isSuccessful == successful then [g] else []) + Verdicts(gs, successful)
  {
    assert ([g] + gs)[1..] == gs;
  }

  /** Placing one graph, then the arrays of the rest, is the arrays of all of them. */
  lemma PlaceThen(f: Filling, g: Graph.Graph, gs: seq<Graph.Graph>, successCount: nat, failCount: nat)
    requires Place(f, g, successCount, failCount).Ok?
    ensures Then(Place(f, g, successCount, failCount).value, Apart(gs)) == Then(f, Apart([g] + gs))
  {
    VerdictsCons(g, gs, true);
    VerdictsCons(g, gs, false);
    AppendAssociates(f.graphs, g, gs);
    if g.isSuccessful {
      AppendAssociates(f.successes, g, Verdicts(gs, true));
      assert [] + Verdicts(gs, false) == Verdicts(gs, false);
    } else {
      AppendAssociates(f.fails, g, Verdicts(gs, false));
      assert [] + Verdicts(gs, true) == Verdicts(gs, true);
    }
  }

  lemma AppendAssociates(a: seq<Graph.Graph>, g: Graph.Graph, b: seq<Graph.Graph>)
    ensures (a + [g]) + b == a + ([g] + b)
  {
  }

  /** The graphs of a first test case and the ones after it. */
  lemma GraphsCons(runs: seq<TraceSet.Run>, infos: NodeInfoCollection.NodeInfoCollection)
    requires |runs| > 0 && Builds(runs, infos)
    ensures Builds(runs[1..], infos)
    ensures Graphs(runs, infos) == [Graph.FromRun(runs[0], infos).value] + Graphs(runs[1..], infos)
  {
  }

  /** Every test case of `[run] + more` has a graph exactly when `run` and
      every test case of `more` have one. */
  lemma BuildsCons(run: TraceSet.Run, more: seq<TraceSet.Run>, infos: NodeInfoCollection.NodeInfoCollection)
    ensures Builds([run] + more, infos) <==> Graph.FromRun(run, infos).Ok? && Builds(more, infos)
    ensures Builds([run] + more, infos) ==>
      Graphs([run] + more, infos) == [Graph.FromRun(run, infos).value] + Graphs(more, infos)
  {
    var runs := [run] + more;
    assert runs[1..] == more;
    if Graph.FromRun(run, infos).Ok? && Builds(more, infos) {
      forall i | 0 <= i < |runs| ensures Graph.FromRun(runs[i], infos).Ok? {
        if i > 0 {
          assert runs[i] == more[i - 1];
        }
      }
    }
    if Builds(runs, infos) {
      GraphsCons(runs, infos);
    }
  }

  /** The first pass of the enumeration loop, then the others. */
  lemma RepeatStep(read: string -> (Outcome<TraceSet.Run>, string), s: string, n: int)
    requires n > 0
    ensures var (run, rest) := read(s);
      && (run.Err? ==> TraceSet.Repeat(read, s, n).0.Err?)
      && (run.Ok? ==> (TraceSet.Repeat(read, s, n).0.Ok? <==> TraceSet.Repeat(read, rest, n - 1).0.Ok?))
      && (run.Ok? && TraceSet.Repeat(read, s, n).0.Ok? ==>
            TraceSet.Repeat(read, s, n).0.value == [run.value] + TraceSet.Repeat(read, rest, n - 1).0.value)
  {
  }

  /** The loop succeeds exactly when every test case is read and built and
      neither verdict array overflows; it then leaves the arrays holding
      what the definition says, and when reading and building succeed its
      only failure is the overflow. */
  lemma {:induction false} FillMeaning(read: string -> (Outcome<TraceSet.Run>, string), s: string, n: int, infos: NodeInfoCollection.NodeInfoCollection,
                                       successCount: nat, failCount: nat, f: Filling)
    requires Fits(f, successCount, failCount)
    ensures var runs := TraceSet.Repeat(read, s, n).0;
      Fill(read, s, n, infos, successCount, failCount, f).Ok? <==>
        runs.Ok? && Builds(runs.value, infos) && Fits(Then(f, Apart(Graphs(runs.value, infos))), successCount, failCount)
    ensures var runs := TraceSet.Repeat(read, s, n).0;
      Fill(read, s, n, infos, successCount, failCount, f).Ok? ==>
        Fill(read, s, n, infos, successCount, failCount, f).value == Then(f, Apart(Graphs(runs.value, infos)))
    ensures var runs := TraceSet.Repeat(read, s, n).0;
      Fill(read, s, n, infos, successCount, failCount, f).Err? && runs.Ok? && Builds(runs.value, infos) ==>
        Fill(read, s, n, infos, successCount, failCount, f).error == IndexOutOfRange
    decreases n
  {
    if n <= 0 {
      assert TraceSet.Repeat(read, s, n).0 == Ok([]);
      assert Then(f, Apart(Graphs([], infos))) == f;
    } else {
      var (run, rest) := read(s);
      RepeatStep(read, s, n);
      if run.Ok? {
        var more := TraceSet.Repeat(read, rest, n - 1).0;
        if more.Ok? {
          BuildsCons(run.value, more.value, infos);
        }
        var built := Graph.FromRun(run.value, infos);
        if built.Ok? {
          var p := Place(f, built.value, successCount, failCount);
          if p.Ok? {
            FillMeaning(read, rest, n - 1, infos, successCount, failCount, p.value);
            if more.Ok? && Builds(more.value, infos) {
              PlaceThen(f, built.value, Graphs(more.value, infos), successCount, failCount);
            }
          } else if more.Ok? && Builds(more.value, infos) {
            VerdictsCons(built.value, Graphs(more.value, infos), built.value.isSuccessful);
          }
        }
      }
    }
  }

  /** The loop over the whole enumeration succeeds exactly when every test
      case is read and built and neither verdict array overflows, and then
      holds the graphs as the definition says. */
  lemma EnumeratedMeaning(ts: TraceSet.TraceSet, infos: NodeInfoCollection.NodeInfoCollection)
    requires ts.count >= 0 && ts.successCount >= 0 && ts.failCount >= 0
    ensures var runs := TraceSet.Enumerate(ts).0;
      Enumerated(ts, infos).Ok? <==>
        runs.Ok? && Builds(runs.value, infos) && Fits(Apart(Graphs(runs.value, infos)), ts.successCount, ts.failCount)
    ensures var runs := TraceSet.Enumerate(ts).0;
      Enumerated(ts, infos).Ok? ==> Enumerated(ts, infos).value == Apart(Graphs(runs.value, infos))
    ensures var runs := TraceSet.Enumerate(ts).0;
      Enumerated(ts, infos).Err? && runs.Ok? && Builds(runs.value, infos) ==> Enumerated(ts, infos).error == IndexOutOfRange
  {
    var start := Filling([], [], []);
    match ts.reader
    case None =>
      assert Graphs([], infos) == [];
    case Some(s) =>
      var runs := TraceSet.Repeat(TraceSet.ReadRun, s, ts.count).0;
      var filled := Fill(TraceSet.ReadRun, s, ts.count, infos, ts.successCount, ts.failCount, start);
      FillMeaning(TraceSet.ReadRun, s, ts.count, infos, ts.successCount, ts.failCount, start);
      assert TraceSet.Enumerate(ts).0 == runs;
      assert Enumerated(ts, infos) == filled;
      if runs.Ok? && Builds(runs.value, infos) {
        ThenNothing(Apart(Graphs(runs.value, infos)));
      }
  }

  /** The constructor as a definition: it succeeds exactly when the header
      counts are not negative, every test case is read and built, and there
      are no more successful and failing test cases than the header
      announces; the graphs are then in file order in `graphs`, and the
      successful and failing ones, in the same order, at the front of
      their arrays, the rest of which stay null. When reading and building
      succeed, the only failure left is an overflowing verdict array. */
  lemma BuildMeaning(ts: TraceSet.TraceSet, infos: NodeInfoCollection.NodeInfoCollection)
    ensures var runs := TraceSet.Enumerate(ts).0;
      Build(ts, infos).Ok? <==>
        && ts.count >= 0 && ts.successCount >= 0 && ts.failCount >= 0
        && runs.Ok? && Builds(runs.value, infos)
        && |Verdicts(Graphs(runs.value, infos), true)| <= ts.successCount
        && |Verdicts(Graphs(runs.value, infos), false)| <= ts.failCount
    ensures var runs := TraceSet.Enumerate(ts).0;
      Build(ts, infos).Ok? ==>
        var gs := Graphs(runs.value, infos);
        Build(ts, infos).value == GraphCollection(Slots(gs, ts.count),
                                                  Slots(Verdicts(gs, true), ts.successCount),
                                                  Slots(Verdicts(gs, false), ts.failCount))
    ensures var runs := TraceSet.Enumerate(ts).0;
      (&& ts.count >= 0 && ts.successCount >= 0 && ts.failCount >= 0
       && Build(ts, infos).Err? && runs.Ok? && Builds(runs.value, infos)) ==> Build(ts, infos).error == IndexOutOfRange
  {
    if ts.count >= 0 && ts.successCount >= 0 && ts.failCount >= 0 {
      EnumeratedMeaning(ts, infos);
    }
  }

  // ---------------------------------------------------------------------
  // A file the writer wrote

  /** Every slot of an array sized to what is placed in it is filled. */
  lemma SlotsFull(placed: seq<Graph.Graph>)
    ensures forall i :: 0 <= i < |placed| ==> Slots(placed, |placed|)[i] == Some(placed[i])
  {
  }

  /** The successful graphs are as many as the successful test cases. */
  lemma {:induction false} VerdictsCount(runs: seq<TraceSet.Run>, infos: NodeInfoCollection.NodeInfoCollection)
    requires Builds(runs, infos)
    ensures |Verdicts(Graphs(runs, infos), true)| == TraceSet.CountSuccesses(runs)
    ensures |Verdicts(Graphs(runs, infos), false)| == |runs| - TraceSet.CountSuccesses(runs)
    decreases |runs|
  {
    VerdictsSplit(Graphs(runs, infos));
    if |runs| > 0 {
      GraphsCons(runs, infos);
      VerdictsCount(runs[1..], infos);
      VerdictsCons(Graph.FromRun(runs[0], infos).value, Graphs(runs[1..], infos), true);
    }
  }

  /** For a file the writer wrote, whose test cases all have graphs, the
      collection is built and no slot stays null: every graph, every
      successful graph and every failing graph, each in file order. */
  lemma WriteThenBuild(level: string, runs: seq<TraceSet.Run>, infos: NodeInfoCollection.NodeInfoCollection)
    requires TraceSet.Token(level) && Builds(runs, infos)
    ensures TraceSet.Open(TraceSet.Write(level, runs)).Ok?
    ensures var gs := Graphs(runs, infos);
      var r := Build(TraceSet.Open(TraceSet.Write(level, runs)).value, infos);
      && r.Ok?
      && |r.value.graphs| == |gs| && (forall i :: 0 <= i < |gs| ==> r.value.graphs[i] == Some(gs[i]))
      && |r.value.successes| == |Verdicts(gs, true)|
      && (forall i :: 0 <= i < |r.value.successes| ==> r.value.successes[i] == Some(Verdicts(gs, true)[i]))
      && |r.value.fails| == |Verdicts(gs, false)|
      && (forall i :: 0 <= i < |r.value.fails| ==> r.value.fails[i] == Some(Verdicts(gs, false)[i]))
  {
    TraceSet.WriteThenEnumerate(level, runs);
    var ts := TraceSet.Open(TraceSet.Write(level, runs)).value;
    var k := TraceSet.CountSuccesses(runs);
    TraceSet.OpenHeader(|runs|, k, |runs| - k, level, TraceSet.RunsText(runs));
    assert ts.count == |runs| && ts.successCount == k && ts.failCount == |runs| - k;
    VerdictsCount(runs, infos);
    BuildMeaning(ts, infos);
  }
}
