/** The branch-and-bound miner (OJWebService/Graphs/GraphMining.cs). The
    search space is the merge of the failing runs' graphs; every edge of it
    seeds a path, and paths are taken from a FIFO queue, scored, kept in a
    ranked top-k list, and extended along the out-edges of their last node
    to nodes not yet on them, as long as the score function says an
    extension could still score and the extension passes the call/return
    check. Paths with more than five edges are dropped unscored.

    The score function is a parameter: it maps a path to its score and the
    best score an extension of it could reach. Scores are compared exactly. */
module GraphMining {
  import opened Wrappers
  import opened Edge
  import Vector
  import Graph
  import NodeInfoCollection
  import ExecutePath
  import PathChecker
  import opened PathResult
  import opened ResultList

  // ---------------------------------------------------------------------
  // The search

  /** Every vertex of the search space is in the node table, so the
      call/return check never throws. */
  ghost predicate AllKnown(space: Graph.Graph, infos: NodeInfoCollection.NodeInfoCollection) {
    forall id :: id in space.vectors ==> 0 <= id < NodeInfoCollection.Count(infos)
  }

  /** The path runs inside the search space: its edges are edges of the
      space and its nodes are vertices of it. */
  ghost predicate InSpace(space: Graph.Graph, p: ExecutePath.ExecutePath) {
    && (forall k :: k in p.edges ==> k in space.edges)
    && (forall i :: 0 <= i < |p.nodes| ==> p.nodes[i] in space.vectors)
  }

  /** What every queued path satisfies: a simple path of the search space
      with one to six edges that is a seed edge or passes the check. */
  ghost predicate Queued(space: Graph.Graph, infos: NodeInfoCollection.NodeInfoCollection, p: ExecutePath.ExecutePath) {
    && ExecutePath.Simple(p) && 1 <= |p.edges| <= 6 && InSpace(space, p)
    && (|p.nodes| == 2 || PathChecker.Check(infos, p) == Ok(true))
  }

  ghost predicate AllQueued(space: Graph.Graph, infos: NodeInfoCollection.NodeInfoCollection, qs: seq<ExecutePath.ExecutePath>) {
    forall i :: 0 <= i < |qs| ==> Queued(space, infos, qs[i])
  }

  lemma AllQueuedAppend(space: Graph.Graph, infos: NodeInfoCollection.NodeInfoCollection,
                        a: seq<ExecutePath.ExecutePath>, b: seq<ExecutePath.ExecutePath>)
    requires AllQueued(space, infos, a) && AllQueued(space, infos, b)
    ensures AllQueued(space, infos, a + b)
  {
    forall i | 0 <= i < |a + b| ensures Queued(space, infos, (a + b)[i]) {
      if i < |a| {
        assert (a + b)[i] == a[i];
      } else {
        assert (a + b)[i] == b[i - |a|];
      }
    }
  }

  /** What every kept result satisfies: a queued path of at most five
      edges that the score function scored positive, with the scores it
      gave. */
  ghost predicate Kept(space: Graph.Graph, infos: NodeInfoCollection.NodeInfoCollection,
                       score: ExecutePath.ExecutePath -> (real, real), x: Result) {
    && Queued(space, infos, x.path) && |x.path.edges| <= 5
    && x.score > 0.0 && score(x.path) == (x.score, x.maxPossibleScore)
  }

  /** What Mining returns: at most `k` results, ranked, unnested, all kept. */
  ghost predicate Returned(space: Graph.Graph, infos: NodeInfoCollection.NodeInfoCollection,
                           score: ExecutePath.ExecutePath -> (real, real), k: int, rs: seq<Result>) {
    && |rs| <= k && Sorted(rs) && NoNesting(rs)
    && forall i :: 0 <= i < |rs| ==> Kept(space, infos, score, rs[i])
  }

  /** Extending `p` by `node` is enqueued: the node is not on the path yet
      and the extended path passes the check. */
  predicate Passes(infos: NodeInfoCollection.NodeInfoCollection, p: ExecutePath.ExecutePath, node: int)
    requires |p.nodes| > 0
  {
    !ExecutePath.ContainsNode(p, node) && PathChecker.Check(infos, ExecutePath.Extend(p, node)) == Ok(true)
  }

  /** What one out-edge contributes to the query: nothing when its target
      is on the path already or the extension fails the check, the
      extension when it passes, and the check's exception when it throws. */
  function Candidate(infos: NodeInfoCollection.NodeInfoCollection, p: ExecutePath.ExecutePath, node: int)
    : (r: Outcome<seq<ExecutePath.ExecutePath>>)
    requires |p.nodes| > 0
    ensures r.Ok? ==> |r.value| <= 1
  {
    if ExecutePath.ContainsNode(p, node) then Ok([])
    else
      var next := ExecutePath.Extend(p, node);
      match PathChecker.Check(infos, next)
      case Err(e) => Err(e)
      case Ok(passed) => Ok(if passed then [next] else [])
  }

  /** The query over the out-edges of the last node: the extensions to
      nodes not yet on the path that pass the check, in edge order. The
      check throws on a node missing from the node table. */
  function Extensions(infos: NodeInfoCollection.NodeInfoCollection, p: ExecutePath.ExecutePath, out: seq<Edge>)
    : (r: Outcome<seq<ExecutePath.ExecutePath>>)
    requires |p.nodes| > 0
    ensures r.Ok? ==> |r.value| <= |out|
  {
    if |out| == 0 then Ok([])
    else
      match Candidate(infos, p, out[0].to)
      case Err(e) => Err(e)
      case Ok(first) =>
        match Extensions(infos, p, out[1..])
        case Err(e) => Err(e)
        case Ok(rest) => Ok(first + rest)
  }

  /** One out-edge contributes exactly its passing extension, and fails
      exactly when the check throws on its extension. */
  lemma CandidateMeaning(infos: NodeInfoCollection.NodeInfoCollection, p: ExecutePath.ExecutePath, node: int)
    requires |p.nodes| > 0
    ensures var r := Candidate(infos, p, node);
      && (r.Ok? ==> forall q :: q in r.value <==> Passes(infos, p, node) && q == ExecutePath.Extend(p, node))
      && (r.Err? <==> !ExecutePath.ContainsNode(p, node) && PathChecker.Check(infos, ExecutePath.Extend(p, node)).Err?)
      && (r.Err? ==> r.error == ArgumentOutOfRange)
  {
    PathChecker.CheckErr(infos, ExecutePath.Extend(p, node).nodes);
  }

  /** The extensions are exactly the passing ones. */
  lemma {:induction false} ExtensionsMeaning(infos: NodeInfoCollection.NodeInfoCollection, p: ExecutePath.ExecutePath, out: seq<Edge>)
    requires |p.nodes| > 0
    ensures var r := Extensions(infos, p, out);
      r.Ok? ==> forall q :: q in r.value <==>
        exists i :: 0 <= i < |out| && Passes(infos, p, out[i].to) && q == ExecutePath.Extend(p, out[i].to)
  {
    if |out| > 0 {
      ExtensionsMeaning(infos, p, out[1..]);
      CandidateMeaning(infos, p, out[0].to);
      forall i | 1 <= i < |out| ensures out[i] == out[1..][i - 1] { }
      forall j | 0 <= j < |out| - 1 ensures out[1..][j] == out[j + 1] { }
    }
  }

  /** The query fails exactly when the check throws on one of the
      candidates, and then with the exception the check throws. */
  lemma {:induction false} ExtensionsFail(infos: NodeInfoCollection.NodeInfoCollection, p: ExecutePath.ExecutePath, out: seq<Edge>)
    requires |p.nodes| > 0
    ensures var r := Extensions(infos, p, out);
      && (r.Err? <==> exists i :: (0 <= i < |out| && !ExecutePath.ContainsNode(p, out[i].to)
                                   && PathChecker.Check(infos, ExecutePath.Extend(p, out[i].to)).Err?))
      && (r.Err? ==> r.error == ArgumentOutOfRange)
  {
    if |out| > 0 {
      ExtensionsFail(infos, p, out[1..]);
      CandidateMeaning(infos, p, out[0].to);
      forall i | 1 <= i < |out| ensures out[i] == out[1..][i - 1] { }
      forall j | 0 <= j < |out| - 1 ensures out[1..][j] == out[j + 1] { }
    }
  }

  /** An out-edge of a vertex of a well-formed graph starts at the vertex,
      is an edge of the graph, and ends at a vertex of it. */
  lemma OutEdgeInSpace(space: Graph.Graph, id: int, i: int)
    requires Graph.Valid(space) && id in space.vectors && 0 <= i < |space.vectors[id].outEdges|
    ensures var e := space.vectors[id].outEdges[i];
      e.from == id && EdgeKey(id, e.to) in space.edges && Key(e) in space.edges && e.to in space.vectors
  {
    var v := space.vectors[id];
    Graph.OutEdgeFound(v, i);
    assert Graph.GetEdge(space, id, v.outEdges[i].to).Some?;
    assert Graph.HasEdge(space, EdgeKey(id, v.outEdges[i].to));
  }

  /** A sequence without repeats whose elements all lie in `t` is no longer
      than `t`. */
  lemma {:induction false} DistinctBound<T>(s: seq<T>, t: seq<T>)
    requires forall i, j :: 0 <= i < j < |s| ==> s[i] != s[j]
    requires forall i :: 0 <= i < |s| ==> s[i] in t
    ensures |s| <= |t|
  {
    if |s| > 0 {
      var j :| 0 <= j < |t| && t[j] == s[0];
      var t' := t[..j] + t[j + 1..];
      forall i | 1 <= i < |s| ensures s[i] in t' {
        var m :| 0 <= m < |t| && t[m] == s[i];
        assert m != j;
        if m < j {
          assert t'[m] == t[m];
        } else {
          assert t'[m - 1] == t[m];
        }
      }
      DistinctBound(s[1..], t');
    }
  }

  /** No vertex of a well-formed graph has more out-edges than the graph
      has edges. */
  lemma OutDegreeBound(space: Graph.Graph, id: int)
    requires Graph.Valid(space) && id in space.vectors
    ensures |space.vectors[id].outEdges| <= |space.edges|
  {
    var out := space.vectors[id].outEdges;
    var keys := seq(|out|, i requires 0 <= i < |out| => Key(out[i]));
    forall i | 0 <= i < |keys| ensures keys[i] in space.edges {
      OutEdgeInSpace(space, id, i);
    }
    DistinctBound(keys, space.edges);
  }

  /** Extending a queued path of at most five edges by a passing node along
      an edge of the search space gives a queued path one edge longer. */
  lemma ExtendQueued(space: Graph.Graph, infos: NodeInfoCollection.NodeInfoCollection, p: ExecutePath.ExecutePath, node: int)
    requires Queued(space, infos, p) && |p.edges| <= 5
    requires Passes(infos, p, node)
    requires EdgeKey(Last(p), node) in space.edges && node in space.vectors
    ensures Queued(space, infos, ExecutePath.Extend(p, node))
    ensures |ExecutePath.Extend(p, node).edges| == |p.edges| + 1
  {
    var q := ExecutePath.Extend(p, node);
    ExecutePath.ExtendSimple(p, node);
    ExecutePath.ExtendValid(p, node);
    forall i | 0 <= i < |q.nodes| ensures q.nodes[i] in space.vectors {
      if i < |p.nodes| {
        assert q.nodes[i] == q.nodes[..|p.nodes|][i] == p.nodes[i];
      }
    }
  }

  /** The last node of a queued path is a vertex of the search space. */
  function Last(p: ExecutePath.ExecutePath): int
    requires |p.nodes| > 0
  {
    p.nodes[|p.nodes| - 1]
  }

  /** Expanding a queued path of at most five edges gives at most as many
      new paths as the search space has edges, all queued and one edge
      longer. */
  lemma ExpandQueued(space: Graph.Graph, infos: NodeInfoCollection.NodeInfoCollection, p: ExecutePath.ExecutePath)
    requires Graph.Valid(space) && Queued(space, infos, p) && |p.edges| <= 5
    ensures Last(p) in space.vectors
    ensures var r := Extensions(infos, p, space.vectors[Last(p)].outEdges);
      r.Ok? ==> && |r.value| <= |space.edges|
                && AllQueued(space, infos, r.value)
                && forall j :: 0 <= j < |r.value| ==> |r.value[j].edges| == |p.edges| + 1
  {
    var out := space.vectors[Last(p)].outEdges;
    var r := Extensions(infos, p, out);
    OutDegreeBound(space, Last(p));
    if r.Ok? {
      forall j | 0 <= j < |r.value| ensures Queued(space, infos, r.value[j]) && |r.value[j].edges| == |p.edges| + 1 {
        ExpandedQueued(space, infos, p, r.value, j);
      }
    }
  }

  /** Each path the expansion yields is queued and one edge longer. */
  lemma ExpandedQueued(space: Graph.Graph, infos: NodeInfoCollection.NodeInfoCollection, p: ExecutePath.ExecutePath,
                       qs: seq<ExecutePath.ExecutePath>, j: int)
    requires Graph.Valid(space) && Queued(space, infos, p) && |p.edges| <= 5 && Last(p) in space.vectors
    requires Extensions(infos, p, space.vectors[Last(p)].outEdges) == Ok(qs) && 0 <= j < |qs|
    ensures Queued(space, infos, qs[j]) && |qs[j].edges| == |p.edges| + 1
  {
    var out := space.vectors[Last(p)].outEdges;
    var i := ExtensionSource(infos, p, out, qs, j);
    OutEdgeInSpace(space, Last(p), i);
    ExtendQueued(space, infos, p, out[i].to);
  }

  /** The out-edge an extension was made along. */
  lemma ExtensionSource(infos: NodeInfoCollection.NodeInfoCollection, p: ExecutePath.ExecutePath, out: seq<Edge>,
                        qs: seq<ExecutePath.ExecutePath>, j: int) returns (i: int)
    requires |p.nodes| > 0 && Extensions(infos, p, out) == Ok(qs) && 0 <= j < |qs|
    ensures 0 <= i < |out| && Passes(infos, p, out[i].to) && qs[j] == ExecutePath.Extend(p, out[i].to)
  {
    ExtensionsMeaning(infos, p, out);
    assert qs[j] in qs;
    i :| 0 <= i < |out| && Passes(infos, p, out[i].to) && qs[j] == ExecutePath.Extend(p, out[i].to);
  }

  /** The out-edge whose extension the check threw on. */
  lemma ExtensionFailure(infos: NodeInfoCollection.NodeInfoCollection, p: ExecutePath.ExecutePath, out: seq<Edge>)
    returns (i: int)
    requires |p.nodes| > 0 && Extensions(infos, p, out).Err?
    ensures Extensions(infos, p, out).error == ArgumentOutOfRange
    ensures 0 <= i < |out| && !ExecutePath.ContainsNode(p, out[i].to)
    ensures PathChecker.Check(infos, ExecutePath.Extend(p, out[i].to)).Err?
  {
    ExtensionsFail(infos, p, out);
    i :| 0 <= i < |out| && !ExecutePath.ContainsNode(p, out[i].to)
      && PathChecker.Check(infos, ExecutePath.Extend(p, out[i].to)).Err?;
  }

  /** The check throws on an extension along an edge of the search space
      only when a vertex of the space is missing from the node table. */
  lemma ExpandFails(space: Graph.Graph, infos: NodeInfoCollection.NodeInfoCollection, p: ExecutePath.ExecutePath, i: int)
    requires Graph.Valid(space) && Queued(space, infos, p) && Last(p) in space.vectors
    requires 0 <= i < |space.vectors[Last(p)].outEdges|
    requires PathChecker.Check(infos, ExecutePath.Extend(p, space.vectors[Last(p)].outEdges[i].to)).Err?
    ensures !AllKnown(space, infos)
  {
    OutEdgeInSpace(space, Last(p), i);
    var q := ExecutePath.Extend(p, space.vectors[Last(p)].outEdges[i].to);
    PathChecker.CheckErr(infos, q.nodes);
    var n :| 0 <= n < |q.nodes| && !(0 <= q.nodes[n] < NodeInfoCollection.Count(infos));
    if n < |p.nodes| {
      assert q.nodes[n] == q.nodes[..|p.nodes|][n] == p.nodes[n];
    }
    assert q.nodes[n] in space.vectors;
  }

  /** Expanding a queued path keeps the queue queued and makes it lighter
      than it was with the path. */
  lemma EnqueueStep(space: Graph.Graph, infos: NodeInfoCollection.NodeInfoCollection,
                    queue: seq<ExecutePath.ExecutePath>, p: ExecutePath.ExecutePath)
    requires Graph.Valid(space) && Queued(space, infos, p) && |p.edges| <= 5
    requires AllQueued(space, infos, queue)
    ensures Last(p) in space.vectors
    ensures var next := Extensions(infos, p, space.vectors[Last(p)].outEdges);
      next.Ok? ==> && AllQueued(space, infos, queue + next.value)
                   && QueueWeight(|space.edges|, queue + next.value) < QueueWeight(|space.edges|, queue) + Weight(|space.edges|, p)
  {
    ExpandQueued(space, infos, p);
    var next := Extensions(infos, p, space.vectors[Last(p)].outEdges);
    if next.Ok? {
      AllQueuedAppend(space, infos, queue, next.value);
      ExpansionWeight(|space.edges|, queue, next.value, |p.edges|);
    }
  }

  /** Taking the front path off the queue makes it lighter by its weight. */
  lemma PopWeight(bound: nat, queue: seq<ExecutePath.ExecutePath>)
    requires |queue| > 0 && |queue[0].edges| <= 7
    ensures QueueWeight(bound, queue) == Weight(bound, queue[0]) + QueueWeight(bound, queue[1..])
    ensures QueueWeight(bound, queue[1..]) < QueueWeight(bound, queue)
  {
  }

  /** A scoring step keeps the result list what Mining returns. */
  lemma ScoreStep(space: Graph.Graph, infos: NodeInfoCollection.NodeInfoCollection,
                  score: ExecutePath.ExecutePath -> (real, real), k: int, rs: seq<Result>, x: Result)
    requires Returned(space, infos, score, k, rs) && Kept(space, infos, score, x)
    ensures AllWellFormed(rs) && WellFormed(x)
    ensures Returned(space, infos, score, k, AddResult(rs, k, x).0)
  {
    assert AllWellFormed(rs);
    AddResultMeaning(rs, k, x);
    var rs' := AddResult(rs, k, x).0;
    forall i | 0 <= i < |rs'| ensures Kept(space, infos, score, rs'[i]) {
      assert rs'[i] in rs';
    }
  }

  // ---------------------------------------------------------------------
  // Termination: a path with e edges weighs (B + 1)^(7 - e), where B is
  // the number of edges of the search space. Expanding replaces a path by
  // at most B paths one edge longer, which weigh less together.

  function Pow(b: nat, n: nat): (r: nat)
    ensures b > 0 ==> r > 0
  {
    if n == 0 then 1 else b * Pow(b, n - 1)
  }

  function Weight(bound: nat, p: ExecutePath.ExecutePath): nat {
    if |p.edges| <= 7 then Pow(bound + 1, 7 - |p.edges|) else 0
  }

  function QueueWeight(bound: nat, queue: seq<ExecutePath.ExecutePath>): nat {
    if |queue| == 0 then 0 else Weight(bound, queue[0]) + QueueWeight(bound, queue[1..])
  }

  lemma {:induction false} QueueWeightAppend(bound: nat, a: seq<ExecutePath.ExecutePath>, b: seq<ExecutePath.ExecutePath>)
    ensures QueueWeight(bound, a + b) == QueueWeight(bound, a) + QueueWeight(bound, b)
  {
    if |a| > 0 {
      assert (a + b)[1..] == a[1..] + b;
      QueueWeightAppend(bound, a[1..], b);
    } else {
      assert a + b == b;
    }
  }

  /** Paths of equal length weigh the same. */
  lemma {:induction false} QueueWeightLevel(bound: nat, qs: seq<ExecutePath.ExecutePath>, e: nat)
    requires e <= 7 && forall j :: 0 <= j < |qs| ==> |qs[j].edges| == e
    ensures QueueWeight(bound, qs) == |qs| * Pow(bound + 1, 7 - e)
  {
    if |qs| > 0 {
      QueueWeightLevel(bound, qs[1..], e);
      assert Weight(bound, qs[0]) == Pow(bound + 1, 7 - e);
      MulSucc(|qs| - 1, Pow(bound + 1, 7 - e));
    }
  }

  /** Appending at most B paths of e + 1 edges adds less than the weight
      of one path of e edges. */
  lemma ExpansionWeight(bound: nat, queue: seq<ExecutePath.ExecutePath>, next: seq<ExecutePath.ExecutePath>, e: nat)
    requires e < 7 && |next| <= bound && forall j :: 0 <= j < |next| ==> |next[j].edges| == e + 1
    ensures QueueWeight(bound, queue + next) < QueueWeight(bound, queue) + Pow(bound + 1, 7 - e)
  {
    QueueWeightAppend(bound, queue, next);
    QueueWeightLevel(bound, next, e + 1);
    ExpansionLighter(bound, |next|, e);
  }

  /** At most B paths of e + 1 edges weigh less than one path of e edges. */
  lemma ExpansionLighter(bound: nat, n: nat, e: nat)
    requires n <= bound && e < 7
    ensures n * Pow(bound + 1, 7 - (e + 1)) < Pow(bound + 1, 7 - e)
  {
    var w := Pow(bound + 1, 6 - e);
    assert Pow(bound + 1, 7 - e) == (bound + 1) * w;
    assert n * w <= bound * w by {
      MulMono(n, bound, w);
    }
  }

  lemma MulSucc(n: nat, w: nat)
    ensures (n + 1) * w == n * w + w
  {
  }

  lemma MulMono(a: nat, b: nat, c: nat)
    requires a <= b
    ensures a * c <= b * c
  {
  }

  // ---------------------------------------------------------------------
  // Mining

  /** The constructor and Mining together. A negative limit fails in the
      constructor's list allocation; a missing failing-run graph fails when
      the search space is merged; the check fails on a vertex missing from
      the node table. Otherwise the result is at most `k` ranked, unnested
      results over simple paths of the search space of at most five edges
      that pass the check, each with the positive score the score function
      gave it. */
  method Mining(fails: seq<Option<Graph.Graph>>, infos: NodeInfoCollection.NodeInfoCollection,
                score: ExecutePath.ExecutePath -> (real, real), k: int) returns (r: Outcome<seq<Result>>)
    ensures k < 0 ==> r == Err(ArgumentOutOfRange)
    ensures k >= 0 && Graph.Merge(fails).Err? ==> r == Err(NullReference)
    ensures k >= 0 && Graph.Merge(fails).Ok? && AllKnown(Graph.Merge(fails).value, infos) ==> r.Ok?
    ensures r.Err? && k >= 0 && Graph.Merge(fails).Ok? ==> r.error == ArgumentOutOfRange
    ensures r.Ok? ==> k >= 0 && Graph.Merge(fails).Ok? && Returned(Graph.Merge(fails).value, infos, score, k, r.value)
  {
    if k < 0 {
      return Err(ArgumentOutOfRange);
    }
    var merged := Graph.Merge(fails);
    if merged.Err? {
      return Err(merged.error);
    }
    Graph.MergeValid(fails);
    r := Explore(merged.value, infos, score, k);
  }

  /** The search loop of Mining over a well-formed search space. */
  method Explore(space: Graph.Graph, infos: NodeInfoCollection.NodeInfoCollection,
                 score: ExecutePath.ExecutePath -> (real, real), k: int) returns (r: Outcome<seq<Result>>)
    requires Graph.Valid(space) && k >= 0
    ensures AllKnown(space, infos) ==> r.Ok?
    ensures r.Err? ==> r.error == ArgumentOutOfRange
    ensures r.Ok? ==> Returned(space, infos, score, k, r.value)
  {
    var bound := |space.edges|;
    var queue := seq(|space.edges|, i requires 0 <= i < |space.edges| => ExecutePath.Seed(space.edges[i]));
    forall i | 0 <= i < |queue| ensures Queued(space, infos, queue[i]) {
      SeedQueued(space, infos, i);
    }
    var results: seq<Result> := [];
    var scoreLimit := 0.0;
    while |queue| > 0
      invariant Graph.Valid(space)
      invariant AllQueued(space, infos, queue)
      invariant Returned(space, infos, score, k, results)
      decreases QueueWeight(bound, queue)
    {
      var path := queue[0];
      PopWeight(bound, queue);
      var turn := Turn(space, infos, score, k, path, queue[1..], results, scoreLimit);
      if turn.Err? {
        return Err(turn.error);
      }
      queue, results, scoreLimit := turn.value.0, turn.value.1, turn.value.2;
    }
    return Ok(results);
  }

  /** One turn of the loop on the path taken off the queue: a path of more
      than five edges is dropped; otherwise it is scored and offered to the
      list, and expanded when its bound is positive. Returns the queue, the
      list and the score limit. */
  method Turn(space: Graph.Graph, infos: NodeInfoCollection.NodeInfoCollection,
              score: ExecutePath.ExecutePath -> (real, real), k: int, p: ExecutePath.ExecutePath,
              queue: seq<ExecutePath.ExecutePath>, results: seq<Result>, limit: real)
    returns (r: Outcome<(seq<ExecutePath.ExecutePath>, seq<Result>, real)>)
    requires Graph.Valid(space) && Queued(space, infos, p) && AllQueued(space, infos, queue)
    requires Returned(space, infos, score, k, results)
    ensures r.Ok? ==> AllQueued(space, infos, r.value.0) && Returned(space, infos, score, k, r.value.1)
    ensures r.Ok? ==> QueueWeight(|space.edges|, r.value.0) < QueueWeight(|space.edges|, queue) + Weight(|space.edges|, p)
    ensures r.Err? ==> r.error == ArgumentOutOfRange && !AllKnown(space, infos)
  {
    if |p.edges| > 5 {
      return Ok((queue, results, limit));
    }
    var result := Scored(score, p);
    OfferKeeps(space, infos, score, k, results, limit, result);
    var offered := Offer(results, k, limit, result);
    if result.maxPossibleScore > 0.0 {
      var expanded := Expand(space, infos, queue, p);
      if expanded.Err? {
        return Err(expanded.error);
      }
      return Ok((expanded.value, offered.0, offered.1));
    }
    return Ok((queue, offered.0, offered.1));
  }

  /** The result the score function gives a path. */
  function Scored(score: ExecutePath.ExecutePath -> (real, real), p: ExecutePath.ExecutePath): (r: Result)
    ensures r.path == p && score(p) == (r.score, r.maxPossibleScore)
  {
    Result(p, score(p).0, score(p).1)
  }

  /** Offering a result to the list: a positive score not below the
      current limit is added when AddResult takes it, and the limit becomes
      the last score once the list is full. Returns the list and the limit. */
  function Offer(rs: seq<Result>, k: int, limit: real, x: Result): (r: (seq<Result>, real))
    requires AllWellFormed(rs) && WellFormed(x)
    ensures x.score <= 0.0 || x.score < limit ==> r == (rs, limit)
  {
    if x.score > 0.0 && x.score >= limit then
      var (rs', added) := AddResult(rs, k, x);
      if added then (rs', if |rs'| >= k then rs'[|rs'| - 1].score else 0.0) else (rs', limit)
    else (rs, limit)
  }

  /** Offering a scored queued path keeps the list what Mining returns. */
  lemma OfferKeeps(space: Graph.Graph, infos: NodeInfoCollection.NodeInfoCollection,
                   score: ExecutePath.ExecutePath -> (real, real), k: int, rs: seq<Result>, limit: real, x: Result)
    requires Returned(space, infos, score, k, rs) && Queued(space, infos, x.path) && |x.path.edges| <= 5
    requires score(x.path) == (x.score, x.maxPossibleScore)
    ensures AllWellFormed(rs) && WellFormed(x)
    ensures Returned(space, infos, score, k, Offer(rs, k, limit, x).0)
  {
    assert AllWellFormed(rs);
    if x.score > 0.0 && x.score >= limit {
      ScoreStep(space, infos, score, k, rs, x);
    }
  }

  /** Expanding the path taken off the queue: the queue with the passing
      extensions appended, all queued, lighter than the queue was with the
      path; the check's exception, thrown only when a vertex of the search
      space is missing from the node table. */
  method Expand(space: Graph.Graph, infos: NodeInfoCollection.NodeInfoCollection,
                queue: seq<ExecutePath.ExecutePath>, p: ExecutePath.ExecutePath) returns (r: Outcome<seq<ExecutePath.ExecutePath>>)
    requires Graph.Valid(space) && Queued(space, infos, p) && |p.edges| <= 5
    requires AllQueued(space, infos, queue)
    ensures Last(p) in space.vectors
    ensures r.Ok? ==> |queue| <= |r.value| && r.value[..|queue|] == queue
    ensures r.Ok? ==> AllQueued(space, infos, r.value)
    ensures r.Ok? ==> QueueWeight(|space.edges|, r.value) < QueueWeight(|space.edges|, queue) + Weight(|space.edges|, p)
    ensures r.Err? ==> r.error == ArgumentOutOfRange && !AllKnown(space, infos)
  {
    EnqueueStep(space, infos, queue, p);
    var next := Extensions(infos, p, space.vectors[Last(p)].outEdges);
    if next.Err? {
      var i := ExtensionFailure(infos, p, space.vectors[Last(p)].outEdges);
      ExpandFails(space, infos, p, i);
      return Err(next.error);
    }
    return Ok(queue + next.value);
  }

  /** Every edge of the search space seeds a queued path. */
  lemma SeedQueued(space: Graph.Graph, infos: NodeInfoCollection.NodeInfoCollection, i: int)
    requires Graph.Valid(space) && 0 <= i < |space.edges|
    ensures Queued(space, infos, ExecutePath.Seed(space.edges[i]))
  {
    var e := space.edges[i];
    assert Graph.HasEdge(space, e);
  }
}
