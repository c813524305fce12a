/** A scored path (OJWebService/Graphs/Result.cs) and the order the miner
    keeps its results in: higher score first, then fewer edges, then the
    node sequences lexicographically. The source compares scores with a
    tolerance; the model compares them exactly. The display text and the
    extra data are not modelled. */
module PathResult {
  import opened Wrappers
  import ExecutePath
  import Edge

  datatype Result = Result(path: ExecutePath.ExecutePath, score: real, maxPossibleScore: real)

  /** What every result the miner builds satisfies: its path is a simple
      constructed path. */
  ghost predicate WellFormed(r: Result) {
    ExecutePath.Simple(r.path)
  }

  // ---------------------------------------------------------------------
  // The order as the source computes it

  /** DoubleComparer.Compare without the tolerance. */
  function CompareScores(a: real, b: real): (r: int)
    ensures r == 0 <==> a == b
    ensures r < 0 <==> a < b
    ensures -1 <= r <= 1
  {
    if a < b then -1 else if a > b then 1 else 0
  }

  /** The loop over this result's nodes from position `i`; it reads the
      other result's nodes through IList<int>, whose indexer throws past
      the end. */
  function CompareNodes(x: seq<int>, y: seq<int>, i: nat): (r: Outcome<int>)
    requires i <= |x|
    ensures r.Err? ==> r.error == ArgumentOutOfRange
    ensures r.Ok? ==> -1 <= r.value <= 1
    decreases |x| - i
  {
    if i == |x| then Ok(0)
    else if i >= |y| then Err(ArgumentOutOfRange)
    else if x[i] < y[i] then Ok(-1)
    else if x[i] > y[i] then Ok(1)
    else CompareNodes(x, y, i + 1)
  }

  /** CompareTo. */
  function CompareTo(a: Result, b: Result): (r: Outcome<int>)
    ensures r.Err? ==> r.error == ArgumentOutOfRange && a.score == b.score && |a.path.edges| == |b.path.edges|
    ensures a.score != b.score ==> r.Ok? && (r.value < 0 <==> a.score > b.score)
    ensures a.score == b.score && |a.path.edges| != |b.path.edges| ==> r.Ok? && (r.value < 0 <==> |a.path.edges| < |b.path.edges|)
  {
    var cmp := CompareScores(a.score, b.score);
    if cmp != 0 then Ok(-cmp)
    else
      var cmp := |a.path.edges| - |b.path.edges|;
      if cmp != 0 then Ok(cmp)
      else CompareNodes(a.path.nodes, b.path.nodes, 0)
  }

  // ---------------------------------------------------------------------
  // The order as a definition

  /** `x` comes first lexicographically: at the first position where they
      differ, `x` holds the smaller node. */
  predicate LexLess(x: seq<int>, y: seq<int>) {
    |x| > 0 && |y| > 0 && (x[0] < y[0] || (x[0] == y[0] && LexLess(x[1..], y[1..])))
  }

  /** `a` is ranked strictly before `b`. */
  predicate Precedes(a: Result, b: Result) {
    || a.score > b.score
    || (a.score == b.score && |a.path.edges| < |b.path.edges|)
    || (a.score == b.score && |a.path.edges| == |b.path.edges| && LexLess(a.path.nodes, b.path.nodes))
  }

  lemma {:induction false} LexLessAsymmetric(x: seq<int>, y: seq<int>)
    requires LexLess(x, y)
    ensures !LexLess(y, x)
  {
    if x[0] == y[0] {
      LexLessAsymmetric(x[1..], y[1..]);
    }
  }

  lemma {:induction false} LexLessTransitive(x: seq<int>, y: seq<int>, z: seq<int>)
    requires LexLess(x, y) && LexLess(y, z)
    ensures LexLess(x, z)
  {
    if x[0] == y[0] == z[0] {
      LexLessTransitive(x[1..], y[1..], z[1..]);
    }
  }

  /** The node loop from position `i`, on sequences of the same length,
      computes the lexicographic comparison of what is left of them. */
  lemma {:induction false} CompareNodesLex(x: seq<int>, y: seq<int>, i: nat)
    requires |x| == |y| && i <= |x|
    ensures CompareNodes(x, y, i).Ok?
    ensures CompareNodes(x, y, i).value == 0 <==> x[i..] == y[i..]
    ensures CompareNodes(x, y, i).value < 0 <==> LexLess(x[i..], y[i..])
    ensures CompareNodes(x, y, i).value > 0 <==> LexLess(y[i..], x[i..])
    decreases |x| - i
  {
    if i < |x| {
      assert x[i..][0] == x[i] && y[i..][0] == y[i];
      assert x[i..][1..] == x[i + 1..] && y[i..][1..] == y[i + 1..];
      if x[i] == y[i] {
        CompareNodesLex(x, y, i + 1);
        assert x[i..] == [x[i]] + x[i + 1..] && y[i..] == [y[i]] + y[i + 1..];
      }
    }
  }

  // ---------------------------------------------------------------------
  // CompareTo computes the order

  /** On results the miner builds, CompareTo never throws, is negative
      exactly when the first is ranked before the second, positive exactly
      when it is ranked after, and zero exactly for equal score and path. */
  lemma CompareToMeaning(a: Result, b: Result)
    requires WellFormed(a) && WellFormed(b)
    ensures CompareTo(a, b).Ok?
    ensures CompareTo(a, b).value < 0 <==> Precedes(a, b)
    ensures CompareTo(a, b).value > 0 <==> Precedes(b, a)
    ensures CompareTo(a, b).value == 0 <==> a.score == b.score && a.path == b.path
  {
    if a.score == b.score && |a.path.edges| == |b.path.edges| {
      CompareNodesLex(a.path.nodes, b.path.nodes, 0);
      assert a.path.nodes[0..] == a.path.nodes && b.path.nodes[0..] == b.path.nodes;
      if a.path.nodes == b.path.nodes {
        assert a.path.edges == ExecutePath.Steps(a.path.nodes) == b.path.edges;
      }
    }
  }

  /** A result compares equal to itself. */
  lemma CompareToReflexive(a: Result)
    ensures CompareTo(a, a) == Ok(0)
  {
    CompareNodesSame(a.path.nodes, 0);
  }

  lemma {:induction false} CompareNodesSame(x: seq<int>, i: nat)
    requires i <= |x|
    ensures CompareNodes(x, x, i) == Ok(0)
    decreases |x| - i
  {
    if i < |x| {
      CompareNodesSame(x, i + 1);
    }
  }

  /** Swapping the operands flips the sign of the comparison. */
  lemma CompareToAntisymmetric(a: Result, b: Result)
    requires WellFormed(a) && WellFormed(b)
    ensures CompareTo(a, b).Ok? && CompareTo(b, a).Ok?
    ensures CompareTo(a, b).value < 0 <==> CompareTo(b, a).value > 0
    ensures CompareTo(a, b).value == 0 <==> CompareTo(b, a).value == 0
  {
    CompareToMeaning(a, b);
    CompareToMeaning(b, a);
  }

  /** No result is ranked before one it is ranked after. */
  lemma PrecedesAsymmetric(a: Result, b: Result)
    requires Precedes(a, b)
    ensures !Precedes(b, a)
  {
    if a.score == b.score && |a.path.edges| == |b.path.edges| {
      LexLessAsymmetric(a.path.nodes, b.path.nodes);
    }
  }

  /** No result is ranked before itself. */
  lemma PrecedesIrreflexive(a: Result)
    ensures !Precedes(a, a)
  {
    if Precedes(a, a) {
      PrecedesAsymmetric(a, a);
    }
  }

  /** The ranking is transitive. */
  lemma PrecedesTransitive(a: Result, b: Result, c: Result)
    requires Precedes(a, b) && Precedes(b, c)
    ensures Precedes(a, c)
  {
    if a.score == b.score == c.score && |a.path.edges| == |b.path.edges| == |c.path.edges| {
      LexLessTransitive(a.path.nodes, b.path.nodes, c.path.nodes);
    }
  }

  /** Two results the miner builds are ranked one before the other unless
      they have the same score and the same path. */
  lemma PrecedesTotal(a: Result, b: Result)
    requires WellFormed(a) && WellFormed(b)
    ensures Precedes(a, b) || Precedes(b, a) || (a.score == b.score && a.path == b.path)
  {
    CompareToMeaning(a, b);
  }

  /** CompareTo is transitive on results the miner builds, as a sort needs. */
  lemma CompareToTransitive(a: Result, b: Result, c: Result)
    requires WellFormed(a) && WellFormed(b) && WellFormed(c)
    requires CompareTo(a, b).Ok? && CompareTo(a, b).value <= 0
    requires CompareTo(b, c).Ok? && CompareTo(b, c).value <= 0
    ensures CompareTo(a, c).Ok? && CompareTo(a, c).value <= 0
    ensures CompareTo(a, b).value < 0 || CompareTo(b, c).value < 0 ==> CompareTo(a, c).value < 0
  {
    CompareToMeaning(a, b);
    CompareToMeaning(b, c);
    CompareToMeaning(a, c);
    if Precedes(a, b) && Precedes(b, c) {
      PrecedesTransitive(a, b, c);
    }
  }

  /** On a path that retraces an edge, edge counts no longer tell node
      counts apart, and CompareTo throws when the other path is the
      shorter: 1, 2, 1, 2 against 1, 2, 1, both with the edges (1, 2) and
      (2, 1). */
  lemma CompareToMayThrow()
    ensures var a := Result(ExecutePath.ExecutePath({Edge.EdgeKey(1, 2), Edge.EdgeKey(2, 1)}, [1, 2, 1, 2]), 1.0, 1.0);
      var b := Result(ExecutePath.ExecutePath({Edge.EdgeKey(1, 2), Edge.EdgeKey(2, 1)}, [1, 2, 1]), 1.0, 1.0);
      CompareTo(a, b) == Err(ArgumentOutOfRange)
  {
    var p, q := Edge.EdgeKey(1, 2), Edge.EdgeKey(2, 1);
    assert p != q;
    assert |{p, q}| == |{p} + {q}| == 2;
    assert [1, 2, 1, 2][0] == 1 && [1, 2, 1, 2][1] == 2 && [1, 2, 1, 2][2] == 1;
    assert [1, 2, 1][0] == 1 && [1, 2, 1][1] == 2 && [1, 2, 1][2] == 1;
  }
}
