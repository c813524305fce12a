/** A path explored by the miner (OJWebService/Graphs/ExecutePath.cs): the
    node sequence and the set of edges between consecutive nodes. Edges are
    compared by their endpoints only, so the set holds `EdgeKey`s. The
    `Data` slot used by the score functions is not modelled. */
module ExecutePath {
  import opened Edge

  datatype ExecutePath = ExecutePath(edges: set<EdgeKey>, nodes: seq<int>)

  /** The consecutive node pairs of a node sequence. */
  function Steps(nodes: seq<int>): set<EdgeKey> {
    set i | 0 <= i < |nodes| - 1 :: StepAt(nodes, i)
  }

  /** The step from position `i` to position `i + 1`. */
  function StepAt(nodes: seq<int>, i: int): EdgeKey
    requires 0 <= i < |nodes| - 1
  {
    EdgeKey(nodes[i], nodes[i + 1])
  }

  /** What every constructed path satisfies: at least the two nodes of its
      seed edge, and exactly the consecutive pairs as its edges. */
  ghost predicate Valid(p: ExecutePath) {
    |p.nodes| >= 2 && p.edges == Steps(p.nodes)
  }

  /** What every path the miner builds satisfies as well: one edge per step,
      so no step repeats an edge. */
  ghost predicate Simple(p: ExecutePath) {
    Valid(p) && |p.edges| == |p.nodes| - 1
  }

  /** The single-edge constructor; it reads only the endpoints of its edge. */
  function Seed(e: EdgeKey): (p: ExecutePath)
    ensures p.nodes == [e.from, e.to] && p.edges == {e}
    ensures Simple(p)
  {
    var p := ExecutePath({EdgeKey(e.from, e.to)}, [e.from, e.to]);
    assert Steps(p.nodes) == {e} by {
      assert StepAt(p.nodes, 0) in Steps(p.nodes);
    }
    p
  }

  /** ContainsNode: whether any node equals `id`. */
  function ContainsNode(p: ExecutePath, id: int): (r: bool)
    ensures r <==> id in p.nodes
  {
    AnyEqual(p.nodes, id)
  }

  /** Enumerable.Any with the predicate `node == id`. */
  function AnyEqual(nodes: seq<int>, id: int): (r: bool)
    ensures r <==> exists i :: 0 <= i < |nodes| && nodes[i] == id
  {
    if |nodes| == 0 then false else nodes[0] == id || AnyEqual(nodes[1..], id)
  }

  /** Extend: a new path with the node appended and the edge from the last
      node to it added. A constructed path is never empty, so the last node
      always exists. */
  function Extend(p: ExecutePath, node: int): (r: ExecutePath)
    requires |p.nodes| > 0
    ensures |r.nodes| == |p.nodes| + 1 && r.nodes[..|p.nodes|] == p.nodes && r.nodes[|p.nodes|] == node
  {
    ExecutePath(p.edges + {EdgeKey(p.nodes[|p.nodes| - 1], node)}, p.nodes + [node])
  }

  /** Appending a node adds exactly the step from the old last node. */
  lemma StepsAppend(nodes: seq<int>, node: int)
    requires |nodes| > 0
    ensures Steps(nodes + [node]) == Steps(nodes) + {EdgeKey(nodes[|nodes| - 1], node)}
  {
    var n := nodes + [node];
    forall k | k in Steps(n) ensures k in Steps(nodes) + {EdgeKey(nodes[|nodes| - 1], node)} {
      var i :| 0 <= i < |n| - 1 && k == StepAt(n, i);
      if i < |nodes| - 1 {
        assert k == StepAt(nodes, i);
      }
    }
    forall k | k in Steps(nodes) ensures k in Steps(n) {
      var i :| 0 <= i < |nodes| - 1 && k == StepAt(nodes, i);
      assert k == StepAt(n, i);
    }
    assert StepAt(n, |nodes| - 1) in Steps(n);
  }

  /** Every step ends at a node of the sequence. */
  lemma StepEndsOnPath(nodes: seq<int>, k: EdgeKey)
    requires k in Steps(nodes)
    ensures k.from in nodes && k.to in nodes
  {
    var i :| 0 <= i < |nodes| - 1 && k == StepAt(nodes, i);
  }

  /** Extending keeps a path constructed: its edges stay the consecutive
      pairs of its nodes. */
  lemma ExtendValid(p: ExecutePath, node: int)
    requires Valid(p)
    ensures Valid(Extend(p, node))
    ensures Extend(p, node).edges == p.edges + {EdgeKey(p.nodes[|p.nodes| - 1], node)}
  {
    StepsAppend(p.nodes, node);
  }

  /** Extending by a node not on the path adds a new edge, so one edge per
      step is kept. */
  lemma ExtendSimple(p: ExecutePath, node: int)
    requires Simple(p) && !ContainsNode(p, node)
    ensures Simple(Extend(p, node))
    ensures |Extend(p, node).edges| == |p.edges| + 1
  {
    ExtendValid(p, node);
    var k := EdgeKey(p.nodes[|p.nodes| - 1], node);
    if k in p.edges {
      StepEndsOnPath(p.nodes, k);
      assert false;
    }
  }

  /** Extending by a node already on the path can repeat an edge: from the
      path 1, 2, 1 the node 2 retraces the edge (1, 2). */
  lemma ExtendMayRepeat()
    ensures var p := Extend(Extend(Seed(EdgeKey(1, 2)), 1), 2);
      Valid(p) && |p.edges| == 2 && |p.nodes| == 4
  {
    var s := Seed(EdgeKey(1, 2));
    ExtendValid(s, 1);
    var q := Extend(s, 1);
    ExtendValid(q, 2);
    assert q.edges == {EdgeKey(1, 2), EdgeKey(2, 1)};
    assert Extend(q, 2).edges == {EdgeKey(1, 2), EdgeKey(2, 1)};
    assert EdgeKey(1, 2) != EdgeKey(2, 1);
  }
}
