/** A software behaviour graph (OJWebService/Graphs/Graph.cs): the nodes a
    run visited, the transitions it made between consecutive nodes, and how
    often it made each.

    The source keeps the vertices in a Dictionary keyed by id and the edges
    in a HashSet whose elements are the very Edge objects the vertices own.
    Here the vertices are a map and the edge set is the sequence of edge
    keys in insertion order (the order a HashSet without removals
    enumerates); the counters of an edge live in its from-vertex, so both
    views of one edge always agree, as the shared objects do. */
module Graph {
  import opened Wrappers
  import opened Edge
  import Vector
  import NodeInfoCollection
  import TraceSet

  datatype Graph = Graph(vectors: map<int, Vector.Vector>, edges: seq<EdgeKey>, isSuccessful: bool)

  function Empty(): (g: Graph)
    ensures |g.vectors| == 0 && |g.edges| == 0
  {
    Graph(map[], [], false)
  }

  /** GetVector: TryGetValue leaves null behind for an unknown id. */
  function GetVector(g: Graph, id: int): (r: Option<Vector.Vector>)
    ensures r.Some? <==> id in g.vectors
    ensures r.Some? ==> r.value == g.vectors[id]
  {
    if id in g.vectors then Some(g.vectors[id]) else None
  }

  /** GetEdge: null when the from-vertex is unknown or has no edge to `to`. */
  function GetEdge(g: Graph, from: int, to: int): (r: Option<Edge>)
    ensures r.Some? ==> from in g.vectors && r.value.to == to
  {
    match GetVector(g, from)
    case None => None
    case Some(v) => Vector.GetEdge(v, to)
  }

  predicate HasEdge(g: Graph, k: EdgeKey) {
    GetEdge(g, k.from, k.to).Some?
  }

  /** How often the run took the edge; 0 for an edge the graph lacks. */
  function EdgeCount(g: Graph, k: EdgeKey): int {
    match GetEdge(g, k.from, k.to)
    case None => 0
    case Some(e) => e.executeCount
  }

  /** How often the run visited the vertex; 0 for a vertex the graph lacks. */
  function VertexCount(g: Graph, id: int): int {
    if id in g.vectors then g.vectors[id].executeCount else 0
  }

  // ---------------------------------------------------------------------
  // The invariant
  // ---------------------------------------------------------------------

  /** Every vertex is stored under its own id and is itself valid. */
  predicate VectorsValid(g: Graph) {
    forall id :: id in g.vectors ==> g.vectors[id].id == id && Vector.Valid(g.vectors[id])
  }

  /** Every edge ends at a vertex of the graph and has been taken at least once. */
  ghost predicate EdgesWellFormed(g: Graph) {
    forall a, b :: GetEdge(g, a, b).Some? ==> b in g.vectors && GetEdge(g, a, b).value.executeCount >= 1
  }

  /** The edge set holds each edge of the vertices exactly once. */
  ghost predicate EdgesListed(g: Graph) {
    && (forall i, j :: 0 <= i < j < |g.edges| ==> g.edges[i] != g.edges[j])
    && (forall k :: k in g.edges <==> HasEdge(g, k))
  }

  ghost predicate Valid(g: Graph) {
    VectorsValid(g) && EdgesWellFormed(g) && EdgesListed(g)
  }

  lemma EmptyValid()
    ensures Valid(Empty())
  {
  }

  // ---------------------------------------------------------------------
  // AddEdge
  // ---------------------------------------------------------------------

  /** A vertex added on first sight, with no executions and no edges. */
  function AddVertex(g: Graph, id: int): (r: Graph)
    ensures id in r.vectors && r.edges == g.edges && r.isSuccessful == g.isSuccessful
  {
    if id in g.vectors then g else g.(vectors := g.vectors[id := Vector.NewVector(id)])
  }

  /** One more execution of the vertex `id`. */
  function CountVisit(g: Graph, id: int): (r: Graph)
    requires id in g.vectors
    ensures r.vectors.Keys == g.vectors.Keys && r.edges == g.edges && r.isSuccessful == g.isSuccessful
  {
    var v := g.vectors[id];
    g.(vectors := g.vectors[id := v.(executeCount := v.executeCount + 1)])
  }

  /** The first two steps of AddEdge: a new from-vertex is created and
      counted at once, a new to-vertex is only created. */
  function AddEndpoints(g: Graph, from: int, to: int): (r: Graph)
    ensures from in r.vectors && to in r.vectors && r.edges == g.edges && r.isSuccessful == g.isSuccessful
  {
    var g1 := if from in g.vectors then g else CountVisit(AddVertex(g, from), from);
    AddVertex(g1, to)
  }

  /** The edge from `from` to `to`, fetched or created by the from-vertex,
      taken once more. */
  function TakeEdge(g: Graph, from: int, to: int): (r: Graph)
    requires from in g.vectors
    ensures r.vectors.Keys == g.vectors.Keys && r.edges == g.edges && r.isSuccessful == g.isSuccessful
  {
    var (fv, e) := Vector.GetOrAddEdge(g.vectors[from], to);
    g.(vectors := g.vectors[from := Vector.SetEdge(fv, e.(executeCount := e.executeCount + 1))])
  }

  /** AddEdge: one transition from `from` to `to`. The to-vertex and the
      edge are counted; the from-vertex only when it is new, since its
      visit was counted when it was entered. */
  function AddEdge(g: Graph, from: int, to: int): (r: Graph)
    ensures r.isSuccessful == g.isSuccessful
    ensures r.vectors.Keys == g.vectors.Keys + {from, to}
  {
    var g1 := AddEndpoints(g, from, to);
    var e := Vector.GetOrAddEdge(g1.vectors[from], to).1;
    var g2 := CountVisit(TakeEdge(g1, from, to), to);
    g2.(edges := if Key(e) in g.edges then g.edges else g.edges + [Key(e)])
  }

  /** The edge (from, to) after AddEdge: the old one taken once more, or a
      new one taken once. */
  function Taken(g: Graph, from: int, to: int): Edge {
    match GetEdge(g, from, to)
    case Some(e) => e.(executeCount := e.executeCount + 1)
    case None => Edge(from, to, 1, 0.0)
  }

  /** Storing a valid vector under its own id keeps the vertices valid. */
  lemma UpdateVectorValid(g: Graph, v: Vector.Vector)
    requires VectorsValid(g) && Vector.Valid(v)
    ensures VectorsValid(g.(vectors := g.vectors[v.id := v]))
  {
  }

  lemma AddVertexMeaning(g: Graph, id: int, a: int, b: int)
    requires VectorsValid(g)
    ensures var r := AddVertex(g, id);
      && VectorsValid(r) && r.vectors.Keys == g.vectors.Keys + {id}
      && GetEdge(r, a, b) == GetEdge(g, a, b) && VertexCount(r, a) == VertexCount(g, a)
  {
    if id !in g.vectors && a == id {
      Vector.NewVectorHasNoEdge(id, b);
    }
  }

  lemma CountVisitMeaning(g: Graph, id: int, a: int, b: int)
    requires VectorsValid(g) && id in g.vectors
    ensures var r := CountVisit(g, id);
      && VectorsValid(r)
      && GetEdge(r, a, b) == GetEdge(g, a, b)
      && VertexCount(r, a) == VertexCount(g, a) + (if a == id then 1 else 0)
  {
    if a == id {
      Vector.GetEdgeSameOutEdges(CountVisit(g, id).vectors[id], g.vectors[id], b);
    }
  }

  lemma TakeEdgeValid(g: Graph, from: int, to: int)
    requires VectorsValid(g) && from in g.vectors
    ensures VectorsValid(TakeEdge(g, from, to))
    ensures Key(Vector.GetOrAddEdge(g.vectors[from], to).1) == EdgeKey(from, to)
  {
    var v := g.vectors[from];
    var (fv, e) := Vector.GetOrAddEdge(v, to);
    Vector.GetOrAddEdgeMeaning(v, to);
    var e' := e.(executeCount := e.executeCount + 1);
    Vector.SetEdgeMeaning(fv, e', to);
    var w := Vector.SetEdge(fv, e');
    assert w.id == from;
    UpdateVectorValid(g, w);
    assert TakeEdge(g, from, to) == g.(vectors := g.vectors[w.id := w]);
  }

  /** The edge of the from-vertex to `b` after TakeEdge. */
  lemma TakeEdgeFrom(g: Graph, from: int, to: int, b: int)
    requires VectorsValid(g) && from in g.vectors
    ensures GetEdge(TakeEdge(g, from, to), from, b) == if b == to then Some(Taken(g, from, to)) else GetEdge(g, from, b)
  {
    var v := g.vectors[from];
    var (fv, e) := Vector.GetOrAddEdge(v, to);
    Vector.GetOrAddEdgeMeaning(v, to);
    var e' := e.(executeCount := e.executeCount + 1);
    Vector.SetEdgeMeaning(fv, e', b);
    assert TakeEdge(g, from, to).vectors[from] == Vector.SetEdge(fv, e');
    if b != to {
      Vector.GetOrAddEdgeOthers(v, to, b);
    } else if GetEdge(g, from, to).None? {
      assert e == NewEdge(from, to);
    }
  }

  lemma TakeEdgeMeaning(g: Graph, from: int, to: int, a: int, b: int)
    requires VectorsValid(g) && from in g.vectors
    ensures var r := TakeEdge(g, from, to);
      && GetEdge(r, a, b) == (if a == from && b == to then Some(Taken(g, from, to)) else GetEdge(g, a, b))
      && VertexCount(r, a) == VertexCount(g, a)
  {
    if a == from {
      TakeEdgeFrom(g, from, to, b);
    } else {
      assert a in g.vectors ==> TakeEdge(g, from, to).vectors[a] == g.vectors[a];
    }
  }

  /** AddEndpoints adds vertices without edges and changes no edge. */
  lemma AddEndpointsMeaning(g: Graph, from: int, to: int, a: int, b: int)
    requires VectorsValid(g)
    ensures var r := AddEndpoints(g, from, to);
      && r.vectors.Keys == g.vectors.Keys + {from, to}
      && VectorsValid(r)
      && GetEdge(r, a, b) == GetEdge(g, a, b)
      && VertexCount(r, a) == VertexCount(g, a) + (if a == from && from !in g.vectors then 1 else 0)
  {
    var g1 := if from in g.vectors then g else CountVisit(AddVertex(g, from), from);
    if from !in g.vectors {
      AddVertexMeaning(g, from, a, b);
      CountVisitMeaning(AddVertex(g, from), from, a, b);
    }
    AddVertexMeaning(g1, to, a, b);
  }

  /** The shape of the graph after AddEdge: the endpoints are vertices and
      the edge set gains (from, to) when it lacked it. */
  lemma AddEdgeShape(g: Graph, from: int, to: int)
    requires VectorsValid(g)
    ensures var r := AddEdge(g, from, to);
      && VectorsValid(r)
      && r.vectors.Keys == g.vectors.Keys + {from, to}
      && r.edges == if EdgeKey(from, to) in g.edges then g.edges else g.edges + [EdgeKey(from, to)]
  {
    var g1 := AddEndpoints(g, from, to);
    AddEndpointsMeaning(g, from, to, from, to);
    TakeEdgeValid(g1, from, to);
    CountVisitMeaning(TakeEdge(g1, from, to), to, from, to);
  }

  /** The effect of AddEdge on one edge: (from, to) becomes Taken and
      every other edge is left as it was. */
  lemma AddEdgeEdgeAt(g: Graph, from: int, to: int, a: int, b: int)
    requires VectorsValid(g)
    ensures GetEdge(AddEdge(g, from, to), a, b) == if a == from && b == to then Some(Taken(g, from, to)) else GetEdge(g, a, b)
  {
    var g1 := AddEndpoints(g, from, to);
    AddEndpointsMeaning(g, from, to, a, b);
    AddEndpointsMeaning(g, from, to, from, to);
    assert Taken(g1, from, to) == Taken(g, from, to);
    TakeEdgeValid(g1, from, to);
    TakeEdgeMeaning(g1, from, to, a, b);
    var g2 := TakeEdge(g1, from, to);
    CountVisitMeaning(g2, to, a, b);
    assert AddEdge(g, from, to).vectors == CountVisit(g2, to).vectors;
  }

  /** The effect of AddEdge on one vertex: the to-vertex is counted, and
      the from-vertex only when it is new. */
  lemma AddEdgeVisitAt(g: Graph, from: int, to: int, a: int)
    requires VectorsValid(g)
    ensures VertexCount(AddEdge(g, from, to), a) == VertexCount(g, a) + (if a == to then 1 else 0)
                                                   + (if a == from && from !in g.vectors then 1 else 0)
  {
    var g1 := AddEndpoints(g, from, to);
    AddEndpointsMeaning(g, from, to, a, a);
    TakeEdgeValid(g1, from, to);
    TakeEdgeMeaning(g1, from, to, a, a);
    CountVisitMeaning(TakeEdge(g1, from, to), to, a, a);
  }

  lemma AddEdgeStep(g: Graph, from: int, to: int, a: int, b: int)
    requires VectorsValid(g)
    ensures var r := AddEdge(g, from, to);
      && GetEdge(r, a, b) == (if a == from && b == to then Some(Taken(g, from, to)) else GetEdge(g, a, b))
      && VertexCount(r, a) == VertexCount(g, a) + (if a == to then 1 else 0)
                                               + (if a == from && from !in g.vectors then 1 else 0)
  {
    AddEdgeEdgeAt(g, from, to, a, b);
    AddEdgeVisitAt(g, from, to, a);
  }

  /** AddEdge adds exactly the edge (from, to). */
  lemma AddEdgeHasEdge(g: Graph, from: int, to: int)
    requires VectorsValid(g)
    ensures forall k :: HasEdge(AddEdge(g, from, to), k) <==> HasEdge(g, k) || k == EdgeKey(from, to)
  {
    forall k: EdgeKey ensures HasEdge(AddEdge(g, from, to), k) <==> HasEdge(g, k) || k == EdgeKey(from, to) {
      AddEdgeStep(g, from, to, k.from, k.to);
    }
  }

  lemma AddEdgeWellFormed(g: Graph, from: int, to: int)
    requires VectorsValid(g) && EdgesWellFormed(g)
    ensures EdgesWellFormed(AddEdge(g, from, to))
  {
    var r := AddEdge(g, from, to);
    AddEdgeShape(g, from, to);
    forall a, b | GetEdge(r, a, b).Some? ensures b in r.vectors && GetEdge(r, a, b).value.executeCount >= 1 {
      AddEdgeStep(g, from, to, a, b);
    }
  }

  lemma AddEdgeListed(g: Graph, from: int, to: int)
    requires VectorsValid(g) && EdgesListed(g)
    ensures EdgesListed(AddEdge(g, from, to))
  {
    var k0 := EdgeKey(from, to);
    AddEdgeShape(g, from, to);
    AddEdgeHasEdge(g, from, to);
    if k0 !in g.edges {
      AppendDistinct(g.edges, k0);
    }
  }

  /** AddEdge keeps the invariant and adds exactly the edge (from, to). */
  lemma AddEdgeValid(g: Graph, from: int, to: int)
    requires Valid(g)
    ensures var r := AddEdge(g, from, to);
      && Valid(r)
      && (forall k :: HasEdge(r, k) <==> HasEdge(g, k) || k == EdgeKey(from, to))
  {
    AddEdgeShape(g, from, to);
    AddEdgeWellFormed(g, from, to);
    AddEdgeListed(g, from, to);
    AddEdgeHasEdge(g, from, to);
  }

  /** Appending a new element keeps a sequence free of duplicates. */
  lemma AppendDistinct<T>(s: seq<T>, x: T)
    requires forall i, j :: 0 <= i < j < |s| ==> s[i] != s[j]
    requires x !in s
    ensures forall i, j :: 0 <= i < j < |s + [x]| ==> (s + [x])[i] != (s + [x])[j]
    ensures forall y :: y in s + [x] <==> y in s || y == x
  {
  }

  /** AddEdge takes the edge (from, to) once more and no other; it counts
      the to-vertex, and the from-vertex only when it is new. */
  lemma AddEdgeCounts(g: Graph, from: int, to: int)
    requires VectorsValid(g)
    ensures var r := AddEdge(g, from, to);
      && (forall k :: EdgeCount(r, k) == EdgeCount(g, k) + (if k == EdgeKey(from, to) then 1 else 0))
      && (forall id :: VertexCount(r, id) == VertexCount(g, id) + (if id == to then 1 else 0)
                                                  + (if id == from && from !in g.vectors then 1 else 0))
  {
    var r := AddEdge(g, from, to);
    forall k: EdgeKey ensures EdgeCount(r, k) == EdgeCount(g, k) + (if k == EdgeKey(from, to) then 1 else 0) {
      AddEdgeStep(g, from, to, k.from, k.to);
    }
    forall id ensures VertexCount(r, id) == VertexCount(g, id) + (if id == to then 1 else 0)
                                                  + (if id == from && from !in g.vectors then 1 else 0) {
      AddEdgeStep(g, from, to, id, id);
    }
  }

  // ---------------------------------------------------------------------
  // The graph of one run
  // ---------------------------------------------------------------------

  /** The transitions of a run: each node paired with the next one. */
  function Transitions(nodes: seq<int>): (r: seq<EdgeKey>)
    ensures |r| == if |nodes| < 2 then 0 else |nodes| - 1
  {
    if |nodes| < 2 then []
    else seq(|nodes| - 1, i requires 0 <= i < |nodes| - 1 => EdgeKey(nodes[i], nodes[i + 1]))
  }

  /** The edge loop of the trace constructor: `last` is the previous node,
      or the sentinel -1 before the first one (node ids are never negative,
      so the sentinel cannot be taken for a node). */
  function AddTrace(g: Graph, last: int, nodes: seq<nat>): (r: Graph)
    ensures r.isSuccessful == g.isSuccessful
    decreases |nodes|
  {
    if |nodes| == 0 then g
    else AddTrace(if last != -1 then AddEdge(g, last, nodes[0]) else g, nodes[0], nodes[1..])
  }

  /** The vertices and edges of the run `nodes`, before the frequencies. */
  function TraceGraph(isSuccessful: bool, nodes: seq<nat>): (r: Graph)
    ensures r.isSuccessful == isSuccessful
  {
    AddTrace(Empty().(isSuccessful := isSuccessful), -1, nodes)
  }

  lemma TransitionsCons(x: int, s: seq<int>)
    requires |s| >= 1
    ensures Transitions([x] + s) == [EdgeKey(x, s[0])] + Transitions(s)
  {
    var t := [x] + s;
    assert forall i :: 0 <= i < |t| - 1 ==> Transitions(t)[i] == EdgeKey(t[i], t[i + 1]);
    if |s| >= 2 {
      assert forall i :: 1 <= i < |t| - 1 ==> Transitions(t)[i] == Transitions(s)[i - 1];
    }
  }

  /** The transitions after `last` are its step to the first node followed
      by the transitions of the nodes, counted as a multiset. */
  lemma TransitionsStep(last: int, nodes: seq<int>)
    requires |nodes| >= 1
    ensures multiset(Transitions([last] + nodes))
         == multiset{EdgeKey(last, nodes[0])} + multiset(Transitions([nodes[0]] + nodes[1..]))
  {
    assert [nodes[0]] + nodes[1..] == nodes;
    TransitionsCons(last, nodes);
  }

  lemma {:induction false} AddTraceValid(g: Graph, last: int, nodes: seq<nat>)
    requires Valid(g)
    ensures Valid(AddTrace(g, last, nodes))
    decreases |nodes|
  {
    if |nodes| > 0 {
      if last != -1 {
        AddEdgeValid(g, last, nodes[0]);
      }
      AddTraceValid(if last != -1 then AddEdge(g, last, nodes[0]) else g, nodes[0], nodes[1..]);
    }
  }

  /** Every edge is counted once per transition of the run that takes it. */
  lemma {:induction false} AddTraceEdgeCounts(g: Graph, last: nat, nodes: seq<nat>)
    requires VectorsValid(g)
    ensures forall k :: EdgeCount(AddTrace(g, last, nodes), k) == EdgeCount(g, k) + multiset(Transitions([last] + nodes))[k]
    decreases |nodes|
  {
    if |nodes| == 0 {
      assert Transitions([last] + nodes) == [];
    } else {
      var g' := AddEdge(g, last, nodes[0]);
      AddEdgeCounts(g, last, nodes[0]);
      AddEdgeShape(g, last, nodes[0]);
      AddTraceEdgeCounts(g', nodes[0], nodes[1..]);
      TransitionsStep(last, nodes);
    }
  }

  /** Once the previous node is a vertex, every node of the rest of the run
      becomes a vertex and is counted once per occurrence. */
  lemma AddTraceVertexCounts(g: Graph, last: nat, nodes: seq<nat>)
    requires VectorsValid(g) && last in g.vectors
    ensures var r := AddTrace(g, last, nodes);
      && (forall id :: id in r.vectors <==> id in g.vectors || id in nodes)
      && (forall id :: VertexCount(r, id) == VertexCount(g, id) + multiset(nodes)[id])
  {
    forall id ensures var r := AddTrace(g, last, nodes);
      (id in r.vectors <==> id in g.vectors || id in nodes) && VertexCount(r, id) == VertexCount(g, id) + multiset(nodes)[id]
    {
      AddTraceVisitAt(g, last, nodes, id);
    }
  }

  lemma {:induction false} AddTraceVisitAt(g: Graph, last: nat, nodes: seq<nat>, id: int)
    requires VectorsValid(g) && last in g.vectors
    ensures var r := AddTrace(g, last, nodes);
      && (id in r.vectors <==> id in g.vectors || id in nodes)
      && VertexCount(r, id) == VertexCount(g, id) + multiset(nodes)[id]
    decreases |nodes|
  {
    if |nodes| > 0 {
      var g' := AddEdge(g, last, nodes[0]);
      AddEdgeVisitAt(g, last, nodes[0], id);
      AddEdgeShape(g, last, nodes[0]);
      AddTraceVisitAt(g', nodes[0], nodes[1..], id);
      MultisetFirst(nodes);
    }
  }

  /** One step of the edge loop. */
  lemma AddTraceUnfold(g: Graph, last: int, nodes: seq<nat>)
    requires |nodes| > 0
    ensures AddTrace(g, last, nodes) == AddTrace(if last != -1 then AddEdge(g, last, nodes[0]) else g, nodes[0], nodes[1..])
  {
  }

  /** The sentinel makes the first node only the previous node of the second. */
  lemma AddTraceFirst(g: Graph, nodes: seq<nat>)
    requires |nodes| >= 2
    ensures AddTrace(g, -1, nodes) == AddTrace(AddEdge(g, nodes[0], nodes[1]), nodes[1], nodes[2..])
  {
    AddTraceUnfold(g, -1, nodes);
    AddTraceUnfold(g, nodes[0], nodes[1..]);
    assert nodes[1..][1..] == nodes[2..];
  }

  lemma TraceGraphValid(isSuccessful: bool, nodes: seq<nat>)
    ensures Valid(TraceGraph(isSuccessful, nodes))
  {
    AddTraceValid(Empty().(isSuccessful := isSuccessful), -1, nodes);
  }

  /** Each edge of the graph of a run is counted once per transition that
      takes it, and the edges are exactly the transitions of the run. */
  lemma TraceGraphEdges(isSuccessful: bool, nodes: seq<nat>)
    ensures var r := TraceGraph(isSuccessful, nodes);
      && (forall k :: EdgeCount(r, k) == multiset(Transitions(nodes))[k])
      && (forall k :: k in r.edges <==> k in Transitions(nodes))
  {
    var g0 := Empty().(isSuccessful := isSuccessful);
    var r := TraceGraph(isSuccessful, nodes);
    if |nodes| > 0 {
      assert r == AddTrace(g0, nodes[0], nodes[1..]);
      AddTraceEdgeCounts(g0, nodes[0], nodes[1..]);
      assert [nodes[0]] + nodes[1..] == nodes;
    }
    TraceGraphValid(isSuccessful, nodes);
    forall k ensures k in r.edges <==> k in Transitions(nodes) {
      assert HasEdge(r, k) <==> EdgeCount(r, k) >= 1;
    }
  }

  /** A run of fewer than two nodes makes no transition and leaves the
      graph without vertices; otherwise the vertices are the nodes of the
      run, each counted once per visit. */
  lemma TraceGraphVertices(isSuccessful: bool, nodes: seq<nat>)
    ensures var r := TraceGraph(isSuccessful, nodes);
      && (|nodes| < 2 ==> |r.vectors| == 0)
      && (|nodes| >= 2 ==> forall id :: (id in r.vectors <==> id in nodes) && VertexCount(r, id) == multiset(nodes)[id])
  {
    var g0 := Empty().(isSuccessful := isSuccessful);
    if |nodes| == 1 {
      assert TraceGraph(isSuccessful, nodes) == AddTrace(g0, nodes[0], nodes[1..]);
    } else if |nodes| >= 2 {
      TraceGraphVisits(isSuccessful, nodes);
    }
  }

  lemma TraceGraphVisits(isSuccessful: bool, nodes: seq<nat>)
    requires |nodes| >= 2
    ensures var r := TraceGraph(isSuccessful, nodes);
      forall id :: (id in r.vectors <==> id in nodes) && VertexCount(r, id) == multiset(nodes)[id]
  {
    AddTraceVisits(Empty().(isSuccessful := isSuccessful), nodes);
  }

  /** The vertex counts of a run added to a graph without vertices. */
  lemma AddTraceVisits(g: Graph, nodes: seq<nat>)
    requires VectorsValid(g) && |nodes| >= 2 && forall id :: id !in g.vectors
    ensures var r := AddTrace(g, -1, nodes);
      forall id :: (id in r.vectors <==> id in nodes) && VertexCount(r, id) == multiset(nodes)[id]
  {
    forall id ensures var r := AddTrace(g, -1, nodes); (id in r.vectors <==> id in nodes) && VertexCount(r, id) == multiset(nodes)[id] {
      AddTraceVisitsAt(g, nodes, id);
    }
  }

  lemma AddTraceVisitsAt(g: Graph, nodes: seq<nat>, id: int)
    requires VectorsValid(g) && |nodes| >= 2 && forall id :: id !in g.vectors
    ensures var r := AddTrace(g, -1, nodes);
      (id in r.vectors <==> id in nodes) && VertexCount(r, id) == multiset(nodes)[id]
  {
    AddTraceFirst(g, nodes);
    FirstVisits(g, nodes[0], nodes[1], id);
    RestVisits(AddEdge(g, nodes[0], nodes[1]), nodes[1], nodes[2..], id);
    SplitTwo(nodes, id);
  }

  lemma FirstVisits(g: Graph, n0: int, n1: int, id: int)
    requires VectorsValid(g) && forall id :: id !in g.vectors
    ensures var g1 := AddEdge(g, n0, n1);
      && VectorsValid(g1) && n1 in g1.vectors
      && (id in g1.vectors <==> id == n0 || id == n1)
      && VertexCount(g1, id) == (if id == n1 then 1 else 0) + (if id == n0 then 1 else 0)
  {
    AddEdgeVisitAt(g, n0, n1, id);
    AddEdgeShape(g, n0, n1);
  }

  lemma RestVisits(g: Graph, last: nat, rest: seq<nat>, id: int)
    requires VectorsValid(g) && last in g.vectors
    ensures var r := AddTrace(g, last, rest);
      && (id in r.vectors <==> id in g.vectors || id in rest)
      && VertexCount(r, id) == VertexCount(g, id) + multiset(rest)[id]
  {
    AddTraceVertexCounts(g, last, rest);
  }

  lemma SplitTwo(nodes: seq<nat>, id: int)
    requires |nodes| >= 2
    ensures id in nodes <==> id == nodes[0] || id == nodes[1] || id in nodes[2..]
    ensures multiset(nodes)[id] == (if id == nodes[1] then 1 else 0) + (if id == nodes[0] then 1 else 0) + multiset(nodes[2..])[id]
  {
    assert nodes == [nodes[0], nodes[1]] + nodes[2..];
  }

  // ---------------------------------------------------------------------
  // Edge frequencies
  // ---------------------------------------------------------------------

  /** The Any of the trace constructor: whether some out-edge leads into
      another function. It stops at the first such edge; the lookup of a
      target outside the node table throws before that. */
  function AnyOtherFunction(edges: seq<Edge>, infos: NodeInfoCollection.NodeInfoCollection, owner: string): (r: Outcome<bool>)
    ensures r.Err? ==> r.error == ArgumentOutOfRange
  {
    if |edges| == 0 then Ok(false)
    else
      var info :- NodeInfoCollection.Get(infos, edges[0].to);
      if info.ownedFunction != owner then Ok(true)
      else AnyOtherFunction(edges[1..], infos, owner)
  }

  function SumCounts(edges: seq<Edge>): int {
    if |edges| == 0 then 0 else edges[0].executeCount + SumCounts(edges[1..])
  }

  function SumFrequencies(edges: seq<Edge>): real {
    if |edges| == 0 then 0.0 else edges[0].frequency + SumFrequencies(edges[1..])
  }

  /** Every edge gets the frequency `f`. */
  function WithFrequency(edges: seq<Edge>, f: real): (r: seq<Edge>)
    ensures |r| == |edges|
  {
    seq(|edges|, i requires 0 <= i < |edges| => edges[i].(frequency := f))
  }

  /** Every edge gets its share of `total`. */
  function Normalised(edges: seq<Edge>, total: int): (r: seq<Edge>)
    requires total > 0
    ensures |r| == |edges|
  {
    seq(|edges|, i requires 0 <= i < |edges| => edges[i].(frequency := edges[i].executeCount as real / total as real))
  }

  /** The frequencies of the out-edges of one vertex: 1 for all of them when
      one leads into another function, otherwise each edge's share of the
      vertex's outgoing executions (left alone when there are none). */
  function VectorFrequencies(v: Vector.Vector, infos: NodeInfoCollection.NodeInfoCollection): (r: Outcome<Vector.Vector>)
    ensures r.Err? ==> r.error == ArgumentOutOfRange
    ensures r.Ok? ==> r.value.id == v.id && r.value.executeCount == v.executeCount && |r.value.outEdges| == |v.outEdges|
  {
    var info :- NodeInfoCollection.Get(infos, v.id);
    var cross :- AnyOtherFunction(v.outEdges, infos, info.ownedFunction);
    if cross then Ok(v.(outEdges := WithFrequency(v.outEdges, 1.0)))
    else
      var maxCount := SumCounts(v.outEdges);
      if maxCount > 0 then Ok(v.(outEdges := Normalised(v.outEdges, maxCount))) else Ok(v)
  }

  /** The frequency loop of the trace constructor. Every vertex is handled
      on its own and every failure is the same ArgumentOutOfRange, so the
      order in which the Dictionary yields the vertices does not matter. */
  function Frequencies(g: Graph, infos: NodeInfoCollection.NodeInfoCollection): (r: Outcome<Graph>)
    ensures r.Err? ==> r.error == ArgumentOutOfRange
    ensures r.Ok? ==> r.value.vectors.Keys == g.vectors.Keys && r.value.edges == g.edges && r.value.isSuccessful == g.isSuccessful
  {
    if exists id :: id in g.vectors && VectorFrequencies(g.vectors[id], infos).Err? then Err(ArgumentOutOfRange)
    else Ok(g.(vectors := map id | id in g.vectors :: VectorFrequencies(g.vectors[id], infos).value))
  }

  /** The trace constructor: the vertices and edges of the run, then their
      frequencies, looked up in the node table. */
  function FromRun(run: TraceSet.Run, infos: NodeInfoCollection.NodeInfoCollection): (r: Outcome<Graph>)
    ensures r.Err? ==> r.error == ArgumentOutOfRange
    ensures r.Ok? ==> r.value.isSuccessful == run.isSuccessful
    ensures |run.nodes| < 2 ==> r.Ok? && |r.value.vectors| == 0
  {
    TraceGraphVertices(run.isSuccessful, run.nodes);
    Frequencies(TraceGraph(run.isSuccessful, run.nodes), infos)
  }

  /** Every target of `edges` has an entry in the node table. */
  predicate TargetsKnown(edges: seq<Edge>, infos: NodeInfoCollection.NodeInfoCollection) {
    forall i :: 0 <= i < |edges| ==> 0 <= edges[i].to < NodeInfoCollection.Count(infos)
  }

  /** Some edge leads into a function other than `owner`. */
  predicate LeadsElsewhere(edges: seq<Edge>, infos: NodeInfoCollection.NodeInfoCollection, owner: string)
    requires TargetsKnown(edges, infos)
  {
    exists i :: 0 <= i < |edges| && infos.infos[edges[i].to].ownedFunction != owner
  }

  /** With every target known, Any answers whether some edge leads into
      another function; it fails only on an unknown target. */
  lemma {:induction false} AnyOtherFunctionMeaning(edges: seq<Edge>, infos: NodeInfoCollection.NodeInfoCollection, owner: string)
    ensures TargetsKnown(edges, infos) ==> AnyOtherFunction(edges, infos, owner) == Ok(LeadsElsewhere(edges, infos, owner))
    ensures AnyOtherFunction(edges, infos, owner).Err? ==> !TargetsKnown(edges, infos)
    decreases |edges|
  {
    if |edges| > 0 {
      AnyOtherFunctionMeaning(edges[1..], infos, owner);
      if TargetsKnown(edges, infos) {
        assert TargetsKnown(edges[1..], infos);
        if infos.infos[edges[0].to].ownedFunction == owner {
          assert LeadsElsewhere(edges, infos, owner) == LeadsElsewhere(edges[1..], infos, owner) by {
            if LeadsElsewhere(edges, infos, owner) {
              var i :| 0 <= i < |edges| && infos.infos[edges[i].to].ownedFunction != owner;
              assert edges[1..][i - 1] == edges[i];
            }
          }
        }
      } else if AnyOtherFunction(edges, infos, owner).Err? && 0 <= edges[0].to < NodeInfoCollection.Count(infos) {
        var i :| 0 <= i < |edges[1..]| && !(0 <= edges[1..][i].to < NodeInfoCollection.Count(infos));
        assert edges[i + 1] == edges[1..][i];
      }
    }
  }

  /** The shares of `total` add up to the sum of the counts over `total`. */
  lemma {:induction false} SumNormalised(edges: seq<Edge>, total: int)
    requires total > 0
    ensures SumFrequencies(Normalised(edges, total)) == SumCounts(edges) as real / total as real
    decreases |edges|
  {
    if |edges| > 0 {
      SumNormalised(edges[1..], total);
      assert Normalised(edges, total)[1..] == Normalised(edges[1..], total);
      var a := edges[0].executeCount as real;
      var b := SumCounts(edges[1..]) as real;
      var t := total as real;
      assert a / t + b / t == (a + b) / t;
    }
  }

  /** A vertex whose id and out-edge targets are all in the node table gets
      its frequencies: 1 on every edge when one leads into another function,
      otherwise shares of the outgoing executions that add up to 1. Nothing
      but the frequencies changes. */
  lemma VectorFrequenciesMeaning(v: Vector.Vector, infos: NodeInfoCollection.NodeInfoCollection)
    requires 0 <= v.id < NodeInfoCollection.Count(infos) && TargetsKnown(v.outEdges, infos)
    ensures var r := VectorFrequencies(v, infos);
      && r.Ok?
      && (forall i :: 0 <= i < |v.outEdges| ==> r.value.outEdges[i].(frequency := v.outEdges[i].frequency) == v.outEdges[i])
      && var elsewhere := LeadsElsewhere(v.outEdges, infos, infos.infos[v.id].ownedFunction);
         && (elsewhere ==> forall i :: 0 <= i < |v.outEdges| ==> r.value.outEdges[i].frequency == 1.0)
         && (!elsewhere && SumCounts(v.outEdges) > 0 ==>
               && (forall i :: 0 <= i < |v.outEdges| ==>
                     r.value.outEdges[i].frequency == v.outEdges[i].executeCount as real / SumCounts(v.outEdges) as real)
               && SumFrequencies(r.value.outEdges) == 1.0)
         && (!elsewhere && SumCounts(v.outEdges) <= 0 ==> r.value == v)
  {
    AnyOtherFunctionMeaning(v.outEdges, infos, infos.infos[v.id].ownedFunction);
    if SumCounts(v.outEdges) > 0 {
      SumNormalised(v.outEdges, SumCounts(v.outEdges));
      var t := SumCounts(v.outEdges) as real;
      assert t / t == 1.0;
    }
  }

  /** Only frequencies change, whatever the branch. */
  lemma VectorFrequenciesShape(v: Vector.Vector, infos: NodeInfoCollection.NodeInfoCollection)
    ensures var r := VectorFrequencies(v, infos);
      r.Ok? ==> forall i :: 0 <= i < |v.outEdges| ==> r.value.outEdges[i].(frequency := v.outEdges[i].frequency) == v.outEdges[i]
  {
  }

  /** An out-edge of a vertex is what GetEdge finds for its target. */
  lemma OutEdgeFound(v: Vector.Vector, i: int)
    requires Vector.Valid(v) && 0 <= i < |v.outEdges|
    ensures Vector.GetEdge(v, v.outEdges[i].to) == Some(v.outEdges[i])
  {
    var j := Vector.TargetIndex(v.outEdges, v.outEdges[i].to);
    assert j >= 0 && v.outEdges[j].to == v.outEdges[i].to;
  }

  /** The frequencies of a valid graph fail exactly when some vertex is
      missing from the node table. */
  lemma FrequenciesErr(g: Graph, infos: NodeInfoCollection.NodeInfoCollection)
    requires Valid(g)
    ensures Frequencies(g, infos).Err? <==> exists id :: id in g.vectors && !(0 <= id < NodeInfoCollection.Count(infos))
  {
    if Frequencies(g, infos).Err? {
      var id :| id in g.vectors && VectorFrequencies(g.vectors[id], infos).Err?;
      var v := g.vectors[id];
      if 0 <= id < NodeInfoCollection.Count(infos) {
        var owner := infos.infos[id].ownedFunction;
        AnyOtherFunctionMeaning(v.outEdges, infos, owner);
        var i :| 0 <= i < |v.outEdges| && !(0 <= v.outEdges[i].to < NodeInfoCollection.Count(infos));
        OutEdgeFound(v, i);
        assert GetEdge(g, id, v.outEdges[i].to).Some?;
      }
    } else {
      forall id | id in g.vectors ensures 0 <= id < NodeInfoCollection.Count(infos) {
        assert VectorFrequencies(g.vectors[id], infos).Ok?;
      }
    }
  }

  /** The frequencies change no edge but in its frequency, and no vertex. */
  lemma FrequenciesKeepAt(g: Graph, infos: NodeInfoCollection.NodeInfoCollection, a: int, b: int)
    requires VectorsValid(g) && Frequencies(g, infos).Ok?
    ensures var r := Frequencies(g, infos).value;
      && VertexCount(r, a) == VertexCount(g, a)
      && (GetEdge(r, a, b).Some? <==> GetEdge(g, a, b).Some?)
      && (GetEdge(r, a, b).Some? ==> GetEdge(r, a, b).value.(frequency := GetEdge(g, a, b).value.frequency) == GetEdge(g, a, b).value)
      && (a in r.vectors ==> r.vectors[a].id == a && Vector.Valid(r.vectors[a]))
  {
    var r := Frequencies(g, infos).value;
    if a in g.vectors {
      var v := g.vectors[a];
      var w := r.vectors[a];
      assert w == VectorFrequencies(v, infos).value;
      VectorFrequenciesShape(v, infos);
      assert forall i :: 0 <= i < |v.outEdges| ==> w.outEdges[i].to == v.outEdges[i].to && w.outEdges[i].from == v.outEdges[i].from;
      Vector.TargetIndexSameTargets(w.outEdges, v.outEdges, b);
    }
  }

  /** The frequencies keep the edge counts and the vertex counts. */
  lemma FrequenciesCounts(g: Graph, infos: NodeInfoCollection.NodeInfoCollection)
    requires VectorsValid(g) && Frequencies(g, infos).Ok?
    ensures var r := Frequencies(g, infos).value;
      && (forall k :: EdgeCount(r, k) == EdgeCount(g, k))
      && (forall id :: VertexCount(r, id) == VertexCount(g, id))
  {
    var r := Frequencies(g, infos).value;
    forall k: EdgeKey ensures EdgeCount(r, k) == EdgeCount(g, k) {
      FrequenciesKeepAt(g, infos, k.from, k.to);
    }
    forall id ensures VertexCount(r, id) == VertexCount(g, id) {
      FrequenciesKeepAt(g, infos, id, id);
    }
  }

  /** The frequencies keep the invariant. */
  lemma FrequenciesValid(g: Graph, infos: NodeInfoCollection.NodeInfoCollection)
    requires Valid(g) && Frequencies(g, infos).Ok?
    ensures Valid(Frequencies(g, infos).value)
  {
    var r := Frequencies(g, infos).value;
    forall a, b ensures
      && (GetEdge(r, a, b).Some? <==> GetEdge(g, a, b).Some?)
      && (GetEdge(r, a, b).Some? ==> GetEdge(r, a, b).value.executeCount == GetEdge(g, a, b).value.executeCount)
      && (a in r.vectors ==> r.vectors[a].id == a && Vector.Valid(r.vectors[a]))
    {
      FrequenciesKeepAt(g, infos, a, b);
    }
    assert forall k: EdgeKey :: HasEdge(r, k) <==> HasEdge(g, k);
  }

  lemma {:induction false} SumCountsPositive(edges: seq<Edge>)
    requires |edges| > 0 && forall i :: 0 <= i < |edges| ==> edges[i].executeCount >= 1
    ensures SumCounts(edges) >= |edges|
    decreases |edges|
  {
    if |edges| > 1 {
      SumCountsPositive(edges[1..]);
    }
  }

  /** Sequences of edges with the same counters have the same sum. */
  lemma {:induction false} SumCountsSame(a: seq<Edge>, b: seq<Edge>)
    requires |a| == |b| && forall i :: 0 <= i < |a| ==> a[i].executeCount == b[i].executeCount
    ensures SumCounts(a) == SumCounts(b)
    decreases |a|
  {
    if |a| > 0 {
      SumCountsSame(a[1..], b[1..]);
    }
  }

  /** After the frequencies of a valid graph are computed, the out-edges of
      every vertex carry 1 each when one of them leads into another
      function, and otherwise each its share of the vertex's outgoing
      executions, the shares adding up to 1. */
  lemma FrequenciesAt(g: Graph, infos: NodeInfoCollection.NodeInfoCollection, id: int)
    requires Valid(g) && Frequencies(g, infos).Ok? && id in g.vectors
    ensures var o := Frequencies(g, infos).value.vectors[id].outEdges;
      && 0 <= id < NodeInfoCollection.Count(infos) && TargetsKnown(o, infos)
      && (LeadsElsewhere(o, infos, infos.infos[id].ownedFunction) ==> forall i :: 0 <= i < |o| ==> o[i].frequency == 1.0)
      && (!LeadsElsewhere(o, infos, infos.infos[id].ownedFunction) && |o| > 0 ==>
            && SumCounts(o) > 0 && SumFrequencies(o) == 1.0
            && forall i :: 0 <= i < |o| ==> o[i].frequency == o[i].executeCount as real / SumCounts(o) as real)
  {
    FrequenciesErr(g, infos);
    var v := g.vectors[id];
    var o := Frequencies(g, infos).value.vectors[id].outEdges;
    assert o == VectorFrequencies(v, infos).value.outEdges;
    forall i | 0 <= i < |v.outEdges| ensures v.outEdges[i].to in g.vectors && v.outEdges[i].executeCount >= 1 {
      OutEdgeFound(v, i);
      assert GetEdge(g, id, v.outEdges[i].to) == Some(v.outEdges[i]);
    }
    VectorFrequenciesMeaning(v, infos);
    assert forall i :: 0 <= i < |o| ==> o[i].to == v.outEdges[i].to && o[i].executeCount == v.outEdges[i].executeCount;
    assert LeadsElsewhere(o, infos, infos.infos[id].ownedFunction) == LeadsElsewhere(v.outEdges, infos, infos.infos[id].ownedFunction);
    SumCountsSame(o, v.outEdges);
    if |o| > 0 {
      SumCountsPositive(v.outEdges);
    }
  }

  /** The trace constructor fails exactly when the run makes a transition
      and visits a node the node table lacks. */
  lemma FromRunErr(run: TraceSet.Run, infos: NodeInfoCollection.NodeInfoCollection)
    ensures FromRun(run, infos).Err? <==>
      |run.nodes| >= 2 && exists i :: 0 <= i < |run.nodes| && run.nodes[i] >= NodeInfoCollection.Count(infos)
  {
    var g := TraceGraph(run.isSuccessful, run.nodes);
    TraceGraphValid(run.isSuccessful, run.nodes);
    TraceGraphVertices(run.isSuccessful, run.nodes);
    FrequenciesErr(g, infos);
    if |run.nodes| >= 2 {
      assert forall id :: id in g.vectors <==> id in run.nodes;
      if FromRun(run, infos).Err? {
        var id :| id in g.vectors && !(0 <= id < NodeInfoCollection.Count(infos));
        var i :| 0 <= i < |run.nodes| && run.nodes[i] == id;
      } else {
        forall i | 0 <= i < |run.nodes| ensures run.nodes[i] < NodeInfoCollection.Count(infos) {
          assert run.nodes[i] in g.vectors;
        }
      }
    }
  }

  /** The graph of a run: valid, its edges are the run's transitions, each
      taken as often as the run makes it, and (for a run of two or more
      nodes) its vertices are the run's nodes, each visited as often as the
      run names it. */
  lemma FromRunMeaning(run: TraceSet.Run, infos: NodeInfoCollection.NodeInfoCollection)
    requires FromRun(run, infos).Ok?
    ensures var r := FromRun(run, infos).value;
      && Valid(r) && r.isSuccessful == run.isSuccessful
      && (forall k :: k in r.edges <==> k in Transitions(run.nodes))
      && (forall k :: EdgeCount(r, k) == multiset(Transitions(run.nodes))[k])
      && (|run.nodes| < 2 ==> |r.vectors| == 0)
      && (|run.nodes| >= 2 ==> forall id :: (id in r.vectors <==> id in run.nodes) && VertexCount(r, id) == multiset(run.nodes)[id])
  {
    var g := TraceGraph(run.isSuccessful, run.nodes);
    TraceGraphValid(run.isSuccessful, run.nodes);
    TraceGraphEdges(run.isSuccessful, run.nodes);
    TraceGraphVertices(run.isSuccessful, run.nodes);
    FrequenciesValid(g, infos);
    FrequenciesCounts(g, infos);
  }

  // ---------------------------------------------------------------------
  // Merging
  // ---------------------------------------------------------------------

  /** AddEdge for each key, in order. */
  function AddKeys(g: Graph, keys: seq<EdgeKey>): (r: Graph)
    ensures r.isSuccessful == g.isSuccessful
    decreases |keys|
  {
    if |keys| == 0 then g else AddKeys(AddEdge(g, keys[0].from, keys[0].to), keys[1..])
  }

  /** The edges of each graph, graph after graph, as SelectMany yields them. */
  function MergeAll(g: Graph, graphs: seq<Graph>): (r: Graph)
    ensures r.isSuccessful == g.isSuccessful
    decreases |graphs|
  {
    if |graphs| == 0 then g else MergeAll(AddKeys(g, graphs[0].edges), graphs[1..])
  }

  /** The merging constructor: a null graph among the inputs throws when
      SelectMany reaches its edges. */
  function Merge(graphs: seq<Option<Graph>>): (r: Outcome<Graph>)
    ensures r.Err? <==> exists i :: 0 <= i < |graphs| && graphs[i].None?
    ensures r.Err? ==> r.error == NullReference
  {
    if exists i :: 0 <= i < |graphs| && graphs[i].None? then Err(NullReference)
    else Ok(MergeAll(Empty(), seq(|graphs|, i requires 0 <= i < |graphs| => graphs[i].value)))
  }

  /** How many of the graphs contain the edge. */
  function Containing(graphs: seq<Graph>, k: EdgeKey): nat {
    if |graphs| == 0 then 0 else (if k in graphs[0].edges then 1 else 0) + Containing(graphs[1..], k)
  }

  predicate NoDuplicateEdges(g: Graph) {
    forall i, j :: 0 <= i < j < |g.edges| ==> g.edges[i] != g.edges[j]
  }

  lemma {:induction false} AddKeysValid(g: Graph, keys: seq<EdgeKey>)
    requires Valid(g)
    ensures Valid(AddKeys(g, keys))
    decreases |keys|
  {
    if |keys| > 0 {
      AddEdgeValid(g, keys[0].from, keys[0].to);
      AddKeysValid(AddEdge(g, keys[0].from, keys[0].to), keys[1..]);
    }
  }

  /** Each key adds one to the count of its edge. */
  lemma AddKeysCounts(g: Graph, keys: seq<EdgeKey>)
    requires VectorsValid(g)
    ensures forall k :: EdgeCount(AddKeys(g, keys), k) == EdgeCount(g, k) + multiset(keys)[k]
  {
    forall k ensures EdgeCount(AddKeys(g, keys), k) == EdgeCount(g, k) + multiset(keys)[k] {
      AddKeysCountAt(g, keys, k);
    }
  }

  lemma {:induction false} AddKeysCountAt(g: Graph, keys: seq<EdgeKey>, k: EdgeKey)
    requires VectorsValid(g)
    ensures EdgeCount(AddKeys(g, keys), k) == EdgeCount(g, k) + multiset(keys)[k]
    decreases |keys|
  {
    if |keys| > 0 {
      var g' := AddEdge(g, keys[0].from, keys[0].to);
      AddEdgeEdgeAt(g, keys[0].from, keys[0].to, k.from, k.to);
      AddEdgeShape(g, keys[0].from, keys[0].to);
      AddKeysCountAt(g', keys[1..], k);
      MultisetFirst(keys);
    }
  }

  lemma MultisetFirst<T>(s: seq<T>)
    requires |s| > 0
    ensures multiset(s) == multiset{s[0]} + multiset(s[1..])
  {
    assert s == [s[0]] + s[1..];
  }

  /** An edge listed once is counted once. */
  lemma DistinctCount(keys: seq<EdgeKey>, k: EdgeKey)
    requires forall i, j :: 0 <= i < j < |keys| ==> keys[i] != keys[j]
    ensures multiset(keys)[k] == if k in keys then 1 else 0
  {
    if k in keys {
      var i :| 0 <= i < |keys| && keys[i] == k;
      assert keys == keys[..i] + [k] + keys[i + 1..];
      assert k !in keys[..i] && k !in keys[i + 1..];
    }
  }

  lemma {:induction false} MergeAllValid(g: Graph, graphs: seq<Graph>)
    requires Valid(g)
    ensures Valid(MergeAll(g, graphs))
    decreases |graphs|
  {
    if |graphs| > 0 {
      AddKeysValid(g, graphs[0].edges);
      MergeAllValid(AddKeys(g, graphs[0].edges), graphs[1..]);
    }
  }

  /** Merging counts each edge once per graph that has it. */
  lemma {:induction false} MergeAllCounts(g: Graph, graphs: seq<Graph>)
    requires VectorsValid(g)
    requires forall i :: 0 <= i < |graphs| ==> NoDuplicateEdges(graphs[i])
    ensures forall k :: EdgeCount(MergeAll(g, graphs), k) == EdgeCount(g, k) + Containing(graphs, k)
    decreases |graphs|
  {
    if |graphs| > 0 {
      var g' := AddKeys(g, graphs[0].edges);
      AddKeysCounts(g, graphs[0].edges);
      AddKeysVectorsValid(g, graphs[0].edges);
      MergeAllCounts(g', graphs[1..]);
      forall k ensures multiset(graphs[0].edges)[k] == if k in graphs[0].edges then 1 else 0 {
        DistinctCount(graphs[0].edges, k);
      }
    }
  }

  lemma {:induction false} AddKeysVectorsValid(g: Graph, keys: seq<EdgeKey>)
    requires VectorsValid(g)
    ensures VectorsValid(AddKeys(g, keys))
    decreases |keys|
  {
    if |keys| > 0 {
      AddEdgeShape(g, keys[0].from, keys[0].to);
      AddKeysVectorsValid(AddEdge(g, keys[0].from, keys[0].to), keys[1..]);
    }
  }

  /** The merged graph is valid; its edges are those of the inputs, each
      counted once per input graph that has it. */
  lemma MergeMeaning(graphs: seq<Option<Graph>>)
    requires Merge(graphs).Ok?
    requires forall i :: 0 <= i < |graphs| ==> graphs[i].Some? && Valid(graphs[i].value)
    ensures var r := Merge(graphs).value;
      && Valid(r)
      && (forall k :: EdgeCount(r, k) == Containing(seq(|graphs|, i requires 0 <= i < |graphs| => graphs[i].value), k))
      && (forall k :: k in r.edges <==> exists i :: 0 <= i < |graphs| && k in graphs[i].value.edges)
  {
    var gs := seq(|graphs|, i requires 0 <= i < |graphs| => graphs[i].value);
    var r := Merge(graphs).value;
    MergeAllValid(Empty(), gs);
    MergeAllCounts(Empty(), gs);
    forall k ensures k in r.edges <==> exists i :: 0 <= i < |graphs| && k in graphs[i].value.edges {
      ContainingPositive(gs, k);
      assert HasEdge(r, k) <==> EdgeCount(r, k) >= 1;
      SomeGraphHas(gs, graphs, k);
    }
  }

  /** The merged graph is well formed whatever the graphs it merges. */
  lemma MergeValid(graphs: seq<Option<Graph>>)
    requires Merge(graphs).Ok?
    ensures Valid(Merge(graphs).value)
  {
    EmptyValid();
    MergeAllValid(Empty(), seq(|graphs|, i requires 0 <= i < |graphs| => graphs[i].value));
  }

  lemma SomeGraphHas(gs: seq<Graph>, graphs: seq<Option<Graph>>, k: EdgeKey)
    requires |gs| == |graphs| && forall i :: 0 <= i < |gs| ==> graphs[i] == Some(gs[i])
    ensures (exists i :: 0 <= i < |gs| && k in gs[i].edges) <==> exists i :: 0 <= i < |graphs| && k in graphs[i].value.edges
  {
  }

  lemma {:induction false} ContainingPositive(graphs: seq<Graph>, k: EdgeKey)
    ensures Containing(graphs, k) > 0 <==> exists i :: 0 <= i < |graphs| && k in graphs[i].edges
    decreases |graphs|
  {
    if |graphs| > 0 {
      ContainingPositive(graphs[1..], k);
      if exists i :: 0 <= i < |graphs| && k in graphs[i].edges {
        var i :| 0 <= i < |graphs| && k in graphs[i].edges;
        if i > 0 {
          assert graphs[1..][i - 1] == graphs[i];
        }
      }
      if exists i :: 0 <= i < |graphs[1..]| && k in graphs[1..][i].edges {
        var i :| 0 <= i < |graphs[1..]| && k in graphs[1..][i].edges;
        assert graphs[i + 1] == graphs[1..][i];
      }
    }
  }
}
