/** A node of a behaviour graph and its out-edges (OJWebService/Graphs/Vector.cs).
    The source keeps the out-edges in a Dictionary keyed by target; it is
    modelled as the sequence of its values in insertion order (the order
    in which a Dictionary without removals enumerates them), at most one
    per target. */
module Vector {
  import opened Wrappers
  import opened Edge

  datatype Vector = Vector(id: int, executeCount: int, outEdges: seq<Edge>)

  /** Every out-edge starts at the vector, and no two share a target. */
  predicate Valid(v: Vector) {
    && (forall i :: 0 <= i < |v.outEdges| ==> v.outEdges[i].from == v.id)
    && (forall i, j :: 0 <= i < j < |v.outEdges| ==> v.outEdges[i].to != v.outEdges[j].to)
  }

  /** The constructor: no executions and no out-edges. */
  function NewVector(id: int): (v: Vector)
    ensures v.id == id && v.executeCount == 0 && |OutEdges(v)| == 0 && Valid(v)
  {
    Vector(id, 0, [])
  }

  /** OutEdges: the dictionary's values. */
  function OutEdges(v: Vector): seq<Edge> {
    v.outEdges
  }

  /** The position of the edge to `to`, or -1. */
  function TargetIndex(edges: seq<Edge>, to: int): (r: int)
    ensures -1 <= r < |edges|
    ensures r == -1 <==> forall i :: 0 <= i < |edges| ==> edges[i].to != to
    ensures r >= 0 ==> edges[r].to == to
  {
    if |edges| == 0 then -1
    else
      var r := TargetIndex(edges[..|edges| - 1], to);
      if r >= 0 then r else if edges[|edges| - 1].to == to then |edges| - 1 else -1
  }

  /** GetEdge: TryGetValue leaves null behind when the target is missing. */
  function GetEdge(v: Vector, to: int): (r: Option<Edge>)
    ensures r.None? <==> forall i :: 0 <= i < |v.outEdges| ==> v.outEdges[i].to != to
    ensures r.Some? ==> r.value in v.outEdges && r.value.to == to
  {
    var i := TargetIndex(v.outEdges, to);
    if i < 0 then None else Some(v.outEdges[i])
  }

  /** GetOrAddEdge: the existing edge to `to`, or a new edge from the vector
      to `to`, added. */
  function GetOrAddEdge(v: Vector, to: int): (r: (Vector, Edge))
    ensures r.0.id == v.id && r.0.executeCount == v.executeCount
    ensures r.1.to == to && GetEdge(r.0, to).Some?
    ensures GetEdge(v, to).Some? ==> r == (v, GetEdge(v, to).value)
    ensures GetEdge(v, to).None? ==> r.0.outEdges == v.outEdges + [r.1] && r.1 == NewEdge(v.id, to)
  {
    match GetEdge(v, to)
    case Some(e) => (v, e)
    case None =>
      var e := NewEdge(v.id, to);
      var v' := v.(outEdges := v.outEdges + [e]);
      assert v'.outEdges[|v.outEdges|].to == to;
      (v', e)
  }

  /** The returned edge goes from the vector to `to`, GetEdge finds it
      afterwards, and the vector stays valid. */
  lemma GetOrAddEdgeMeaning(v: Vector, to: int)
    requires Valid(v)
    ensures var (v', e) := GetOrAddEdge(v, to);
      && Key(e) == EdgeKey(v.id, to)
      && GetEdge(v', to) == Some(e)
      && Valid(v')
  {
    var (v', e) := GetOrAddEdge(v, to);
    if GetEdge(v, to).None? {
      assert v'.outEdges[|v.outEdges|] == e;
      assert forall i :: 0 <= i < |v.outEdges| ==> v'.outEdges[i] == v.outEdges[i];
      assert TargetIndex(v'.outEdges, to) == |v.outEdges|;
    } else {
      var i := TargetIndex(v.outEdges, to);
      assert v.outEdges[i].from == v.id;
    }
  }

  /** A second call with the same target returns the same edge and adds nothing. */
  lemma GetOrAddEdgeIdempotent(v: Vector, to: int)
    requires Valid(v)
    ensures var (v', e) := GetOrAddEdge(v, to);
      GetOrAddEdge(v', to) == (v', e)
  {
    GetOrAddEdgeMeaning(v, to);
  }

  /** Other targets are not affected: their edges, present or absent, stay as they were. */
  lemma GetOrAddEdgeOthers(v: Vector, to: int, other: int)
    requires other != to
    ensures GetEdge(GetOrAddEdge(v, to).0, other) == GetEdge(v, other)
  {
    var (v', e) := GetOrAddEdge(v, to);
    if GetEdge(v, to).None? {
      var i := TargetIndex(v.outEdges, other);
      assert forall k :: 0 <= k < |v.outEdges| ==> v'.outEdges[k] == v.outEdges[k];
      assert v'.outEdges[..|v.outEdges|] == v.outEdges;
      assert TargetIndex(v'.outEdges, other) == i;
    }
  }

  /** A target never added has no edge. */
  lemma NewVectorHasNoEdge(id: int, to: int)
    ensures GetEdge(NewVector(id), to).None?
  {
  }

  /** The counters of the out-edge to `e.to` become those of `e`: the
      source updates the shared Edge object in place. */
  function SetEdge(v: Vector, e: Edge): (r: Vector)
    requires GetEdge(v, e.to).Some?
    ensures r.id == v.id && r.executeCount == v.executeCount && |r.outEdges| == |v.outEdges|
  {
    v.(outEdges := v.outEdges[TargetIndex(v.outEdges, e.to) := e])
  }

  /** Edge lists with the same targets in the same order are searched alike. */
  lemma {:induction false} TargetIndexSameTargets(a: seq<Edge>, b: seq<Edge>, to: int)
    requires |a| == |b| && forall i :: 0 <= i < |a| ==> a[i].to == b[i].to
    ensures TargetIndex(a, to) == TargetIndex(b, to)
    decreases |a|
  {
    if |a| > 0 {
      TargetIndexSameTargets(a[..|a| - 1], b[..|b| - 1], to);
    }
  }

  /** After SetEdge, GetEdge finds `e` at its target and what it found before
      everywhere else; the targets and their order do not change. */
  lemma SetEdgeMeaning(v: Vector, e: Edge, to: int)
    requires Valid(v) && GetEdge(v, e.to).Some? && e.from == v.id
    ensures Valid(SetEdge(v, e))
    ensures forall i :: 0 <= i < |v.outEdges| ==> SetEdge(v, e).outEdges[i].to == v.outEdges[i].to
    ensures GetEdge(SetEdge(v, e), to) == if to == e.to then Some(e) else GetEdge(v, to)
  {
    var r := SetEdge(v, e);
    TargetIndexSameTargets(r.outEdges, v.outEdges, to);
    TargetIndexSameTargets(r.outEdges, v.outEdges, e.to);
  }

  /** GetEdge looks only at the out-edges, not at the counters of the vector. */
  lemma GetEdgeSameOutEdges(v: Vector, w: Vector, to: int)
    requires v.outEdges == w.outEdges
    ensures GetEdge(v, to) == GetEdge(w, to)
  {
  }
}
