/** A control-flow edge between two nodes (OJWebService/Graphs/Edge.cs).
    Edges are identified by their endpoints: the counters they carry play no
    part in equality or hashing. */
module Edge {
  import opened Wrappers

  /** An edge and the counters the graph builder keeps on it. The success
      and failure frequencies belong to the score functions and are not
      modelled. */
  datatype Edge = Edge(from: int, to: int, executeCount: int, frequency: real)

  /** What identifies an edge: its endpoints. Sets of edges are sets of keys. */
  datatype EdgeKey = EdgeKey(from: int, to: int)

  function Key(e: Edge): EdgeKey {
    EdgeKey(e.from, e.to)
  }

  /** The constructor: no executions counted yet, and the frequency is the
      field's default. */
  function NewEdge(from: int, to: int): (e: Edge)
    ensures Key(e) == EdgeKey(from, to) && e.executeCount == 0
  {
    Edge(from, to, 0, 0.0)
  }

  /** Equals(Edge): a null argument is never equal; otherwise the endpoints
      decide (two references to one edge have the same endpoints, so the
      reference test changes nothing). */
  predicate Equals(e: Edge, other: Option<Edge>)
    ensures Equals(e, other) ==> other.Some? && Key(other.value) == Key(e)
    ensures other == Some(e) ==> Equals(e, other)
  {
    other.Some? && e.from == other.value.from && e.to == other.value.to
  }

  /** Equality of edges is the equality of their keys, whatever the counters say. */
  lemma EqualsIsKeyEquality(a: Edge, b: Edge)
    ensures Equals(a, Some(b)) <==> Key(a) == Key(b)
    ensures Equals(a, Some(b)) == Equals(b, Some(a))
    ensures Equals(a, Some(a.(executeCount := b.executeCount, frequency := b.frequency)))
  {
  }

  lemma EqualsTransitive(a: Edge, b: Edge, c: Edge)
    requires Equals(a, Some(b)) && Equals(b, Some(c))
    ensures Equals(a, Some(c))
  {
  }

  /** The argument of Equals(object): null, an edge, or an object of another class. */
  datatype Object = EdgeObject(edge: Edge) | OtherObject

  /** Equals(object): `obj as Edge` is null unless the object is an edge. */
  predicate EqualsObject(e: Edge, obj: Option<Object>) {
    var asEdge := if obj.Some? && obj.value.EdgeObject? then Some(obj.value.edge) else None;
    asEdge.Some? && Equals(e, asEdge)
  }

  /** Equals(object) agrees with Equals(Edge) on edges and is false for
      null and for objects of other classes. */
  lemma EqualsObjectMeaning(e: Edge, obj: Option<Object>)
    ensures obj.None? ==> !EqualsObject(e, obj)
    ensures obj == Some(OtherObject) ==> !EqualsObject(e, obj)
    ensures forall b :: obj == Some(EdgeObject(b)) ==> (EqualsObject(e, obj) <==> Key(e) == Key(b))
  {
  }

  // ---------------------------------------------------------------------
  // GetHashCode: (from << 16) | to on 32-bit integers, written out in
  // arithmetic on the unsigned bit patterns.

  const Two32 := 0x1_0000_0000

  function Pow2(k: nat): (r: nat)
    ensures r >= 1
  {
    if k == 0 then 1 else 2 * Pow2(k - 1)
  }

  /** Bitwise or of two naturals. */
  function Or(a: nat, b: nat): nat
    decreases a + b
  {
    if a == 0 then b
    else if b == 0 then a
    else 2 * Or(a / 2, b / 2) + (if a % 2 == 1 || b % 2 == 1 then 1 else 0)
  }

  /** The bit pattern of a C# int, as an unsigned 32-bit number. */
  function Unsigned(x: int): nat {
    x % Two32
  }

  /** The C# int whose bit pattern is `u`. */
  function Signed(u: nat): (x: int)
    requires u < Two32
    ensures -Two32 / 2 <= x < Two32 / 2 && Unsigned(x) == u
  {
    if u < Two32 / 2 then u else u - Two32
  }

  /** Encode. The or of two 32-bit patterns fits in 32 bits. */
  function Encode(from: int, to: int): int {
    var high := (Unsigned(from) * 0x1_0000) % Two32;
    var bits := Or(high, Unsigned(to));
    Pow2Values();
    OrBound(high, Unsigned(to), 32);
    Signed(bits)
  }

  /** GetHashCode. */
  function Hash(e: Edge): (h: int)
    ensures -Two32 / 2 <= h < Two32 / 2
    ensures 0 <= e.from < 0x8000 && 0 <= e.to < 0x1_0000 ==> h == e.from * 0x1_0000 + e.to
  {
    if 0 <= e.from < 0x8000 && 0 <= e.to < 0x1_0000 then
      EncodeSmall(e.from, e.to);
      Encode(e.from, e.to)
    else Encode(e.from, e.to)
  }

  lemma Pow2Values()
    ensures Pow2(16) == 0x1_0000 && Pow2(32) == Two32
  {
    assert Pow2(4) == 16;
    assert Pow2(8) == 256;
    assert Pow2(12) == 4096;
    assert Pow2(16) == 0x1_0000;
    assert Pow2(24) == 0x100_0000;
  }

  lemma {:induction false} OrBound(a: nat, b: nat, k: nat)
    requires a < Pow2(k) && b < Pow2(k)
    ensures Or(a, b) < Pow2(k)
    decreases a + b
  {
    if a != 0 && b != 0 {
      OrBound(a / 2, b / 2, k - 1);
    }
  }

  /** A number with `k` zero low bits or'ed with a number below 2^k is their sum. */
  lemma {:induction false} OrLowBits(a: nat, t: nat, k: nat)
    requires t < Pow2(k)
    ensures Or(a * Pow2(k), t) == a * Pow2(k) + t
    decreases k
  {
    if k > 0 && a != 0 && t != 0 {
      var h := a * Pow2(k - 1);
      assert a * Pow2(k) == 2 * h;
      assert (2 * h) / 2 == h && (2 * h) % 2 == 0;
      OrLowBits(a, t / 2, k - 1);
    }
  }

  /** Equal edges have equal hash codes. */
  lemma HashRespectsEquals(a: Edge, b: Edge)
    requires Equals(a, Some(b))
    ensures Hash(a) == Hash(b)
  {
  }

  /** Below 65536 the endpoints occupy separate halves of the bit pattern. */
  lemma EncodeSmall(from: int, to: int)
    requires 0 <= from < 0x1_0000 && 0 <= to < 0x1_0000
    ensures Encode(from, to) == Signed(from * 0x1_0000 + to)
  {
    Pow2Values();
    var h := from * 0x1_0000;
    MulLess(from, 0x1_0000, 0x1_0000);
    assert Unsigned(from) == from && Unsigned(to) == to;
    assert (Unsigned(from) * 0x1_0000) % Two32 == h;
    OrLowBits(from, to, 16);
  }

  lemma MulLess(a: nat, b: nat, n: nat)
    requires a < n
    ensures a * b <= (n - 1) * b
  {
  }

  /** So for node ids below 65536, distinct edges have distinct hash codes. */
  lemma HashInjectiveBelow65536(a: Edge, b: Edge)
    requires 0 <= a.from < 0x1_0000 && 0 <= a.to < 0x1_0000
    requires 0 <= b.from < 0x1_0000 && 0 <= b.to < 0x1_0000
    requires Hash(a) == Hash(b)
    ensures Equals(a, Some(b))
  {
    EncodeSmall(a.from, a.to);
    EncodeSmall(b.from, b.to);
  }

  /** Above it they collide: the edges 1 -> 0 and 0 -> 65536 share a hash code. */
  lemma HashCollision()
    ensures Encode(1, 0) == Encode(0, 0x1_0000) && EdgeKey(1, 0) != EdgeKey(0, 0x1_0000)
  {
    Pow2Values();
    OrLowBits(1, 0, 16);
  }

  /** operator ==: two nulls are equal, a null and an edge are not, and two
      edges are compared with Equals. */
  predicate OpEq(a: Option<Edge>, b: Option<Edge>) {
    if a.None? && b.None? then true else a.Some? && Equals(a.value, b)
  }

  predicate OpNe(a: Option<Edge>, b: Option<Edge>) {
    !OpEq(a, b)
  }

  /** `==` holds exactly when both are null or both are edges with the same
      endpoints; so it is symmetric and `!=` is its negation. */
  lemma OpEqMeaning(a: Option<Edge>, b: Option<Edge>)
    ensures OpEq(a, b) <==> (a.None? && b.None?) || (a.Some? && b.Some? && Key(a.value) == Key(b.value))
    ensures OpEq(a, b) == OpEq(b, a)
    ensures OpNe(a, b) <==> !OpEq(b, a)
  {
  }
}
