/**
 * The records of the half-edge structure (vertex.go, halfedge.go, edge.go),
 * laid out as an arena: every reference between records is an index into a
 * sequence held by the mesh, and a missing reference (Go's nil) is `None`.
 *
 * Vertex handles name slots of the mesh's vertex arena and never change;
 * the `id` of a vertex is its position in the mesh's vertex list, which
 * compaction renumbers.
 */
module Topology {
  import opened Wrappers
  import opened Points

  /**
   * A vertex record. `boundary`, `valence`, `father` and `touched` are never
   * read or written by the modelled code and are not represented; the
   * point, normal and uv live in the mesh's parallel arrays at position `id`.
   */
  datatype Vertex = Vertex(id: int, halfedge: Option<nat>, fixed: bool, index: int)

  /**
   * A half-edge: its edge, its target vertex (a handle), its neighbours in the
   * face's 3-cycle and the conformal coefficient the solve stores on it.
   */
  datatype HalfEdge = HalfEdge(edge: nat, vertex: nat, prev: nat, next: nat, coefficients: Point3)

  /**
   * An edge: two half-edge slots and the cached length. The model caches the
   * SQUARED length (the square root of `updateLength` is not modelled).
   */
  datatype Edge = Edge(slot0: Option<nat>, slot1: Option<nat>, squaredLength: real) {

    /** `e.other(he)`: slot 1 when `he` sits in slot 0, slot 0 in every other case. */
    function Other(he: nat): Option<nat>
    {
      if slot0 == Some(he) then slot1 else slot0
    }
  }

  /** A face holds one half-edge of its cycle. */
  datatype Face = Face(halfedge: nat)

  /** The undirected key under which the mesh deduplicates edges. */
  datatype EdgeKey = EdgeKey(v1: int, v2: int)

  /** `edgeKey{min(a, b), max(a, b)}`: ordered, and made of exactly the two endpoints. */
  function KeyOf(a: int, b: int): (k: EdgeKey)
    ensures k.v1 <= k.v2
    ensures (k.v1 == a && k.v2 == b) || (k.v1 == b && k.v2 == a)
  {
    if a <= b then EdgeKey(a, b) else EdgeKey(b, a)
  }

  lemma KeyOfSymmetric(a: int, b: int)
    ensures KeyOf(a, b) == KeyOf(b, a)
  {
  }

  /** Two ordered pairs have the same key exactly when they are the same unordered pair. */
  lemma KeyOfInjective(a: int, b: int, c: int, d: int)
    ensures KeyOf(a, b) == KeyOf(c, d) <==> (a == c && b == d) || (a == d && b == c)
  {
  }

  /** The successor of half-edge `h` in the 3-cycle of its face (faces own consecutive triples). */
  function NextInCycle(h: nat): nat
  {
    if h % 3 == 2 then h - 2 else h + 1
  }

  /** The predecessor of half-edge `h` in the 3-cycle of its face. */
  function PrevInCycle(h: nat): nat
  {
    if h % 3 == 0 then h + 2 else h - 1
  }

  /** `next` and `prev` undo each other, stay in the face, and three `next` steps come back. */
  lemma CycleLaws(h: nat)
    ensures NextInCycle(PrevInCycle(h)) == h && PrevInCycle(NextInCycle(h)) == h
    ensures NextInCycle(h) / 3 == h / 3 && PrevInCycle(h) / 3 == h / 3
    ensures NextInCycle(NextInCycle(NextInCycle(h))) == h
    ensures NextInCycle(h) != h && NextInCycle(NextInCycle(h)) != h
  {
  }

  /** `he.target()`: the half-edge's own vertex. */
  function Target(hes: seq<HalfEdge>, h: nat): nat
    requires h < |hes|
  {
    hes[h].vertex
  }

  /** `he.source()`: the vertex of the previous half-edge in the cycle. */
  function Source(hes: seq<HalfEdge>, h: nat): nat
    requires h < |hes| && hes[h].prev < |hes|
  {
    hes[hes[h].prev].vertex
  }

  /** `he.other()`: delegated to the half-edge's edge. */
  function OtherHalfEdge(hes: seq<HalfEdge>, edges: seq<Edge>, h: nat): Option<nat>
    requires h < |hes| && hes[h].edge < |edges|
  {
    edges[hes[h].edge].Other(h)
  }

  /** On an edge holding two distinct half-edges, `other` swaps them, so applying it twice is the identity. */
  lemma OtherInvolutive(e: Edge, a: nat, b: nat)
    requires e.slot0 == Some(a) && e.slot1 == Some(b) && a != b
    ensures e.Other(a) == Some(b) && e.Other(b) == Some(a)
    ensures e.Other(e.Other(a).value) == Some(a)
    ensures e.Other(e.Other(b).value) == Some(b)
  {
  }

  /** On a boundary edge (slot 1 empty), the only half-edge has no sibling. */
  lemma OtherOnBoundary(e: Edge, a: nat)
    requires e.slot0 == Some(a) && e.slot1 == None
    ensures e.Other(a) == None
  {
  }

  /** A half-edge that is not in slot 0 gets slot 0 back, even when it is not on the edge at all. */
  lemma OtherOffSlot0(e: Edge, h: nat)
    requires e.slot0 != Some(h)
    ensures e.Other(h) == e.slot0
  {
  }

}
