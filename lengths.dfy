/**
 * The first stage of `RunLSCM` (lscm.go): every edge caches its length
 * (edge.go's `updateLength`), then every face stores on each of its three
 * half-edges a conformal coefficient computed from the lengths of its three
 * edges. The model caches SQUARED lengths, and the coefficient computation
 * (law of cosines, `acos`, `cos`, `sin`, `sqrt`) is a function parameter.
 */
module Lengths {
  import opened Points
  import opened Topology
  import opened MeshStates

  /** Vertex handle `v` has a record whose id names a point. */
  ghost predicate HasPoint(s: MeshState, v: nat)
  {
    v < |s.vertexRecs| && 0 <= s.vertexRecs[v].id && 3 * s.vertexRecs[v].id + 2 < |s.points|
  }

  /** The point of the vertex with handle `v`: the triple at its id. */
  function PointOf(s: MeshState, v: nat): Point3
    requires HasPoint(s, v)
  {
    Triple(s.points, s.vertexRecs[v].id)
  }

  /** Edge `e` has a slot-0 half-edge whose target and source have points. */
  ghost predicate LengthDefined(s: MeshState, e: nat)
  {
    && e < |s.edges| && s.edges[e].slot0.Some?
    && var h := s.edges[e].slot0.value;
       && h < |s.halfedges| && s.halfedges[h].prev < |s.halfedges|
       && HasPoint(s, Target(s.halfedges, h)) && HasPoint(s, Source(s.halfedges, h))
  }

  /** `updateLength`, squared: the squared norm of source point minus target point of the slot-0 half-edge. */
  function EdgeSquaredLength(s: MeshState, e: nat): real
    requires LengthDefined(s, e)
  {
    var h := s.edges[e].slot0.value;
    SquaredNorm(Sub(PointOf(s, Source(s.halfedges, h)), PointOf(s, Target(s.halfedges, h))))
  }

  /** The cached length does not depend on the direction of measurement, and is never negative. */
  lemma EdgeSquaredLengthSymmetric(s: MeshState, e: nat)
    requires LengthDefined(s, e)
    ensures var h := s.edges[e].slot0.value;
            && EdgeSquaredLength(s, e) == SquaredDistance(PointOf(s, Target(s.halfedges, h)), PointOf(s, Source(s.halfedges, h)))
            && EdgeSquaredLength(s, e) >= 0.0
  {
    var h := s.edges[e].slot0.value;
    SquaredDistanceSymmetric(PointOf(s, Source(s.halfedges, h)), PointOf(s, Target(s.halfedges, h)));
  }

  /** Every edge of a valid mesh can be measured. */
  lemma ValidLengthDefined(s: MeshState)
    requires Valid(s)
    ensures forall e :: 0 <= e < |s.edges| ==> LengthDefined(s, e)
  {
    forall e | 0 <= e < |s.edges|
      ensures LengthDefined(s, e)
    {
      var h := s.edges[e].slot0.value;
      assert h < |s.halfedges| && s.halfedges[h].prev == PrevInCycle(h);
      var t, u := s.halfedges[h].vertex, s.halfedges[PrevInCycle(h)].vertex;
      assert t in s.vertices && u in s.vertices;
      var j :| 0 <= j < |s.vertices| && s.vertices[j] == t;
      var k :| 0 <= k < |s.vertices| && s.vertices[k] == u;
      assert s.vertexRecs[t].id == j && s.vertexRecs[u].id == k;
    }
  }

  /** A mesh whose edge slots, half-edges, records and points are those of `s` measures every edge as `s` does. */
  lemma EdgeSquaredLengthFrame(s: MeshState, edges: seq<Edge>, e: nat)
    requires LengthDefined(s, e) && e < |edges| && edges[e].slot0 == s.edges[e].slot0
    ensures LengthDefined(s.(edges := edges), e)
    ensures EdgeSquaredLength(s.(edges := edges), e) == EdgeSquaredLength(s, e)
  {
  }

  /** The edges after the length loop has measured the first `n`; the others are as they were. */
  function LengthsUpTo(s: MeshState, n: nat): (r: seq<Edge>)
    requires n <= |s.edges| && forall e :: 0 <= e < |s.edges| ==> LengthDefined(s, e)
    ensures |r| == |s.edges|
  {
    seq(|s.edges|, e requires 0 <= e < |s.edges| =>
      if e < n then s.edges[e].(squaredLength := EdgeSquaredLength(s, e)) else s.edges[e])
  }

  /** The length loop (lscm.go:14-16): every edge measured, and nothing but the lengths changed. */
  function WithLengths(s: MeshState): (t: MeshState)
    requires forall e :: 0 <= e < |s.edges| ==> LengthDefined(s, e)
  {
    s.(edges := LengthsUpTo(s, |s.edges|))
  }

  /** Measuring keeps the shape of the mesh, and each edge then holds its squared length. */
  lemma WithLengthsShape(s: MeshState)
    requires forall e :: 0 <= e < |s.edges| ==> LengthDefined(s, e)
    ensures var t := WithLengths(s);
            && SameShape(s, t)
            && (forall e :: 0 <= e < |s.edges| ==> t.edges[e].squaredLength == EdgeSquaredLength(s, e) >= 0.0)
  {
    forall e | 0 <= e < |s.edges|
      ensures EdgeSquaredLength(s, e) >= 0.0
    {
      EdgeSquaredLengthSymmetric(s, e);
    }
  }

  // ---------------------------------------------------------------------------
  // Coefficients

  /**
   * The coefficient computation of lscm.go:24-43: from the cached lengths of
   * a face's three edges (in `next` order from the face's half-edge) to the
   * coefficients of its three half-edges in the same order.
   */
  type CoefficientRule = ((real, real, real)) -> (Point3, Point3, Point3)

  /** The `i`-th of three coefficients. */
  function Pick(cs: (Point3, Point3, Point3), i: nat): Point3
  {
    if i == 0 then cs.0 else if i == 1 then cs.1 else cs.2
  }

  /** Whole faces, every half-edge on an existing edge. */
  ghost predicate FacesOnEdges(hes: seq<HalfEdge>, edges: seq<Edge>)
  {
    |hes| % 3 == 0 && forall h :: 0 <= h < |hes| ==> hes[h].edge < |edges|
  }

  /** A valid mesh's half-edges come in whole faces, each on an existing edge. */
  lemma ValidFacesOnEdges(s: MeshState)
    requires Valid(s)
    ensures FacesOnEdges(s.halfedges, s.edges)
  {
    var n := |s.faces|;
    assert |s.halfedges| == 3 * n;
    assert (3 * n) % 3 == 0;
  }

  /** The cached lengths of the edges of face `f`'s half-edges `3f`, `3f+1`, `3f+2`. */
  function FaceLengths(hes: seq<HalfEdge>, edges: seq<Edge>, f: nat): (real, real, real)
    requires FacesOnEdges(hes, edges) && 3 * f + 2 < |hes|
  {
    (edges[hes[3 * f].edge].squaredLength,
     edges[hes[3 * f + 1].edge].squaredLength,
     edges[hes[3 * f + 2].edge].squaredLength)
  }

  /** The half-edges after the coefficient loop has handled the first `n`: half-edge `3f+i` holds coefficient `i` of face `f`. */
  function CoefficientsUpTo(hes: seq<HalfEdge>, edges: seq<Edge>, rule: CoefficientRule, n: nat): (r: seq<HalfEdge>)
    requires FacesOnEdges(hes, edges)
    ensures |r| == |hes|
  {
    seq(|hes|, h requires 0 <= h < |hes| =>
      if h < n then hes[h].(coefficients := Pick(rule(FaceLengths(hes, edges, h / 3)), h % 3)) else hes[h])
  }

  /** The coefficient loop only writes coefficients, each from its own face's edge lengths. */
  lemma CoefficientsUpToShape(s: MeshState, rule: CoefficientRule, n: nat)
    requires FacesOnEdges(s.halfedges, s.edges)
    ensures var t := s.(halfedges := CoefficientsUpTo(s.halfedges, s.edges, rule, n));
            && SameShape(s, t)
            && (forall f, i :: 0 <= f && 0 <= i < 3 && 3 * f + i < n && 3 * f + i < |s.halfedges| ==>
                  t.halfedges[3 * f + i].coefficients == Pick(rule(FaceLengths(s.halfedges, s.edges, f)), i))
  {
    var t := s.(halfedges := CoefficientsUpTo(s.halfedges, s.edges, rule, n));
    forall f, i | 0 <= f && 0 <= i < 3 && 3 * f + i < n && 3 * f + i < |s.halfedges|
      ensures t.halfedges[3 * f + i].coefficients == Pick(rule(FaceLengths(s.halfedges, s.edges, f)), i)
    {
      assert (3 * f + i) / 3 == f && (3 * f + i) % 3 == i;
    }
  }
}
