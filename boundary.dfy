/**
 * `updateBoundary` (mesh.go): for every edge with an empty slot 1 it rotates
 * the half-edge pointer of the target of the slot-0 half-edge and then of
 * that half-edge's source. The rotation itself (`rotateCcwAboutTarget`) is
 * modelled as the walk "replace the half-edge by `other().prev` until
 * `other()` is absent", cut off after as many steps as there are
 * half-edges; nothing is claimed about where the walk ends.
 */
module Boundary {
  import opened Wrappers
  import opened Topology
  import opened MeshStates

  /** Every reference the walk follows exists: a half-edge's edge and predecessor, an edge's slots. */
  ghost predicate Navigable(hes: seq<HalfEdge>, edges: seq<Edge>)
  {
    && (forall h :: 0 <= h < |hes| ==> hes[h].edge < |edges| && hes[h].prev < |hes|)
    && (forall e :: 0 <= e < |edges| ==>
          (edges[e].slot0.Some? ==> edges[e].slot0.value < |hes|) &&
          (edges[e].slot1.Some? ==> edges[e].slot1.value < |hes|))
  }

  /**
   * The walk of `rotateCcwAboutTarget` from half-edge `h`: while `other()`
   * exists and fuel remains, step to `other().prev`.
   */
  function RotateCcw(hes: seq<HalfEdge>, edges: seq<Edge>, h: nat, fuel: nat): (r: nat)
    requires Navigable(hes, edges) && h < |hes|
    ensures r < |hes|
    ensures OtherHalfEdge(hes, edges, h).None? ==> r == h
    decreases fuel
  {
    if fuel == 0 then h
    else match OtherHalfEdge(hes, edges, h)
      case None => h
      case Some(o) => RotateCcw(hes, edges, hes[o].prev, fuel - 1)
  }

  /** When the walk stops before its fuel runs out, it stops at a half-edge without a sibling. */
  lemma {:induction false} RotateCcwStopsAtGap(hes: seq<HalfEdge>, edges: seq<Edge>, h: nat, fuel: nat)
    requires Navigable(hes, edges) && h < |hes|
    ensures var r := RotateCcw(hes, edges, h, fuel);
            OtherHalfEdge(hes, edges, r).None? || WalkLength(hes, edges, h, fuel) == fuel
    decreases fuel
  {
    if fuel > 0 {
      match OtherHalfEdge(hes, edges, h)
      case None =>
      case Some(o) => RotateCcwStopsAtGap(hes, edges, hes[o].prev, fuel - 1);
    }
  }

  /** The number of steps the walk takes. */
  function WalkLength(hes: seq<HalfEdge>, edges: seq<Edge>, h: nat, fuel: nat): (n: nat)
    requires Navigable(hes, edges) && h < |hes|
    ensures n <= fuel
    decreases fuel
  {
    if fuel == 0 then 0
    else match OtherHalfEdge(hes, edges, h)
      case None => 0
      case Some(o) => 1 + WalkLength(hes, edges, hes[o].prev, fuel - 1)
  }

  /**
   * What the pass needs of the vertex records: every edge holds a slot-0
   * half-edge, every half-edge targets a record with a set half-edge field, and every
   * set half-edge field refers to an existing half-edge.
   */
  ghost predicate PointersOk(hes: seq<HalfEdge>, edges: seq<Edge>, recs: seq<Vertex>)
  {
    && (forall e :: 0 <= e < |edges| ==> edges[e].slot0.Some?)
    && (forall h :: 0 <= h < |hes| ==> hes[h].vertex < |recs|)
    && (forall h {:trigger recs[hes[h].vertex]} :: 0 <= h < |hes| ==> hes[h].vertex < |recs| && recs[hes[h].vertex].halfedge.Some?)
    && (forall v :: 0 <= v < |recs| && recs[v].halfedge.Some? ==> recs[v].halfedge.value < |hes|)
  }

  /** A valid mesh can be passed over. */
  lemma ValidRotatable(s: MeshState)
    requires Valid(s)
    ensures Navigable(s.halfedges, s.edges) && PointersOk(s.halfedges, s.edges, s.vertexRecs)
  {
    forall h | 0 <= h < |s.halfedges|
      ensures s.halfedges[h].prev < |s.halfedges|
    {
      assert s.halfedges[h].prev == PrevInCycle(h);
    }
    forall e | 0 <= e < |s.edges|
      ensures (s.edges[e].slot0.Some? ==> s.edges[e].slot0.value < |s.halfedges|)
      ensures (s.edges[e].slot1.Some? ==> s.edges[e].slot1.value < |s.halfedges|)
    {
      assert SlotOk(s.halfedges, s.edges[e].slot0, e, |s.halfedges|);
      assert SlotOk(s.halfedges, s.edges[e].slot1, e, |s.halfedges|);
    }
  }

  /** `v.rotateCcwAboutTarget()`: vertex `v`'s pointer is replaced by the end of the walk from it. */
  function RotateVertex(hes: seq<HalfEdge>, edges: seq<Edge>, recs: seq<Vertex>, v: nat): (r: seq<Vertex>)
    requires Navigable(hes, edges) && PointersOk(hes, edges, recs) && v < |recs| && recs[v].halfedge.Some?
    ensures PointersOk(hes, edges, r) && |r| == |recs|
  {
    var r := recs[v := recs[v].(halfedge := Some(RotateCcw(hes, edges, recs[v].halfedge.value, |hes|)))];
    assert forall h :: 0 <= h < |hes| ==> recs[hes[h].vertex].halfedge.Some? && r[hes[h].vertex].halfedge.Some?;
    r
  }

  /** The target of the slot-0 half-edge of edge `e`. */
  function EndA(hes: seq<HalfEdge>, edges: seq<Edge>, e: nat): nat
    requires Navigable(hes, edges) && e < |edges| && edges[e].slot0.Some?
  {
    hes[edges[e].slot0.value].vertex
  }

  /** The source of the slot-0 half-edge of edge `e`. */
  function EndB(hes: seq<HalfEdge>, edges: seq<Edge>, e: nat): nat
    requires Navigable(hes, edges) && e < |edges| && edges[e].slot0.Some?
  {
    hes[hes[edges[e].slot0.value].prev].vertex
  }

  /** One iteration of the pass: a boundary edge rotates its two ends, any other edge does nothing. */
  function BoundaryStep(hes: seq<HalfEdge>, edges: seq<Edge>, recs: seq<Vertex>, e: nat): (r: seq<Vertex>)
    requires Navigable(hes, edges) && PointersOk(hes, edges, recs) && e < |edges|
    ensures PointersOk(hes, edges, r) && |r| == |recs|
  {
    if edges[e].slot1.None? then
      var h := edges[e].slot0.value;
      assert recs[hes[h].vertex].halfedge.Some?;
      var r1 := RotateVertex(hes, edges, recs, hes[h].vertex);
      assert r1[hes[hes[h].prev].vertex].halfedge.Some?;
      RotateVertex(hes, edges, r1, hes[hes[h].prev].vertex)
    else recs
  }

  /** The pass over the first `n` edges. */
  function BoundaryUpTo(hes: seq<HalfEdge>, edges: seq<Edge>, recs: seq<Vertex>, n: nat): (r: seq<Vertex>)
    requires Navigable(hes, edges) && PointersOk(hes, edges, recs) && n <= |edges|
    ensures PointersOk(hes, edges, r) && |r| == |recs|
  {
    if n == 0 then recs else BoundaryStep(hes, edges, BoundaryUpTo(hes, edges, recs, n - 1), n - 1)
  }

  /** `updateBoundary`: only the vertex records change. */
  function UpdateBoundary(s: MeshState): MeshState
    requires Navigable(s.halfedges, s.edges) && PointersOk(s.halfedges, s.edges, s.vertexRecs)
  {
    s.(vertexRecs := BoundaryUpTo(s.halfedges, s.edges, s.vertexRecs, |s.edges|))
  }

  /** The ends of those of the first `n` edges whose slot 1 is empty: the vertices the pass may touch. */
  function BoundaryEnds(hes: seq<HalfEdge>, edges: seq<Edge>, n: nat): set<nat>
    requires Navigable(hes, edges) && n <= |edges| && forall e :: 0 <= e < |edges| ==> edges[e].slot0.Some?
  {
    if n == 0 then {}
    else if edges[n - 1].slot1.None? then BoundaryEnds(hes, edges, n - 1) + {EndA(hes, edges, n - 1), EndB(hes, edges, n - 1)}
    else BoundaryEnds(hes, edges, n - 1)
  }

  /** A vertex is a boundary end exactly when it ends one of the first `n` edges and that edge's slot 1 is empty. */
  lemma {:induction false} BoundaryEndsMeans(hes: seq<HalfEdge>, edges: seq<Edge>, n: nat, v: nat)
    requires Navigable(hes, edges) && n <= |edges| && forall e :: 0 <= e < |edges| ==> edges[e].slot0.Some?
    ensures v in BoundaryEnds(hes, edges, n) <==>
            exists e :: 0 <= e < n && edges[e].slot1.None? && (v == EndA(hes, edges, e) || v == EndB(hes, edges, e))
  {
    if n > 0 {
      BoundaryEndsMeans(hes, edges, n - 1, v);
      if v in BoundaryEnds(hes, edges, n) && v !in BoundaryEnds(hes, edges, n - 1) {
        assert edges[n - 1].slot1.None? && (v == EndA(hes, edges, n - 1) || v == EndB(hes, edges, n - 1));
      }
      if v !in BoundaryEnds(hes, edges, n) {
        forall e | 0 <= e < n && edges[e].slot1.None?
          ensures v != EndA(hes, edges, e) && v != EndB(hes, edges, e)
        {
        }
      }
    }
  }

  /** One iteration changes only the pointers of the two ends of a boundary edge. */
  lemma BoundaryStepFrame(hes: seq<HalfEdge>, edges: seq<Edge>, recs: seq<Vertex>, e: nat, v: nat)
    requires Navigable(hes, edges) && PointersOk(hes, edges, recs) && e < |edges| && v < |recs|
    ensures var r := BoundaryStep(hes, edges, recs, e);
            && (!(edges[e].slot1.None? && (v == EndA(hes, edges, e) || v == EndB(hes, edges, e))) ==> r[v] == recs[v])
            && r[v].id == recs[v].id && r[v].fixed == recs[v].fixed && r[v].index == recs[v].index
  {
  }

  /** Edge `n - 1`'s turn of the pass changes vertex `v` only in its pointer, and only if `v` ends that edge and it is a boundary edge. */
  lemma BoundaryUpToStep(hes: seq<HalfEdge>, edges: seq<Edge>, recs: seq<Vertex>, n: nat, v: nat)
    requires Navigable(hes, edges) && PointersOk(hes, edges, recs) && 0 < n <= |edges| && v < |recs|
    ensures var r0, r := BoundaryUpTo(hes, edges, recs, n - 1), BoundaryUpTo(hes, edges, recs, n);
            && (!(edges[n - 1].slot1.None? && (v == EndA(hes, edges, n - 1) || v == EndB(hes, edges, n - 1))) ==> r[v] == r0[v])
            && r[v].id == r0[v].id && r[v].fixed == r0[v].fixed && r[v].index == r0[v].index
  {
    BoundaryStepFrame(hes, edges, BoundaryUpTo(hes, edges, recs, n - 1), n - 1, v);
  }

  /** The pass over the first `n` edges changes vertex `v` only in its pointer. */
  lemma {:induction false} BoundaryPointerOnlyAt(hes: seq<HalfEdge>, edges: seq<Edge>, recs: seq<Vertex>, n: nat, v: nat)
    requires Navigable(hes, edges) && PointersOk(hes, edges, recs) && n <= |edges| && v < |recs|
    ensures var r := BoundaryUpTo(hes, edges, recs, n);
            r[v] == recs[v].(halfedge := r[v].halfedge)
  {
    if n > 0 {
      BoundaryPointerOnlyAt(hes, edges, recs, n - 1, v);
      BoundaryUpToStep(hes, edges, recs, n, v);
    }
  }

  /** The pass over the first `n` edges leaves vertex `v` alone unless `v` ends a boundary edge. */
  lemma {:induction false} BoundaryFrameAt(hes: seq<HalfEdge>, edges: seq<Edge>, recs: seq<Vertex>, n: nat, v: nat)
    requires Navigable(hes, edges) && PointersOk(hes, edges, recs) && n <= |edges| && v < |recs|
    ensures v !in BoundaryEnds(hes, edges, n) ==> BoundaryUpTo(hes, edges, recs, n)[v] == recs[v]
  {
    if n > 0 {
      BoundaryFrameAt(hes, edges, recs, n - 1, v);
      BoundaryUpToStep(hes, edges, recs, n, v);
    }
  }

  /**
   * The pass changes nothing but the half-edge pointers of ends of boundary
   * edges: every other vertex record, and every id, fixed flag and index, is
   * as it was, and no other part of the mesh changes.
   */
  lemma BoundaryFrame(s: MeshState)
    requires Navigable(s.halfedges, s.edges) && PointersOk(s.halfedges, s.edges, s.vertexRecs)
    ensures var t := UpdateBoundary(s);
            && t == s.(vertexRecs := t.vertexRecs) && |t.vertexRecs| == |s.vertexRecs|
            && (forall v :: 0 <= v < |s.vertexRecs| && v !in BoundaryEnds(s.halfedges, s.edges, |s.edges|) ==>
                  t.vertexRecs[v] == s.vertexRecs[v])
            && (forall v :: 0 <= v < |s.vertexRecs| ==> t.vertexRecs[v] == s.vertexRecs[v].(halfedge := t.vertexRecs[v].halfedge))
  {
    forall v | 0 <= v < |s.vertexRecs|
      ensures var r := BoundaryUpTo(s.halfedges, s.edges, s.vertexRecs, |s.edges|);
              && (v !in BoundaryEnds(s.halfedges, s.edges, |s.edges|) ==> r[v] == s.vertexRecs[v])
              && r[v] == s.vertexRecs[v].(halfedge := r[v].halfedge)
    {
      BoundaryFrameAt(s.halfedges, s.edges, s.vertexRecs, |s.edges|, v);
      BoundaryPointerOnlyAt(s.halfedges, s.edges, s.vertexRecs, |s.edges|, v);
    }
  }

  /** Vertex `v`'s pointer sits at a half-edge without a sibling. */
  ghost predicate AtGap(hes: seq<HalfEdge>, edges: seq<Edge>, recs: seq<Vertex>, v: nat)
    requires Navigable(hes, edges) && PointersOk(hes, edges, recs) && v < |recs| && recs[v].halfedge.Some?
  {
    OtherHalfEdge(hes, edges, recs[v].halfedge.value).None?
  }

  /** Both ends of every boundary edge among the first `n` have pointers at half-edges without siblings. */
  ghost predicate Canonical(hes: seq<HalfEdge>, edges: seq<Edge>, recs: seq<Vertex>, n: nat)
    requires Navigable(hes, edges) && PointersOk(hes, edges, recs) && n <= |edges|
  {
    forall e :: 0 <= e < n && edges[e].slot1.None? ==>
      AtGap(hes, edges, recs, EndA(hes, edges, e)) && AtGap(hes, edges, recs, EndB(hes, edges, e))
  }


  /**
   * Records whose boundary-end pointers already sit at a half-edge without a
   * sibling are left unchanged by the pass: a canonical pointer is not moved.
   */
  lemma {:induction false} BoundaryKeepsCanonical(hes: seq<HalfEdge>, edges: seq<Edge>, recs: seq<Vertex>, n: nat)
    requires Navigable(hes, edges) && PointersOk(hes, edges, recs) && n <= |edges|
    requires Canonical(hes, edges, recs, n)
    ensures BoundaryUpTo(hes, edges, recs, n) == recs
  {
    if n > 0 {
      BoundaryKeepsCanonical(hes, edges, recs, n - 1);
    }
  }
  /** Pointing boundary vertices at their boundary half-edges keeps every id, and which vertices have a half-edge. */
  lemma BoundaryKeepsLinked(s: MeshState)
    requires Valid(s)
    ensures var t := UpdateBoundary(s);
            && |t.vertexRecs| == |s.vertexRecs|
            && forall v :: 0 <= v < |s.vertexRecs| ==>
                 && (t.vertexRecs[v].halfedge.Some? <==> s.vertexRecs[v].halfedge.Some?)
                 && t.vertexRecs[v].id == s.vertexRecs[v].id
  {
    ValidRotatable(s);
    BoundaryFrame(s);
    var t := UpdateBoundary(s);
    var ends := BoundaryEnds(s.halfedges, s.edges, |s.edges|);
    forall v | 0 <= v < |s.vertexRecs|
      ensures t.vertexRecs[v].halfedge.Some? <==> s.vertexRecs[v].halfedge.Some?
      ensures t.vertexRecs[v].id == s.vertexRecs[v].id
    {
      if v in ends {
        BoundaryEndsMeans(s.halfedges, s.edges, |s.edges|, v);
        var e :| 0 <= e < |s.edges| && s.edges[e].slot1.None? &&
                 (v == EndA(s.halfedges, s.edges, e) || v == EndB(s.halfedges, s.edges, e));
        var h := s.edges[e].slot0.value;
        if v == EndA(s.halfedges, s.edges, e) {
          assert s.halfedges[h].vertex == v;
        } else {
          assert s.halfedges[s.halfedges[h].prev].vertex == v;
        }
      }
    }
  }

  /**
   * The pass keeps every invariant of a valid mesh, keeps every half-edge
   * filed under its key, and makes no vertex dangle or stop dangling.
   */
  lemma UpdateBoundaryValid(s: MeshState)
    requires Valid(s)
    ensures Navigable(s.halfedges, s.edges) && PointersOk(s.halfedges, s.edges, s.vertexRecs)
    ensures var t := UpdateBoundary(s);
            && Valid(t)
            && (Keyed(s) ==> Keyed(t))
            && (forall j :: DanglingAt(t, j) <==> DanglingAt(s, j))
  {
    ValidRotatable(s);
    BoundaryFrame(s);
    var t := UpdateBoundary(s);
    BoundaryKeepsLinked(s);
    forall h | 0 <= h < |t.halfedges|
      ensures t.vertexRecs[t.halfedges[h].vertex].halfedge.Some?
    {
      assert s.vertexRecs[s.halfedges[h].vertex].halfedge.Some?;
    }
    assert IdsDense(t) by {
      forall j | 0 <= j < |t.vertices|
        ensures t.vertices[j] < |t.vertexRecs| && t.vertexRecs[t.vertices[j]].id == j
      {
      }
    }
    if Keyed(s) {
      forall h | 0 <= h < |t.halfedges|
        ensures KeyedAt(t, h)
      {
        assert KeyedAt(s, h);
        assert HalfEdgeKey(t, h) == HalfEdgeKey(s, h);
      }
    }
  }
}
