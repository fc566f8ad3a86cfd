/**
 * `RunLSCM` (lscm.go:9-127) and `Edge.updateLength` (edge.go:16-21) on a
 * mesh object. Each loop of the source is a method whose contract ties the
 * object's new state, or its result, to the stage functions of `Lengths`,
 * `Partition`, `Assembly` and `ReadBack`. `RunLSCM` itself is proved to
 * do what `Pipeline.Run` describes.
 */
module Lscm {
  import opened Wrappers
  import opened Points
  import opened Topology
  import opened MeshStates
  import Compaction
  import Boundary
  import opened Lengths
  import opened Partition
  import opened Assembly
  import opened ReadBack
  import opened Pipeline
  import opened Meshes

  /** `edge.updateLength()`, squared: edge `e` caches the squared distance between its slot-0 source and target. */
  method UpdateLength(m: Mesh, e: nat)
    requires LengthDefined(m.State(), e)
    modifies m`edges
    ensures m.edges == old(m.edges)[e := old(m.edges)[e].(squaredLength := EdgeSquaredLength(old(m.State()), e))]
  {
    var h := m.edges[e].slot0.value;
    var v1 := m.halfedges[m.halfedges[h].prev].vertex;
    var v2 := m.halfedges[h].vertex;
    var vd := Sub(m.GetPoint(m.vertexRecs[v1].id), m.GetPoint(m.vertexRecs[v2].id));
    m.edges := m.edges[e := m.edges[e].(squaredLength := SquaredNorm(vd))];
  }

  /** lscm.go:14-16: every edge measured, nothing else changed. */
  method UpdateLengths(m: Mesh)
    requires forall e :: 0 <= e < |m.edges| ==> LengthDefined(m.State(), e)
    modifies m`edges
    ensures m.State() == WithLengths(old(m.State()))
  {
    ghost var s0 := m.State();
    var e := 0;
    while e < |m.edges|
      invariant e <= |m.edges| == |s0.edges|
      invariant m.State() == s0.(edges := m.edges)
      invariant m.edges == LengthsUpTo(s0, e)
    {
      EdgeSquaredLengthFrame(s0, m.edges, e);
      UpdateLength(m, e);
      e := e + 1;
    }
  }

  /** The face loop's reading half (lscm.go:18-23): the cached lengths of face `fid`'s three edges, in `next` order. */
  method ReadFaceLengths(m: Mesh, fid: nat) returns (hel: (real, real, real))
    requires FacesOnEdges(m.halfedges, m.edges) && 3 * fid + 2 < |m.halfedges|
    requires fid < |m.faces| && m.faces[fid].halfedge == 3 * fid
    requires forall h :: 0 <= h < |m.halfedges| ==> m.halfedges[h].next == NextInCycle(h)
    ensures hel == FaceLengths(m.halfedges, m.edges, fid)
  {
    var ls := [0.0, 0.0, 0.0];
    var he := m.faces[fid].halfedge;
    for i := 0 to 3
      invariant |ls| == 3 && he == 3 * fid + i % 3
      invariant forall k :: 0 <= k < i ==> ls[k] == m.edges[m.halfedges[3 * fid + k].edge].squaredLength
    {
      ls := ls[i := m.edges[m.halfedges[he].edge].squaredLength];
      CornerArithmetic(fid, i);
      he := m.halfedges[he].next;
    }
    hel := (ls[0], ls[1], ls[2]);
  }

  /** The face loop's writing half (lscm.go:36-43): half-edge `3fid+i` gets coefficient `i`. */
  method WriteFaceCoefficients(m: Mesh, fid: nat, cs: (Point3, Point3, Point3))
    requires 3 * fid + 2 < |m.halfedges|
    requires fid < |m.faces| && m.faces[fid].halfedge == 3 * fid
    requires forall h :: 0 <= h < |m.halfedges| ==> m.halfedges[h].next == NextInCycle(h)
    modifies m`halfedges
    ensures |m.halfedges| == |old(m.halfedges)|
    ensures forall h :: 0 <= h < |m.halfedges| ==>
              m.halfedges[h] == if 3 * fid <= h < 3 * fid + 3 then old(m.halfedges[h]).(coefficients := Pick(cs, h - 3 * fid))
                                else old(m.halfedges[h])
  {
    var he := m.faces[fid].halfedge;
    for i := 0 to 3
      invariant |m.halfedges| == |old(m.halfedges)| && he == 3 * fid + i % 3
      invariant forall h :: 0 <= h < |m.halfedges| ==>
                  m.halfedges[h] == if 3 * fid <= h < 3 * fid + i then old(m.halfedges[h]).(coefficients := Pick(cs, h - 3 * fid))
                                    else old(m.halfedges[h])
    {
      m.halfedges := m.halfedges[he := m.halfedges[he].(coefficients := Pick(cs, i))];
      CornerArithmetic(fid, i);
      he := m.halfedges[he].next;
    }
  }

  /** lscm.go:17-44: every face's half-edges get their coefficients from the face's edge lengths. */
  method SetCoefficients(m: Mesh, rule: CoefficientRule)
    requires FacesOnEdges(m.halfedges, m.edges) && Cycles(m.State())
    modifies m`halfedges
    ensures m.halfedges == CoefficientsUpTo(old(m.halfedges), m.edges, rule, |m.halfedges|)
  {
    ghost var h0 := m.halfedges;
    for fid := 0 to |m.faces|
      invariant |m.halfedges| == |h0|
      invariant forall h :: 0 <= h < |h0| ==> m.halfedges[h] == h0[h].(coefficients := m.halfedges[h].coefficients)
      invariant m.halfedges == CoefficientsUpTo(h0, m.edges, rule, 3 * fid)
    {
      assert FaceLengths(m.halfedges, m.edges, fid) == FaceLengths(h0, m.edges, fid);
      var hel := ReadFaceLengths(m, fid);
      var cs := rule(hel);
      WriteFaceCoefficients(m, fid, cs);
      forall h | 0 <= h < |h0|
        ensures m.halfedges[h] == CoefficientsUpTo(h0, m.edges, rule, 3 * fid + 3)[h]
      {
        if 3 * fid <= h < 3 * fid + 3 {
          assert h / 3 == fid && h % 3 == h - 3 * fid;
        }
      }
    }
  }

  /** lscm.go:47-55: the free list and the fixed list, each in mesh order. */
  method PartitionVertices(m: Mesh) returns (free: seq<nat>, fixed: seq<nat>)
    requires HandlesIn(m.vertices, m.vertexRecs)
    ensures free == Select(m.vertices, m.vertexRecs, false)
    ensures fixed == Select(m.vertices, m.vertexRecs, true)
  {
    free, fixed := [], [];
    for i := 0 to |m.vertices|
      invariant free == Select(m.vertices[..i], m.vertexRecs, false)
      invariant fixed == Select(m.vertices[..i], m.vertexRecs, true)
    {
      var v := m.vertices[i];
      assert m.vertices[..i + 1][..i] == m.vertices[..i];
      if m.vertexRecs[v].fixed {
        fixed := fixed + [v];
      } else {
        free := free + [v];
      }
    }
    assert m.vertices[..|m.vertices|] == m.vertices;
  }

  /** lscm.go:56-61: `list[i].index = i` for every `i`. */
  method NumberVertices(m: Mesh, list: seq<nat>)
    requires HandlesIn(list, m.vertexRecs)
    modifies m`vertexRecs
    ensures m.vertexRecs == Numbered(old(m.vertexRecs), list, |list|)
  {
    for i := 0 to |list|
      invariant m.vertexRecs == Numbered(old(m.vertexRecs), list, i)
    {
      var v := list[i];
      m.vertexRecs := m.vertexRecs[v := m.vertexRecs[v].(index := i)];
    }
  }

  /** The body of the inner loop of lscm.go:73-93 for half-edge `he`: its block, and a fixed vertex's uv. */
  method AssembleCorner(m: Mesh, free: seq<nat>, fixed: seq<nat>, he: nat, sys: System) returns (r: System)
    requires Assemblable(m.halfedges, m.vertexRecs, m.uvs, free, fixed) && he < |m.halfedges|
    requires Sized(sys, |m.halfedges| / 3, |free|, |fixed|)
    ensures r == CornerStep(sys, m.halfedges, m.vertexRecs, m.uvs, free, fixed, he)
  {
    var fn, vn, vfn, fid := |m.halfedges| / 3, |free|, |fixed|, he / 3;
    var v := m.halfedges[m.halfedges[he].next].vertex;
    var vid: nat := m.vertexRecs[v].index;
    var c := m.halfedges[he].coefficients;
    var a, b, f := sys.a, sys.b, sys.f;
    if !m.vertexRecs[v].fixed {
      a := Put(a, fid, vid, c.x);
      a := Put(a, fn + fid, vn + vid, c.x);
      a := Put(a, fid, vn + vid, -c.y);
      a := Put(a, fn + fid, vid, c.y);
    } else {
      b := Put(b, fid, vid, c.x);
      b := Put(b, fn + fid, vfn + vid, c.x);
      b := Put(b, fid, vfn + vid, -c.y);
      b := Put(b, fn + fid, vid, c.y);
      var uv := m.GetUV(m.vertexRecs[v].id);
      f := f[vid := uv.x];
      f := f[vfn + vid := uv.y];
    }
    r := System(a, b, f);
  }

  /**
   * One turn of the inner loop of lscm.go:73-93: half-edge `he`'s block, then
   * on to `he.next`, the following half-edge of its face; `done` counts the
   * half-edges handled so far.
   */
  method AssembleNext(m: Mesh, free: seq<nat>, fixed: seq<nat>, fid: nat, i: nat, he: nat, sys: System)
    returns (r: System, next: nat, done: nat)
    requires Assemblable(m.halfedges, m.vertexRecs, m.uvs, free, fixed) && 3 * fid + 2 < |m.halfedges|
    requires i < 3 && he == 3 * fid + i
    requires sys == Assembled(m.halfedges, m.vertexRecs, m.uvs, free, fixed, he)
    ensures done == he + 1 && r == Assembled(m.halfedges, m.vertexRecs, m.uvs, free, fixed, done)
    ensures i < 2 ==> next == done
  {
    done := he + 1;
    AssembledStep(sys, m.halfedges, m.vertexRecs, m.uvs, free, fixed, he);
    r := AssembleCorner(m, free, fixed, he, sys);
    if i < 2 {
      FaceNext(m.halfedges, m.vertexRecs, m.uvs, free, fixed, fid, i, he);
    }
    next := m.halfedges[he].next;
  }

  /**
   * The inner loop of lscm.go:73-93 for face `fid`: its three half-edges, in
   * `next` order. `start` counts the half-edges handled before, `done` those
   * handled after.
   */
  method AssembleFace(m: Mesh, free: seq<nat>, fixed: seq<nat>, fid: nat, start: nat, sys: System)
    returns (r: System, done: nat)
    requires Assemblable(m.halfedges, m.vertexRecs, m.uvs, free, fixed) && 3 * fid + 2 < |m.halfedges|
    requires fid < |m.faces| && m.faces[fid].halfedge == 3 * fid && start == 3 * fid
    requires sys == Assembled(m.halfedges, m.vertexRecs, m.uvs, free, fixed, start)
    ensures done == start + 3 && r == Assembled(m.halfedges, m.vertexRecs, m.uvs, free, fixed, done)
  {
    ghost var hes, recs, uvs := m.halfedges, m.vertexRecs, m.uvs;
    done := start;
    r := sys;
    var he := m.faces[fid].halfedge;
    for i := 0 to 3
      invariant m.halfedges == hes && m.vertexRecs == recs && m.uvs == uvs
      invariant done == start + i && (i < 3 ==> he == done)
      invariant r == Assembled(hes, recs, uvs, free, fixed, done)
    {
      r, he, done := AssembleNext(m, free, fixed, fid, i, he, r);
    }
  }

  /** lscm.go:67-93: `A`, `B` and `f` filled face by face. */
  method Assemble(m: Mesh, free: seq<nat>, fixed: seq<nat>) returns (sys: System)
    requires Assemblable(m.halfedges, m.vertexRecs, m.uvs, free, fixed) && |m.halfedges| == 3 * |m.faces|
    requires forall f :: 0 <= f < |m.faces| ==> m.faces[f].halfedge == 3 * f
    ensures sys == Assembled(m.halfedges, m.vertexRecs, m.uvs, free, fixed, |m.halfedges|)
  {
    var fn, vn, vfn := |m.faces|, |free|, |fixed|;
    ghost var hes, recs, uvs := m.halfedges, m.vertexRecs, m.uvs;
    sys := Empty(fn, vn, vfn);
    assert sys == Assembled(hes, recs, uvs, free, fixed, 0) by {
      assert |hes| / 3 == fn;
    }
    var done := 0;
    var fid := 0;
    while fid < fn
      invariant fid <= fn && done == 3 * fid && sys == Assembled(hes, recs, uvs, free, fixed, done)
    {
      sys, done := AssembleFace(m, free, fixed, fid, done, sys);
      fid := fid + 1;
    }
  }

  /** lscm.go:106-117: free vertex `i` gets `(x[i], x[U+i])`; the box of those uvs grows from `(0, 0)`. */
  method ReadBackUVs(m: Mesh, free: seq<nat>, x: seq<real>) returns (uvMin: Point2, uvMax: Point2)
    requires UvsFor(m.vertexRecs, m.uvs, free) && |x| == 2 * |free|
    modifies m`uvs
    ensures m.uvs == ReadBackUpTo(m.vertexRecs, old(m.uvs), free, x, |free|)
    ensures (uvMin, uvMax) == Bounds(x, |free|)
  {
    var vn := |free|;
    ghost var us, vs := x[..vn], x[vn..];
    uvMin, uvMax := Point2(0.0, 0.0), Point2(0.0, 0.0);
    for i := 0 to vn
      invariant |m.uvs| == |old(m.uvs)|
      invariant m.uvs == ReadBackUpTo(m.vertexRecs, old(m.uvs), free, x, i)
      invariant uvMin == Point2(FoldMin(us[..i]), FoldMin(vs[..i]))
      invariant uvMax == Point2(FoldMax(us[..i]), FoldMax(vs[..i]))
    {
      var v := free[i];
      var uv := Point2(x[i], x[i + vn]);
      m.SetUV(m.vertexRecs[v].id, uv);
      FoldPrefix(us, i);
      FoldPrefix(vs, i);
      assert us[i] == uv.x && vs[i] == uv.y;
      uvMin := Point2(Min(uvMin.x, uv.x), Min(uvMin.y, uv.y));
      uvMax := Point2(Max(uvMax.x, uv.x), Max(uvMax.y, uv.y));
    }
    assert us[..vn] == us && vs[..vn] == vs;
  }

  /** lscm.go:119-124: every vertex's uv mapped by `(uv - min) / (max - min)`. */
  method Rescale(m: Mesh, uvMin: Point2, uvMax: Point2)
    requires |m.uvs| == 2 * |m.vertices|
    requires forall j :: 0 <= j < |m.vertices| ==> m.vertices[j] < |m.vertexRecs| && m.vertexRecs[m.vertices[j]].id == j
    modifies m`uvs
    ensures m.uvs == RescaledUpTo(old(m.uvs), uvMin, uvMax, |m.vertices|)
  {
    for j := 0 to |m.vertices|
      invariant m.uvs == RescaledUpTo(old(m.uvs), uvMin, uvMax, j)
    {
      var id := m.vertexRecs[m.vertices[j]].id;
      var uv := m.GetUV(id);
      RescaledStep(old(m.uvs), uvMin, uvMax, j);
      m.SetUV(id, Point2(Scale(uv.x, uvMin.x, uvMax.x), Scale(uv.y, uvMin.y, uvMax.y)));
    }
  }

  /** lscm.go:10-16: compaction, the boundary pass and edge lengths. */
  method Measure(m: Mesh)
    requires Runnable(m.State())
    modifies m
    ensures m.State() == Measured(old(m.State()))
  {
    Compaction.CompactValid(m.State());
    m.RemoveDanglingVertices();
    ghost var c := m.State();
    Boundary.UpdateBoundaryValid(c);
    m.UpdateBoundary();
    ghost var b := m.State();
    assert b == Boundary.UpdateBoundary(c);
    ValidLengthDefined(b);
    UpdateLengths(m);
  }

  /** lscm.go:10-44: the mesh measured, then every face's coefficients set. */
  method Prepare(m: Mesh, rule: CoefficientRule)
    requires Runnable(m.State())
    modifies m
    ensures m.State() == Prepared(old(m.State()), rule)
  {
    Measure(m);
    SetCoefficients(m, rule);
  }

  /** lscm.go:46-61: the free and fixed lists, and every listed vertex numbered within its own list. */
  method SplitAndNumber(m: Mesh) returns (free: seq<nat>, fixed: seq<nat>)
    requires Valid(m.State())
    modifies m`vertexRecs
    ensures free == FreeList(old(m.State())) && fixed == FixedList(old(m.State()))
    ensures m.State() == Numbering(old(m.State()))
  {
    ValidHandles(m.State());
    free, fixed := PartitionVertices(m);
    NumberVertices(m, free);
    NumberVertices(m, fixed);
  }

  /** lscm.go:105-124 once the solve succeeded with `x`. */
  method Finish(m: Mesh, ghost p: MeshState, free: seq<nat>, x: seq<real>)
    requires Valid(p) && m.State() == Numbering(p) && free == FreeList(p) && |x| == 2 * |free|
    modifies m`uvs
    ensures m.State() == Pipeline.Finish(p, x)
  {
    NumberedReadable(p);
    NumberingMeans(p);
    var uvMin, uvMax := ReadBackUVs(m, free, x);
    Rescale(m, uvMin, uvMax);
  }

  /**
   * `RunLSCM(mesh)`: the mesh afterwards and the error returned are those of
   * `Pipeline.Run`, whose properties (`Pipeline.RunOutcome`) therefore hold of
   * this method.
   */
  method RunLSCM(m: Mesh, rule: CoefficientRule, solve: Solver) returns (err: Option<LscmError>)
    requires Runnable(m.State()) && SolverSized(solve)
    modifies m
    ensures (m.State(), err) == Run(old(m.State()), rule, solve)
  {
    Prepare(m, rule);
    ghost var p := m.State();
    var free, fixed := SplitAndNumber(m);
    if |fixed| < 2 {
      return Some(TooFewFixedVertices);
    }
    if |free| == 0 {
      return Some(ZeroLengthPanic);
    }
    NumberedAssemblable(p);
    var sys := Assemble(m, free, fixed);
    assert sys == SystemOf(p);
    var r := NegMulVec(sys.b, sys.f);
    var sol := solve(sys.a, r, 2 * |free|);
    if sol.None? {
      return Some(SolveFailed);
    }
    Finish(m, p, free, sol.value);
    err := None;
  }
}
