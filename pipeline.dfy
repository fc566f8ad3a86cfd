/**
 * `RunLSCM` (lscm.go:9-127) as a function of the mesh state: compaction,
 * the boundary pass, edge lengths, coefficients, the free/fixed partition
 * with its numbering, the two-fixed-vertices check, assembly, the solve, and
 * read-back with rescale. The solver is a parameter.
 */
module Pipeline {
  import opened Wrappers
  import opened Points
  import opened Topology
  import opened MeshStates
  import Compaction
  import Boundary
  import opened Lengths
  import opened Partition
  import opened Assembly
  import opened ReadBack

  /**
   * The ways `RunLSCM` fails: its two errors, and the panic of gonum's
   * `mat.NewDense` on a zero dimension, which lscm.go:70 meets when no free
   * vertex survives (`2 * vn == 0` columns).
   */
  datatype LscmError = TooFewFixedVertices | SolveFailed | ZeroLengthPanic

  /**
   * The least-squares solve `smat.Solve(A, r)`: given `A`, `r` and the
   * number of unknowns, a solution or a failure.
   */
  type Solver = (Matrix, seq<real>, nat) -> Option<seq<real>>

  /** A solver's solution has one entry per unknown (the `2U×1` result matrix). */
  ghost predicate SolverSized(solve: Solver)
  {
    forall a, r, n :: solve(a, r, n).Some? ==> |solve(a, r, n).value| == n
  }

  /**
   * What `RunLSCM` needs of the mesh: a valid mesh, and a normal per vertex
   * whenever some vertex dangles (compaction copies normals without a check).
   */
  ghost predicate Runnable(s: MeshState)
  {
    Valid(s) && (|s.normals| >= 3 * |s.vertices| || !HasDangling(s))
  }

  /** The listed handles of a valid mesh name records, and none is listed twice. */
  lemma ValidHandles(s: MeshState)
    requires Valid(s)
    ensures HandlesIn(s.vertices, s.vertexRecs) && Compaction.Distinct(s.vertices)
  {
    Compaction.DenseIdsDistinct(s);
  }

  /** The mesh after lscm.go:10-16: compacted, boundary pointers rotated, every edge measured. */
  function Measured(s: MeshState): (t: MeshState)
    requires Runnable(s)
    ensures Valid(t) && FacesOnEdges(t.halfedges, t.edges)
  {
    Compaction.CompactValid(s);
    var c := Compaction.Compact(s);
    Boundary.UpdateBoundaryValid(c);
    var b := Boundary.UpdateBoundary(c);
    ValidLengthDefined(b);
    WithLengthsShape(b);
    SameShapeValid(b, WithLengths(b));
    ValidFacesOnEdges(WithLengths(b));
    WithLengths(b)
  }

  /** The coefficient loop of lscm.go:17-44 over every face, with the coefficients from `rule`. */
  function Coefficiented(t: MeshState, rule: CoefficientRule): (p: MeshState)
    requires Valid(t)
    ensures Valid(p) && SameShape(t, p)
  {
    ValidFacesOnEdges(t);
    CoefficientsUpToShape(t, rule, |t.halfedges|);
    var p := t.(halfedges := CoefficientsUpTo(t.halfedges, t.edges, rule, |t.halfedges|));
    SameShapeValid(t, p);
    p
  }

  /** The free list of lscm.go:47-55: the listed vertices that are not fixed, in mesh order. */
  function FreeList(p: MeshState): (r: seq<nat>)
    requires Valid(p)
  {
    ValidHandles(p);
    Select(p.vertices, p.vertexRecs, false)
  }

  /** The fixed list of lscm.go:47-55: the listed vertices that are fixed, in mesh order. */
  function FixedList(p: MeshState): (r: seq<nat>)
    requires Valid(p)
  {
    ValidHandles(p);
    Select(p.vertices, p.vertexRecs, true)
  }

  /** lscm.go:56-61: every vertex's index set to its position in its own list. */
  function Numbering(p: MeshState): (q: MeshState)
    requires Valid(p)
  {
    ValidHandles(p);
    var free, fixed := FreeList(p), FixedList(p);
    p.(vertexRecs := Numbered(Numbered(p.vertexRecs, free, |free|), fixed, |fixed|))
  }

  /**
   * Numbering changes nothing but indices, so the mesh stays valid, and every
   * listed vertex is found in its own list at its index.
   */
  lemma NumberingMeans(p: MeshState)
    requires Valid(p)
    ensures var q, free, fixed := Numbering(p), FreeList(p), FixedList(p);
            && SameShape(p, q) && Valid(q)
            && (forall v :: v in q.vertices ==> IndexFits(q.vertexRecs, q.uvs, free, fixed, v))
  {
    ValidHandles(p);
    NumberingFacts(p.vertices, p.vertexRecs);
    var q, free, fixed := Numbering(p), FreeList(p), FixedList(p);
    SameShapeValid(p, q);
    forall v | v in q.vertices
      ensures IndexFits(q.vertexRecs, q.uvs, free, fixed, v)
    {
      var j :| 0 <= j < |p.vertices| && p.vertices[j] == v;
      assert p.vertexRecs[v].id == j;
    }
  }

  /** After numbering, the system can be assembled over the free and fixed lists. */
  lemma NumberedAssemblable(p: MeshState)
    requires Valid(p)
    ensures var q := Numbering(p);
            Assemblable(q.halfedges, q.vertexRecs, q.uvs, FreeList(p), FixedList(p))
  {
    NumberingMeans(p);
    var q := Numbering(p);
    forall h | 0 <= h < |q.halfedges|
      ensures q.halfedges[h].next < |q.halfedges|
    {
      CornerArithmetic(h / 3, h % 3);
    }
  }

  /** After numbering, every free vertex has its own uv pair to read the solution into. */
  lemma NumberedReadable(p: MeshState)
    requires Valid(p)
    ensures var q, free := Numbering(p), FreeList(p);
            && (forall i :: 0 <= i < |free| ==> free[i] < |q.vertexRecs|)
            && UvsFor(q.vertexRecs, q.uvs, free) && IdsApart(q.vertexRecs, free)
  {
    NumberingMeans(p);
    ValidHandles(p);
    var q, free := Numbering(p), FreeList(p);
    SelectDistinct(p.vertices, p.vertexRecs, false);
    forall i | 0 <= i < |free|
      ensures free[i] in q.vertices
    {
      SelectMembers(p.vertices, p.vertexRecs, false, free[i]);
    }
    forall i, j | 0 <= i < |free| && 0 <= j < |free| && i != j
      ensures q.vertexRecs[free[i]].id != q.vertexRecs[free[j]].id
    {
      var a :| 0 <= a < |q.vertices| && q.vertices[a] == free[i];
      var b :| 0 <= b < |q.vertices| && q.vertices[b] == free[j];
      assert q.vertexRecs[q.vertices[a]].id == a && q.vertexRecs[q.vertices[b]].id == b;
    }
  }

  /** The mesh the partition starts from: lscm.go:10-44 done. */
  function Prepared(s: MeshState, rule: CoefficientRule): (p: MeshState)
    requires Runnable(s)
    ensures Valid(p)
  {
    Coefficiented(Measured(s), rule)
  }

  /** The system of lscm.go:66-93 on the numbered mesh, half-edge by half-edge in face order. */
  function SystemOf(p: MeshState): (sys: System)
    requires Valid(p)
    ensures Sized(sys, |p.halfedges| / 3, |FreeList(p)|, |FixedList(p)|)
  {
    NumberedAssemblable(p);
    var q := Numbering(p);
    Assembled(q.halfedges, q.vertexRecs, q.uvs, FreeList(p), FixedList(p), |q.halfedges|)
  }

  /** lscm.go:105-124 with solution `x`: read back into the free vertices, then rescale every vertex. */
  function Finish(p: MeshState, x: seq<real>): (t: MeshState)
    requires Valid(p) && |x| == 2 * |FreeList(p)|
  {
    NumberedReadable(p);
    var q, free := Numbering(p), FreeList(p);
    var (lo, hi) := Bounds(x, |free|);
    q.(uvs := RescaledUpTo(ReadBackUpTo(q.vertexRecs, q.uvs, free, x, |free|), lo, hi, |q.vertices|))
  }

  /** `RunLSCM`: the mesh afterwards, and the error it returns, if any. */
  function Run(s: MeshState, rule: CoefficientRule, solve: Solver): (r: (MeshState, Option<LscmError>))
    requires Runnable(s) && SolverSized(solve)
  {
    var p := Prepared(s, rule);
    if |FixedList(p)| < 2 then (Numbering(p), Some(TooFewFixedVertices))
    else if |FreeList(p)| == 0 then (Numbering(p), Some(ZeroLengthPanic))
    else
      var sys := SystemOf(p);
      match solve(sys.a, NegMulVec(sys.b, sys.f), 2 * |FreeList(p)|)
      case None => (Numbering(p), Some(SolveFailed))
      case Some(x) => (Finish(p, x), None)
  }

  /** Free vertex `i` ends at its rescaled solution `(x[i], x[U+i])`, inside the unit square. */
  lemma FinishFreeAt(p: MeshState, x: seq<real>, i: nat)
    requires Valid(p) && |x| == 2 * |FreeList(p)| && i < |FreeList(p)|
    ensures var t, free := Finish(p, x), FreeList(p);
            var (lo, hi) := Bounds(x, |free|);
            && free[i] < |t.vertexRecs| && 0 <= t.vertexRecs[free[i]].id < |t.vertices|
            && 2 * t.vertexRecs[free[i]].id + 1 < |t.uvs|
            && Pair(t.uvs, t.vertexRecs[free[i]].id) == Point2(Scale(x[i], lo.x, hi.x), Scale(x[|free| + i], lo.y, hi.y))
            && 0.0 <= Pair(t.uvs, t.vertexRecs[free[i]].id).x <= 1.0
            && 0.0 <= Pair(t.uvs, t.vertexRecs[free[i]].id).y <= 1.0
  {
    NumberingMeans(p);
    NumberedReadable(p);
    ValidHandles(p);
    var q, free := Numbering(p), FreeList(p);
    var n := |q.vertices|;
    SelectMembers(p.vertices, p.vertexRecs, false, free[i]);
    var a :| 0 <= a < n && q.vertices[a] == free[i];
    assert q.vertexRecs[q.vertices[a]].id == a;
    FreeUvsInUnitSquare(q.vertexRecs, q.uvs, free, x, n, i);
  }

  /** A fixed vertex's uv is rescaled from the value it had, not overwritten by the read-back. */
  lemma FinishFixedAt(p: MeshState, x: seq<real>, j: nat)
    requires Valid(p) && |x| == 2 * |FreeList(p)|
    requires j < |p.vertices| && p.vertexRecs[p.vertices[j]].fixed
    ensures var t := Finish(p, x);
            var (lo, hi) := Bounds(x, |FreeList(p)|);
            && 2 * j + 1 < |t.uvs|
            && Pair(t.uvs, j) == Point2(Scale(Pair(p.uvs, j).x, lo.x, hi.x), Scale(Pair(p.uvs, j).y, lo.y, hi.y))
  {
    NumberingMeans(p);
    NumberedReadable(p);
    ValidHandles(p);
    var q, free := Numbering(p), FreeList(p);
    var (lo, hi) := Bounds(x, |free|);
    var rb := ReadBackUpTo(q.vertexRecs, q.uvs, free, x, |free|);
    ReadBackAt(q.vertexRecs, q.uvs, free, x, |free|);
    assert q.vertexRecs[q.vertices[j]].id == j;
    forall i | 0 <= i < |free|
      ensures q.vertexRecs[free[i]].id != j
    {
      SelectMembers(p.vertices, p.vertexRecs, false, free[i]);
    }
    assert rb[2 * j] == q.uvs[2 * j] && rb[2 * j + 1] == q.uvs[2 * j + 1];
    RescaledPair(rb, lo, hi, |q.vertices|, j);
  }

  /**
   * Read-back and rescale change only uvs: free vertex `i` ends at its
   * rescaled solution `(x[i], x[U+i])`, inside the unit square, and a fixed
   * vertex's uv is rescaled from the value it had, not overwritten.
   */
  lemma FinishMeans(p: MeshState, x: seq<real>)
    requires Valid(p) && |x| == 2 * |FreeList(p)|
    ensures var t, q, free := Finish(p, x), Numbering(p), FreeList(p);
            var (lo, hi) := Bounds(x, |free|);
            && t == q.(uvs := t.uvs) && |t.uvs| == |q.uvs| && Valid(t)
            && (forall i :: 0 <= i < |free| ==>
                  && free[i] < |t.vertexRecs| && 0 <= t.vertexRecs[free[i]].id < |t.vertices|
                  && 2 * t.vertexRecs[free[i]].id + 1 < |t.uvs|
                  && Pair(t.uvs, t.vertexRecs[free[i]].id) == Point2(Scale(x[i], lo.x, hi.x), Scale(x[|free| + i], lo.y, hi.y))
                  && 0.0 <= Pair(t.uvs, t.vertexRecs[free[i]].id).x <= 1.0
                  && 0.0 <= Pair(t.uvs, t.vertexRecs[free[i]].id).y <= 1.0)
            && (forall j :: 0 <= j < |p.vertices| && p.vertexRecs[p.vertices[j]].fixed ==>
                  2 * j + 1 < |t.uvs| &&
                  Pair(t.uvs, j) == Point2(Scale(Pair(p.uvs, j).x, lo.x, hi.x), Scale(Pair(p.uvs, j).y, lo.y, hi.y)))
  {
    NumberingMeans(p);
    var t, q := Finish(p, x), Numbering(p);
    SameShapeValid(q, t);
    forall i | 0 <= i < |FreeList(p)| {
      FinishFreeAt(p, x, i);
    }
    forall j | 0 <= j < |p.vertices| && p.vertexRecs[p.vertices[j]].fixed {
      FinishFixedAt(p, x, j);
    }
  }

  /**
   * The stages before the partition keep compaction's vertex list, uvs and
   * fixed flags: only pointers, lengths and coefficients change.
   */
  lemma PreparedKeeps(s: MeshState, rule: CoefficientRule)
    requires Runnable(s)
    ensures Compaction.CompactPre(s, 0)
    ensures var c, p := Compaction.Compact(s), Prepared(s, rule);
            && p.vertices == c.vertices && p.uvs == c.uvs && |p.vertexRecs| == |c.vertexRecs|
            && (forall v :: 0 <= v < |c.vertexRecs| ==> p.vertexRecs[v].fixed == c.vertexRecs[v].fixed)
  {
    Compaction.CompactValid(s);
    var c := Compaction.Compact(s);
    Boundary.UpdateBoundaryValid(c);
    Boundary.BoundaryFrame(c);
    var b := Boundary.UpdateBoundary(c);
    ValidLengthDefined(b);
    WithLengthsShape(b);
  }

  /** The fixed vertices that `RunLSCM` keeps: listed, with a half-edge, and fixed. */
  ghost function FixedLive(s: MeshState): set<nat>
  {
    set v | v in s.vertices && v < |s.vertexRecs| && s.vertexRecs[v].halfedge.Some? && s.vertexRecs[v].fixed
  }

  /** The fixed list holds exactly the fixed vertices that survive compaction, each once. */
  lemma FixedListCount(s: MeshState, rule: CoefficientRule)
    requires Runnable(s)
    ensures |FixedList(Prepared(s, rule))| == |FixedLive(s)|
  {
    Compaction.CompactValid(s);
    PreparedKeeps(s, rule);
    var c, p := Compaction.Compact(s), Prepared(s, rule);
    ValidHandles(p);
    var fixed := FixedList(p);
    SelectDistinct(p.vertices, p.vertexRecs, true);
    DistinctCardinality(fixed);
    forall v
      ensures v in fixed <==> v in FixedLive(s)
    {
      SelectMembers(p.vertices, p.vertexRecs, true, v);
    }
    assert Members(fixed) == FixedLive(s);
  }

  /** The free vertices that `RunLSCM` keeps: listed, with a half-edge, and not fixed. */
  ghost function FreeLive(s: MeshState): set<nat>
  {
    set v | v in s.vertices && v < |s.vertexRecs| && s.vertexRecs[v].halfedge.Some? && !s.vertexRecs[v].fixed
  }

  /** The free list holds exactly the free vertices that survive compaction, each once. */
  lemma FreeListCount(s: MeshState, rule: CoefficientRule)
    requires Runnable(s)
    ensures |FreeList(Prepared(s, rule))| == |FreeLive(s)|
  {
    Compaction.CompactValid(s);
    PreparedKeeps(s, rule);
    var c, p := Compaction.Compact(s), Prepared(s, rule);
    ValidHandles(p);
    var free := FreeList(p);
    SelectDistinct(p.vertices, p.vertexRecs, false);
    DistinctCardinality(free);
    forall v
      ensures v in free <==> v in FreeLive(s)
    {
      SelectMembers(p.vertices, p.vertexRecs, false, v);
    }
    assert Members(free) == FreeLive(s);
  }

  /**
   * `RunLSCM` reports too few fixed vertices exactly when fewer than two
   * fixed vertices survive compaction, and otherwise panics exactly when no
   * free vertex survives.
   */
  lemma RunFailsWhen(s: MeshState, rule: CoefficientRule, solve: Solver)
    requires Runnable(s) && SolverSized(solve)
    ensures var err := Run(s, rule, solve).1;
            && (err == Some(TooFewFixedVertices) <==> |FixedLive(s)| < 2)
            && (err == Some(ZeroLengthPanic) <==> |FixedLive(s)| >= 2 && FreeLive(s) == {})
  {
    FixedListCount(s, rule);
    FreeListCount(s, rule);
  }

  /**
   * What `RunLSCM` promises: the mesh stays valid; it fails for too few
   * fixed vertices exactly when fewer than two fixed vertices survive
   * compaction, and otherwise panics exactly when no free vertex survives;
   * on failure no uv is changed; on success every free vertex's uv lies in
   * the unit square.
   */
  lemma RunOutcome(s: MeshState, rule: CoefficientRule, solve: Solver)
    requires Runnable(s) && SolverSized(solve)
    ensures Compaction.CompactPre(s, 0)
    ensures var (t, err) := Run(s, rule, solve);
            var c := Compaction.Compact(s);
            && Valid(t)
            && (err == Some(TooFewFixedVertices) <==> |FixedLive(s)| < 2)
            && (err == Some(ZeroLengthPanic) <==> |FixedLive(s)| >= 2 && FreeLive(s) == {})
            && (err.Some? ==> t == Numbering(Prepared(s, rule)) && t.uvs == c.uvs)
            && (err.None? ==>
                  forall j :: 0 <= j < |t.vertices| && !t.vertexRecs[t.vertices[j]].fixed ==>
                    2 * j + 1 < |t.uvs| && 0.0 <= Pair(t.uvs, j).x <= 1.0 && 0.0 <= Pair(t.uvs, j).y <= 1.0)
  {
    PreparedKeeps(s, rule);
    RunFailsWhen(s, rule, solve);
    var p := Prepared(s, rule);
    NumberingMeans(p);
    if |FixedList(p)| >= 2 && |FreeList(p)| > 0 {
      var sys := SystemOf(p);
      var res := solve(sys.a, NegMulVec(sys.b, sys.f), 2 * |FreeList(p)|);
      if res.Some? {
        FinishFreeInSquare(p, res.value);
      }
    }
  }

  /** After `Finish`, the uv of every free vertex, found by its id, lies in the unit square. */
  lemma FinishFreeInSquare(p: MeshState, x: seq<real>)
    requires Valid(p) && |x| == 2 * |FreeList(p)|
    ensures var t := Finish(p, x);
            forall j :: 0 <= j < |t.vertices| && !t.vertexRecs[t.vertices[j]].fixed ==>
              2 * j + 1 < |t.uvs| && 0.0 <= Pair(t.uvs, j).x <= 1.0 && 0.0 <= Pair(t.uvs, j).y <= 1.0
  {
    NumberingMeans(p);
    FinishMeans(p, x);
    var t := Finish(p, x);
    ValidHandles(p);
    forall j | 0 <= j < |t.vertices| && !t.vertexRecs[t.vertices[j]].fixed
      ensures 2 * j + 1 < |t.uvs| && 0.0 <= Pair(t.uvs, j).x <= 1.0 && 0.0 <= Pair(t.uvs, j).y <= 1.0
    {
      var v := p.vertices[j];
      SelectMembers(p.vertices, p.vertexRecs, false, v);
      var i :| 0 <= i < |FreeList(p)| && FreeList(p)[i] == v;
      assert p.vertexRecs[v].id == j;
    }
  }
}
