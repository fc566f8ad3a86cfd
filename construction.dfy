/**
 * `NewMesh` (mesh.go) as a function of its five buffers: the size checks,
 * then one vertex record per point triple with its position as id, then one
 * `addFace` per index triple, then the `fixed` flag of every listed fixed
 * index. Face and fixed indices are not range-checked by the source (an
 * out-of-range index panics), so the model asks for them in range.
 */
module Construction {
  import opened Wrappers
  import opened Topology
  import opened MeshStates

  /** The five reasons `NewMesh` refuses its buffers. */
  datatype ShapeError =
    | PointsNotTriples
    | UVsNotPairs
    | PointUVMismatch
    | IndicesNotTriples
    | TooFewFixedIndices
  /** `NewMesh`'s size checks on the buffer lengths, in the order the source makes them. */
  function CheckShape(points: nat, uvs: nat, indices: nat, fixedIndices: nat): (r: Option<ShapeError>)
    ensures r == None <==>
              points % 3 == 0 && uvs % 2 == 0 && points / 3 == uvs / 2 && indices % 3 == 0 && fixedIndices >= 2
    ensures r == Some(PointsNotTriples) <==> points % 3 != 0
    ensures r == Some(UVsNotPairs) <==> points % 3 == 0 && uvs % 2 != 0
    ensures r == Some(PointUVMismatch) <==> points % 3 == 0 && uvs % 2 == 0 && points / 3 != uvs / 2
    ensures r == Some(IndicesNotTriples) <==>
              points % 3 == 0 && uvs % 2 == 0 && points / 3 == uvs / 2 && indices % 3 != 0
    ensures r == Some(TooFewFixedIndices) <==>
              points % 3 == 0 && uvs % 2 == 0 && points / 3 == uvs / 2 && indices % 3 == 0 && fixedIndices < 2
  {
    if points % 3 != 0 then Some(PointsNotTriples)
    else if uvs % 2 != 0 then Some(UVsNotPairs)
    else if points / 3 != uvs / 2 then Some(PointUVMismatch)
    else if indices % 3 != 0 then Some(IndicesNotTriples)
    else if fixedIndices < 2 then Some(TooFewFixedIndices)
    else None
  }

  /** Every entry of `xs` names one of `n` vertices. */
  predicate InRange(xs: seq<nat>, n: nat)
  {
    forall k :: 0 <= k < |xs| ==> xs[k] < n
  }

  /** The vertex records `NewMesh` starts from: record `i` has id `i`, no half-edge and is not fixed. */
  function FreshVertices(n: nat): (r: seq<Vertex>)
    ensures |r| == n && forall i :: 0 <= i < n ==> r[i] == Vertex(i, None, false, 0)
  {
    if n == 0 then [] else FreshVertices(n - 1) + [Vertex(n - 1, None, false, 0)]
  }

  /** The vertex list `NewMesh` starts from: the handles `0..n-1` in order. */
  function Handles(n: nat): (r: seq<nat>)
    ensures |r| == n && forall i :: 0 <= i < n ==> r[i] == i
  {
    if n == 0 then [] else Handles(n - 1) + [n - 1]
  }

  /** The mesh after `NewMesh`'s vertex loop: the buffers as given, one record per point triple, nothing else. */
  function Initial(points: seq<real>, uvs: seq<real>, normals: seq<real>): MeshState
  {
    MeshState(points, uvs, normals, FreshVertices(|points| / 3), Handles(|points| / 3), [], [], [], map[])
  }

  /** The vertex loop yields a valid mesh in which every vertex dangles. */
  lemma InitialValid(points: seq<real>, uvs: seq<real>, normals: seq<real>)
    requires |points| % 3 == 0 && |uvs| % 2 == 0 && |points| / 3 == |uvs| / 2
    ensures var s := Initial(points, uvs, normals);
            && Valid(s) && Keyed(s)
            && forall j :: 0 <= j < |s.vertices| ==> DanglingAt(s, j)
  {
  }

  /** Face `f`'s index triple. */
  function Triangle(indices: seq<nat>, f: nat): (vis: seq<nat>)
    requires 3 * f + 2 < |indices|
    ensures |vis| == 3 && forall i :: 0 <= i < 3 ==> vis[i] == indices[3 * f + i]
  {
    [indices[3 * f], indices[3 * f + 1], indices[3 * f + 2]]
  }

  /** What the face loop needs of the mesh: whole faces, an index naming existing edges, listed handles naming records. */
  ghost predicate Buildable(s: MeshState)
  {
    && |s.halfedges| == 3 * |s.faces|
    && (forall k :: k in s.edgeMap ==> s.edgeMap[k] < |s.edges|)
    && (forall j :: 0 <= j < |s.vertices| ==> s.vertices[j] < |s.vertexRecs|)
  }

  /** `addFace` keeps what the face loop needs, and changes no vertex list, buffer, id or fixed flag. */
  lemma WithFaceBuildable(s: MeshState, vis: seq<nat>)
    requires Buildable(s) && |vis| == 3 && InRange(vis, |s.vertices|)
    ensures FaceFits(s, vis)
    ensures var t := WithFace(s, vis);
            && Buildable(t)
            && t.vertices == s.vertices && t.points == s.points && t.uvs == s.uvs && t.normals == s.normals
            && |t.vertexRecs| == |s.vertexRecs| && |t.faces| == |s.faces| + 1
            && (forall v :: 0 <= v < |s.vertexRecs| ==>
                  t.vertexRecs[v].id == s.vertexRecs[v].id && t.vertexRecs[v].fixed == s.vertexRecs[v].fixed)
  {
    WithFaceHalfEdges(s, vis);
    WithFaceRecords(s, vis);
  }

  /** A valid mesh is one the face loop can extend. */
  lemma ValidBuildable(s: MeshState)
    requires Valid(s)
    ensures Buildable(s)
  {
  }

  /** `NewMesh`'s face loop over the first `k` index triples. */
  function AddFaces(s: MeshState, indices: seq<nat>, k: nat): (r: MeshState)
    requires Buildable(s) && 3 * k <= |indices| && InRange(indices, |s.vertices|)
    ensures Buildable(r)
    ensures r.vertices == s.vertices && r.points == s.points && r.uvs == s.uvs && r.normals == s.normals
    ensures |r.vertexRecs| == |s.vertexRecs| && |r.faces| == |s.faces| + k
  {
    if k == 0 then s
    else
      var p := AddFaces(s, indices, k - 1);
      var vis := Triangle(indices, k - 1);
      WithFaceBuildable(p, vis);
      WithFace(p, vis)
  }

  /** One more turn of the face loop is one more `addFace`. */
  lemma AddFacesStep(s: MeshState, indices: seq<nat>, k: nat)
    requires Buildable(s) && 0 < k && 3 * k <= |indices| && InRange(indices, |s.vertices|)
    ensures AddFaces(s, indices, k) == WithFace(AddFaces(s, indices, k - 1), Triangle(indices, k - 1))
  {
  }

  /** Before its first turn the face loop has changed nothing. */
  lemma AddFacesNone(s: MeshState, indices: seq<nat>)
    requires Buildable(s) && InRange(indices, |s.vertices|)
    ensures AddFaces(s, indices, 0) == s
  {
  }

  /** The face loop can take one more turn, and that turn is one `addFace`. */
  lemma AddFacesNext(s: MeshState, indices: seq<nat>, k: nat)
    requires Buildable(s) && 3 * (k + 1) <= |indices| && InRange(indices, |s.vertices|)
    ensures FaceFits(AddFaces(s, indices, k), Triangle(indices, k))
    ensures AddFaces(s, indices, k + 1) == WithFace(AddFaces(s, indices, k), Triangle(indices, k))
  {
    AddFacesStep(s, indices, k + 1);
    WithFaceBuildable(AddFaces(s, indices, k), Triangle(indices, k));
  }

  /** `addFace` files the keys of its three corners and no other. */
  lemma WithFaceKeys(p: MeshState, vis: seq<nat>)
    requires Buildable(p) && |vis| == 3 && InRange(vis, |p.vertices|)
    ensures FaceFits(p, vis)
    ensures WithFace(p, vis).edgeMap.Keys == p.edgeMap.Keys + {CornerKey(vis, 0), CornerKey(vis, 1), CornerKey(vis, 2)}
  {
    WithFaceBuildable(p, vis);
    WithFaceRecords(p, vis);
  }

  /** `addFace` keeps the old half-edges and appends three that target the vertices listed at `vis`. */
  lemma WithFaceTargets(p: MeshState, vis: seq<nat>)
    requires Buildable(p) && |vis| == 3 && InRange(vis, |p.vertices|)
    ensures FaceFits(p, vis)
    ensures var t := WithFace(p, vis);
            && |t.halfedges| == |p.halfedges| + 3
            && (forall h :: 0 <= h < |p.halfedges| ==> t.halfedges[h] == p.halfedges[h])
            && (forall h :: |p.halfedges| <= h < |t.halfedges| ==> t.halfedges[h].vertex == p.vertices[vis[h - |p.halfedges|]])
  {
    WithFaceBuildable(p, vis);
    WithFaceHalfEdges(p, vis);
  }

  /** One `addFace`, seen from the face loop: the half-edges it appends target the next index triple. */
  lemma TargetsStep(s: MeshState, indices: seq<nat>, k: nat, p: MeshState, r: MeshState)
    requires Buildable(p) && 0 < k && 3 * k <= |indices| && InRange(indices, |p.vertices|)
    requires r == WithFace(p, Triangle(indices, k - 1))
    requires p.vertices == s.vertices && |p.halfedges| == |s.halfedges| + 3 * (k - 1)
    requires forall h :: 0 <= h < |s.halfedges| ==> p.halfedges[h] == s.halfedges[h]
    requires forall h :: |s.halfedges| <= h < |p.halfedges| ==> p.halfedges[h].vertex == s.vertices[indices[h - |s.halfedges|]]
    ensures && |r.halfedges| == |s.halfedges| + 3 * k
            && (forall h :: 0 <= h < |s.halfedges| ==> r.halfedges[h] == s.halfedges[h])
            && (forall h :: |s.halfedges| <= h < |r.halfedges| ==> r.halfedges[h].vertex == s.vertices[indices[h - |s.halfedges|]])
  {
    WithFaceTargets(p, Triangle(indices, k - 1));
  }

  /** One `addFace` keeps a valid, keyed mesh keyed. */
  lemma KeyedStep(p: MeshState, vis: seq<nat>, r: MeshState)
    requires Valid(p) && Keyed(p) && |vis| == 3 && InRange(vis, |p.vertices|)
    requires FaceFits(p, vis) && r == WithFace(p, vis)
    ensures Keyed(r)
  {
    WithFaceKeyed(p, vis);
  }

  /** The face loop's step keeps the mesh keyed. */
  lemma AddFacesKeyedStep(s: MeshState, indices: seq<nat>, k: nat)
    requires Buildable(s) && 0 < k && 3 * k <= |indices| && InRange(indices, |s.vertices|)
    requires Valid(AddFaces(s, indices, k - 1)) && Keyed(AddFaces(s, indices, k - 1))
    ensures Valid(AddFaces(s, indices, k)) && Keyed(AddFaces(s, indices, k))
  {
    AddFacesStep(s, indices, k);
    WithFaceBuildable(AddFaces(s, indices, k - 1), Triangle(indices, k - 1));
    KeyedStep(AddFaces(s, indices, k - 1), Triangle(indices, k - 1), AddFaces(s, indices, k));
    ValidStep(AddFaces(s, indices, k - 1), Triangle(indices, k - 1), AddFaces(s, indices, k));
  }

  /** One `addFace` keeps a valid mesh valid. */
  lemma ValidStep(p: MeshState, vis: seq<nat>, r: MeshState)
    requires Valid(p) && |vis| == 3 && InRange(vis, |p.vertices|)
    requires FaceFits(p, vis) && r == WithFace(p, vis)
    ensures Valid(r)
  {
    WithFaceValid(p, vis);
  }

  /** One `addFace` changes no id and no fixed flag. */
  lemma RecordsStep(p: MeshState, vis: seq<nat>, r: MeshState)
    requires Buildable(p) && |vis| == 3 && InRange(vis, |p.vertices|)
    requires r == WithFace(p, vis)
    ensures FaceFits(p, vis) && |r.vertexRecs| == |p.vertexRecs|
    ensures forall v :: 0 <= v < |p.vertexRecs| ==>
              r.vertexRecs[v].id == p.vertexRecs[v].id && r.vertexRecs[v].fixed == p.vertexRecs[v].fixed
  {
    WithFaceBuildable(p, vis);
  }

  /** `NewMesh`'s loop over the first `k` fixed indices: the vertex listed at each is flagged fixed. */
  function MarkFixed(s: MeshState, fixedIndices: seq<nat>, k: nat): (r: MeshState)
    requires k <= |fixedIndices| && InRange(fixedIndices, |s.vertices|)
    requires forall j :: 0 <= j < |s.vertices| ==> s.vertices[j] < |s.vertexRecs|
    ensures r == s.(vertexRecs := r.vertexRecs) && |r.vertexRecs| == |s.vertexRecs|
  {
    if k == 0 then s
    else
      var p := MarkFixed(s, fixedIndices, k - 1);
      var h := p.vertices[fixedIndices[k - 1]];
      p.(vertexRecs := p.vertexRecs[h := p.vertexRecs[h].(fixed := true)])
  }

  /** What `NewMesh` needs beyond what it checks: face and fixed indices name existing vertices. */
  predicate IndicesFit(points: seq<real>, uvs: seq<real>, indices: seq<nat>, fixedIndices: seq<nat>)
  {
    CheckShape(|points|, |uvs|, |indices|, |fixedIndices|).None? ==>
      InRange(indices, |points| / 3) && InRange(fixedIndices, |points| / 3)
  }

  /** `NewMesh(points, uvs, normals, indices, fixedIndices)`: the refused shape, or the built mesh. */
  function Build(points: seq<real>, uvs: seq<real>, normals: seq<real>, indices: seq<nat>, fixedIndices: seq<nat>)
    : (r: Result<MeshState, ShapeError>)
    requires IndicesFit(points, uvs, indices, fixedIndices)
    ensures r.Err? <==> CheckShape(|points|, |uvs|, |indices|, |fixedIndices|).Some?
    ensures r.Err? ==> r.error == CheckShape(|points|, |uvs|, |indices|, |fixedIndices|).value
  {
    match CheckShape(|points|, |uvs|, |indices|, |fixedIndices|)
    case Some(e) => Err(e)
    case None =>
      Ok(MarkFixed(Faced(points, uvs, normals, indices), fixedIndices, |fixedIndices|))
  }

  /** The unordered vertex pairs of the corners of the first `k` faces. */
  function FaceKeys(indices: seq<nat>, k: nat): set<EdgeKey>
    requires 3 * k <= |indices|
  {
    if k == 0 then {}
    else
      var vis := Triangle(indices, k - 1);
      FaceKeys(indices, k - 1) + {CornerKey(vis, 0), CornerKey(vis, 1), CornerKey(vis, 2)}
  }

  /** After the fixed loop over the first `k` fixed indices, a listed vertex is fixed iff it was, or is listed at one of them. */
  lemma {:induction false} MarkFixedMeans(s: MeshState, fixedIndices: seq<nat>, k: nat, j: nat)
    requires k <= |fixedIndices| && InRange(fixedIndices, |s.vertices|)
    requires IdsDense(s) && j < |s.vertices|
    ensures var r := MarkFixed(s, fixedIndices, k);
            && r.vertexRecs[s.vertices[j]] == s.vertexRecs[s.vertices[j]].(fixed := r.vertexRecs[s.vertices[j]].fixed)
            && (r.vertexRecs[s.vertices[j]].fixed <==> s.vertexRecs[s.vertices[j]].fixed || j in fixedIndices[..k])
  {
    if k > 0 {
      MarkFixedMeans(s, fixedIndices, k - 1, j);
      var i := fixedIndices[k - 1];
      assert s.vertexRecs[s.vertices[i]].id == i && s.vertexRecs[s.vertices[j]].id == j;
      assert fixedIndices[..k] == fixedIndices[..k - 1] + [i];
    }
  }

  /** The fixed flags change nothing that `Valid` and `Keyed` look at. */
  lemma MarkFixedValid(s: MeshState, fixedIndices: seq<nat>)
    requires Valid(s) && Keyed(s) && InRange(fixedIndices, |s.vertices|)
    ensures var r := MarkFixed(s, fixedIndices, |fixedIndices|);
            Valid(r) && Keyed(r) && (forall j :: DanglingAt(r, j) <==> DanglingAt(s, j))
  {
    var r := MarkFixed(s, fixedIndices, |fixedIndices|);
    MarkFixedFlagsOnly(s, fixedIndices);
    FlagsOnlyValid(s, r);
  }

  /** The fixed loop changes every record, listed or not, in its flag alone. */
  lemma MarkFixedFlagsOnly(s: MeshState, fixedIndices: seq<nat>)
    requires Valid(s) && InRange(fixedIndices, |s.vertices|)
    ensures var r := MarkFixed(s, fixedIndices, |fixedIndices|);
            forall v :: 0 <= v < |s.vertexRecs| ==> r.vertexRecs[v] == s.vertexRecs[v].(fixed := r.vertexRecs[v].fixed)
  {
    var r := MarkFixed(s, fixedIndices, |fixedIndices|);
    forall v | 0 <= v < |s.vertexRecs|
      ensures r.vertexRecs[v] == s.vertexRecs[v].(fixed := r.vertexRecs[v].fixed)
    {
      if v in s.vertices {
        var j :| 0 <= j < |s.vertices| && s.vertices[j] == v;
        MarkFixedMeans(s, fixedIndices, |fixedIndices|, j);
      } else {
        MarkFixedOnlyListed(s, fixedIndices, |fixedIndices|, v);
      }
    }
  }

  /** A mesh that differs from a valid, keyed one in fixed flags alone is valid and keyed, with the same vertices dangling. */
  lemma FlagsOnlyValid(s: MeshState, r: MeshState)
    requires Valid(s) && Keyed(s)
    requires r == s.(vertexRecs := r.vertexRecs) && |r.vertexRecs| == |s.vertexRecs|
    requires forall v :: 0 <= v < |s.vertexRecs| ==> r.vertexRecs[v] == s.vertexRecs[v].(fixed := r.vertexRecs[v].fixed)
    ensures Valid(r) && Keyed(r) && (forall j :: DanglingAt(r, j) <==> DanglingAt(s, j))
  {
    forall j | 0 <= j < |r.vertices|
      ensures r.vertices[j] < |r.vertexRecs| && r.vertexRecs[r.vertices[j]].id == j
    {
      assert s.vertexRecs[s.vertices[j]].id == j;
    }
    forall h | 0 <= h < |r.halfedges|
      ensures r.vertexRecs[r.halfedges[h].vertex].halfedge.Some?
      ensures KeyedAt(r, h)
    {
      assert KeyedAt(s, h);
      assert s.vertexRecs[s.halfedges[h].vertex].halfedge.Some?;
      assert HalfEdgeKey(r, h) == HalfEdgeKey(s, h);
    }
    forall v | 0 <= v < |r.vertexRecs| && r.vertexRecs[v].halfedge.Some?
      ensures r.vertexRecs[v].halfedge.value < |r.halfedges|
    {
      assert s.vertexRecs[v].halfedge.Some?;
    }
    forall j: nat
      ensures DanglingAt(r, j) <==> DanglingAt(s, j)
    {
      if j < |s.vertices| && s.vertices[j] < |s.vertexRecs| {
        assert r.vertexRecs[r.vertices[j]].halfedge == s.vertexRecs[s.vertices[j]].halfedge;
      }
    }
  }

  /** A record that is not listed is not touched by the fixed loop. */
  lemma {:induction false} MarkFixedOnlyListed(s: MeshState, fixedIndices: seq<nat>, k: nat, v: nat)
    requires k <= |fixedIndices| && InRange(fixedIndices, |s.vertices|)
    requires forall j :: 0 <= j < |s.vertices| ==> s.vertices[j] < |s.vertexRecs|
    requires v < |s.vertexRecs| && v !in s.vertices
    ensures MarkFixed(s, fixedIndices, k).vertexRecs[v] == s.vertexRecs[v]
  {
    if k > 0 {
      MarkFixedOnlyListed(s, fixedIndices, k - 1, v);
    }
  }

  /** The mesh `NewMesh` has before it marks fixed vertices: every index triple added as a face. */
  function Faced(points: seq<real>, uvs: seq<real>, normals: seq<real>, indices: seq<nat>): (t: MeshState)
    requires |points| % 3 == 0 && |uvs| % 2 == 0 && |points| / 3 == |uvs| / 2
    requires InRange(indices, |points| / 3)
    ensures Buildable(t) && |t.vertices| == |points| / 3
  {
    InitialValid(points, uvs, normals);
    AddFaces(Initial(points, uvs, normals), indices, |indices| / 3)
  }

  /** Marking fixed vertices sets the flag of exactly the listed vertices. */
  lemma MarkFixedExactly(t: MeshState, fixedIndices: seq<nat>)
    requires Valid(t) && InRange(fixedIndices, |t.vertices|)
    requires |t.vertices| <= |t.vertexRecs|
    requires forall i :: 0 <= i < |t.vertices| ==> t.vertices[i] == i && !t.vertexRecs[i].fixed
    ensures var s := MarkFixed(t, fixedIndices, |fixedIndices|);
            forall i :: 0 <= i < |t.vertices| ==> (s.vertexRecs[i].fixed <==> i in fixedIndices)
  {
    var s := MarkFixed(t, fixedIndices, |fixedIndices|);
    forall i | 0 <= i < |t.vertices|
      ensures s.vertexRecs[i].fixed <==> i in fixedIndices
    {
      MarkFixedMeans(t, fixedIndices, |fixedIndices|, i);
      assert fixedIndices[..|fixedIndices|] == fixedIndices;
    }
  }
}
