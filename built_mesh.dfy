/**
 * What `NewMesh`'s face loop builds: the facts about the whole loop, proved by
 * induction over its turns from the one-turn facts of `Construction`, and the
 * shape of the finished mesh.
 */
module BuiltMesh {
  import opened Topology
  import opened MeshStates
  import opened Construction

  /** The face loop changes no id and no fixed flag. */
  lemma {:induction false} AddFacesRecords(s: MeshState, indices: seq<nat>, k: nat)
    requires Buildable(s) && 3 * k <= |indices| && InRange(indices, |s.vertices|)
    ensures var r := AddFaces(s, indices, k);
            forall v :: 0 <= v < |s.vertexRecs| ==>
              r.vertexRecs[v].id == s.vertexRecs[v].id && r.vertexRecs[v].fixed == s.vertexRecs[v].fixed
    decreases k, 1
  {
    if k > 0 {
      RecordsTurn(s, indices, k);
    }
  }

  /** Turn `k` of the face loop, like the turns before it, changes no id and no fixed flag. */
  lemma RecordsTurn(s: MeshState, indices: seq<nat>, k: nat)
    requires Buildable(s) && 0 < k && 3 * k <= |indices| && InRange(indices, |s.vertices|)
    ensures var r := AddFaces(s, indices, k);
            forall v :: 0 <= v < |s.vertexRecs| ==>
              r.vertexRecs[v].id == s.vertexRecs[v].id && r.vertexRecs[v].fixed == s.vertexRecs[v].fixed
    decreases k, 0
  {
    AddFacesRecords(s, indices, k - 1);
    AddFacesStep(s, indices, k);
    RecordsStep(AddFaces(s, indices, k - 1), Triangle(indices, k - 1), AddFaces(s, indices, k));
  }

  /** The face loop keeps the old half-edges, and new half-edge `h` targets the vertex listed at `indices[h - base]`. */
  lemma {:induction false} AddFacesTargets(s: MeshState, indices: seq<nat>, k: nat)
    requires Buildable(s) && 3 * k <= |indices| && InRange(indices, |s.vertices|)
    ensures var r := AddFaces(s, indices, k);
            && |r.halfedges| == |s.halfedges| + 3 * k
            && (forall h :: 0 <= h < |s.halfedges| ==> r.halfedges[h] == s.halfedges[h])
            && (forall h :: |s.halfedges| <= h < |r.halfedges| ==> r.halfedges[h].vertex == s.vertices[indices[h - |s.halfedges|]])
    decreases k, 1
  {
    if k > 0 {
      TargetsTurn(s, indices, k);
    }
  }

  /** Turn `k` of the face loop appends three half-edges targeting the vertices of the `k`-th index triple, after those of the turns before. */
  lemma TargetsTurn(s: MeshState, indices: seq<nat>, k: nat)
    requires Buildable(s) && 0 < k && 3 * k <= |indices| && InRange(indices, |s.vertices|)
    ensures var r := AddFaces(s, indices, k);
            && |r.halfedges| == |s.halfedges| + 3 * k
            && (forall h :: 0 <= h < |s.halfedges| ==> r.halfedges[h] == s.halfedges[h])
            && (forall h :: |s.halfedges| <= h < |r.halfedges| ==> r.halfedges[h].vertex == s.vertices[indices[h - |s.halfedges|]])
    decreases k, 0
  {
    AddFacesTargets(s, indices, k - 1);
    AddFacesStep(s, indices, k);
    TargetsStep(s, indices, k, AddFaces(s, indices, k - 1), AddFaces(s, indices, k));
  }

  /** The face loop files exactly the corner keys of the faces it adds. */
  lemma {:induction false} AddFacesKeys(s: MeshState, indices: seq<nat>, k: nat)
    requires Buildable(s) && 3 * k <= |indices| && InRange(indices, |s.vertices|)
    ensures AddFaces(s, indices, k).edgeMap.Keys == s.edgeMap.Keys + FaceKeys(indices, k)
    decreases k, 1
  {
    if k > 0 {
      KeysStep(s, indices, k);
    }
  }

  /** Turn `k` of the face loop files the corner keys of face `k - 1`, on top of those of the turns before. */
  lemma KeysStep(s: MeshState, indices: seq<nat>, k: nat)
    requires Buildable(s) && 0 < k && 3 * k <= |indices| && InRange(indices, |s.vertices|)
    ensures AddFaces(s, indices, k).edgeMap.Keys == s.edgeMap.Keys + FaceKeys(indices, k)
    decreases k, 0
  {
    AddFacesKeys(s, indices, k - 1);
    AddFacesStep(s, indices, k);
    WithFaceKeys(AddFaces(s, indices, k - 1), Triangle(indices, k - 1));
  }

  /** The face loop keeps a valid mesh valid, and every half-edge filed under the key of its endpoints' ids. */
  lemma AddFacesKeyed(s: MeshState, indices: seq<nat>, k: nat)
    requires Valid(s) && Keyed(s) && 3 * k <= |indices| && InRange(indices, |s.vertices|)
    ensures Valid(AddFaces(s, indices, k)) && Keyed(AddFaces(s, indices, k))
  {
    if k == 0 {
      KeyedNone(s, indices, k);
    } else {
      KeyedFromFirst(s, indices, k);
    }
  }

  /** With no turn taken, the mesh is as valid and keyed as it was. */
  lemma KeyedNone(s: MeshState, indices: seq<nat>, k: nat)
    requires Valid(s) && Keyed(s) && k == 0 && InRange(indices, |s.vertices|)
    ensures Valid(AddFaces(s, indices, k)) && Keyed(AddFaces(s, indices, k))
  {
    ValidBuildable(s);
    AddFacesNone(s, indices);
  }

  /** Induction from the first turn: each turn keeps the mesh valid and keyed. */
  lemma {:induction false} KeyedFromFirst(s: MeshState, indices: seq<nat>, k: nat)
    requires Valid(s) && Keyed(s) && 0 < k && 3 * k <= |indices| && InRange(indices, |s.vertices|)
    ensures Valid(AddFaces(s, indices, k)) && Keyed(AddFaces(s, indices, k))
  {
    ValidBuildable(s);
    if k > 1 {
      KeyedFromFirst(s, indices, k - 1);
    } else {
      AddFacesNone(s, indices);
    }
    AddFacesKeyedStep(s, indices, k);
  }

  /** Vertex `i` of the face-added mesh is listed at position `i` with id `i`, and half-edge `h` targets `indices[h]`. */
  lemma FacedVertices(points: seq<real>, uvs: seq<real>, normals: seq<real>, indices: seq<nat>)
    requires |points| % 3 == 0 && |uvs| % 2 == 0 && |points| / 3 == |uvs| / 2
    requires |indices| % 3 == 0 && InRange(indices, |points| / 3)
    ensures var t := Faced(points, uvs, normals, indices);
            && t.points == points && t.uvs == uvs && t.normals == normals
            && (forall i :: 0 <= i < |t.vertices| ==> t.vertices[i] == i && t.vertexRecs[i].id == i && !t.vertexRecs[i].fixed)
            && |t.faces| == |indices| / 3 && |t.halfedges| == |indices|
            && (forall h :: 0 <= h < |t.halfedges| ==> t.halfedges[h].vertex == indices[h])
  {
    var i0 := Initial(points, uvs, normals);
    assert Buildable(i0);
    AddFacesTargets(i0, indices, |indices| / 3);
    AddFacesRecords(i0, indices, |indices| / 3);
  }

  /** The face-added mesh is valid and keyed, and its edges are exactly the distinct sides of the triangles. */
  lemma FacedEdges(points: seq<real>, uvs: seq<real>, normals: seq<real>, indices: seq<nat>)
    requires |points| % 3 == 0 && |uvs| % 2 == 0 && |points| / 3 == |uvs| / 2
    requires |indices| % 3 == 0 && InRange(indices, |points| / 3)
    ensures var t := Faced(points, uvs, normals, indices);
            && Valid(t) && Keyed(t)
            && t.edgeMap.Keys == FaceKeys(indices, |indices| / 3)
            && |t.edges| == |FaceKeys(indices, |indices| / 3)|
  {
    var i0 := Initial(points, uvs, normals);
    InitialValid(points, uvs, normals);
    AddFacesKeys(i0, indices, |indices| / 3);
    AddFacesKeyed(i0, indices, |indices| / 3);
    var t := Faced(points, uvs, normals, indices);
    assert |t.edgeMap.Keys| == |t.edgeMap|;
  }

  /**
   * A built mesh: the buffers as given, `len(points)/3` vertices with vertex
   * `i` listed at position `i` with id `i`, one face per index triple whose
   * half-edge `h` targets vertex `indices[h]`, vertex `i` fixed exactly when
   * `i` is a fixed index, and one edge per distinct triangle side.
   */
  lemma BuildShape(points: seq<real>, uvs: seq<real>, normals: seq<real>, indices: seq<nat>, fixedIndices: seq<nat>)
    requires IndicesFit(points, uvs, indices, fixedIndices)
    requires Build(points, uvs, normals, indices, fixedIndices).Ok?
    ensures var s := Build(points, uvs, normals, indices, fixedIndices).value;
            && Valid(s) && Keyed(s)
            && s.points == points && s.uvs == uvs && s.normals == normals
            && |s.vertices| == |points| / 3
            && (forall i :: 0 <= i < |s.vertices| ==> s.vertices[i] == i && s.vertexRecs[i].id == i)
            && |s.faces| == |indices| / 3 && |s.halfedges| == |indices|
            && (forall h :: 0 <= h < |s.halfedges| ==> s.halfedges[h].vertex == indices[h])
            && (forall i :: 0 <= i < |s.vertices| ==> (s.vertexRecs[i].fixed <==> i in fixedIndices))
            && s.edgeMap.Keys == FaceKeys(indices, |indices| / 3)
            && |s.edges| == |FaceKeys(indices, |indices| / 3)|
  {
    var t := Faced(points, uvs, normals, indices);
    FacedVertices(points, uvs, normals, indices);
    FacedEdges(points, uvs, normals, indices);
    MarkFixedValid(t, fixedIndices);
    MarkFixedExactly(t, fixedIndices);
    var s := MarkFixed(t, fixedIndices, |fixedIndices|);
    forall i | 0 <= i < |s.vertices|
      ensures s.vertices[i] == i && s.vertexRecs[i].id == i
    {
      MarkFixedMeans(t, fixedIndices, |fixedIndices|, i);
    }
  }
}
