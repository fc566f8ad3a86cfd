/**
 * The `Mesh` object of mesh.go with its fields updated in place.
 *
 * The fields are those of `MeshState`: the parallel coordinate arrays, the
 * arena of vertex records addressed by handle, the vertex list of handles,
 * the half-edges, faces, edges and the edge index. Every method is proved to
 * leave `State()` equal to the function of `MeshStates`, `Construction`,
 * `Compaction` or `Boundary` that defines the operation, so what is proved
 * there about the function holds of the object.
 */
module Meshes {
  import opened Wrappers
  import opened Points
  import opened Topology
  import opened MeshStates
  import opened Construction
  import Compaction
  import Boundary

  class Mesh {
    var points: seq<real>
    var uvs: seq<real>
    var normals: seq<real>
    var vertexRecs: seq<Vertex>
    var vertices: seq<nat>
    var halfedges: seq<HalfEdge>
    var faces: seq<Face>
    var edges: seq<Edge>
    var edgeMap: map<EdgeKey, nat>

    /** The object's fields as one value. */
    function State(): MeshState
      reads this
    {
      MeshState(points, uvs, normals, vertexRecs, vertices, halfedges, faces, edges, edgeMap)
    }

    /** obj.go's zero-argument `NewMesh()`: a valid mesh with nothing in it. */
    constructor Empty()
      ensures State() == EmptyState()
    {
      points, uvs, normals := [], [], [];
      vertexRecs, vertices := [], [];
      halfedges, faces, edges, edgeMap := [], [], [], map[];
    }

    /** `NewMesh`'s vertex loop: the buffers as given and one fresh record per point triple. */
    constructor Init(points: seq<real>, uvs: seq<real>, normals: seq<real>)
      ensures State() == Initial(points, uvs, normals)
    {
      this.points, this.uvs, this.normals := points, uvs, normals;
      halfedges, faces, edges, edgeMap := [], [], [], map[];
      var n := |points| / 3;
      var recs, list := [], [];
      for i := 0 to n
        invariant recs == FreshVertices(i) && list == Handles(i)
      {
        recs := recs + [Vertex(i, None, false, 0)];
        list := list + [i];
      }
      vertexRecs, vertices := recs, list;
    }

    /** `getPoint(vi)`: the three numbers at `3vi`. */
    function GetPoint(vi: nat): (p: Point3)
      reads this`points
      requires 3 * vi + 2 < |points|
      ensures p.x == points[3 * vi] && p.y == points[3 * vi + 1] && p.z == points[3 * vi + 2]
    {
      Triple(points, vi)
    }

    /** `getNormal(vi)`: the three numbers at `3vi`. */
    function GetNormal(vi: nat): (n: Point3)
      reads this`normals
      requires 3 * vi + 2 < |normals|
      ensures n.x == normals[3 * vi] && n.y == normals[3 * vi + 1] && n.z == normals[3 * vi + 2]
    {
      Triple(normals, vi)
    }

    /** `getUV(vi)`: the two numbers at `2vi`. */
    function GetUV(vi: nat): (uv: Point2)
      reads this`uvs
      requires 2 * vi + 1 < |uvs|
      ensures uv.x == uvs[2 * vi] && uv.y == uvs[2 * vi + 1]
    {
      Pair(uvs, vi)
    }

    /** `setPoint(vi, p)`: `getPoint(vi)` is `p` afterwards and every other number is as it was. */
    method SetPoint(vi: nat, p: Point3)
      requires 3 * vi + 2 < |points|
      modifies this`points
      ensures points == SetTriple(old(points), vi, p)
      ensures GetPoint(vi) == p
    {
      points := points[3 * vi := p.x];
      points := points[3 * vi + 1 := p.y];
      points := points[3 * vi + 2 := p.z];
    }

    /** `setNormal(vi, n)`: `getNormal(vi)` is `n` afterwards and every other number is as it was. */
    method SetNormal(vi: nat, n: Point3)
      requires 3 * vi + 2 < |normals|
      modifies this`normals
      ensures normals == SetTriple(old(normals), vi, n)
      ensures GetNormal(vi) == n
    {
      normals := normals[3 * vi := n.x];
      normals := normals[3 * vi + 1 := n.y];
      normals := normals[3 * vi + 2 := n.z];
    }

    /** `setUV(vi, uv)`: `getUV(vi)` is `uv` afterwards and every other number is as it was. */
    method SetUV(vi: nat, uv: Point2)
      requires 2 * vi + 1 < |uvs|
      modifies this`uvs
      ensures uvs == SetPair(old(uvs), vi, uv)
      ensures GetUV(vi) == uv
    {
      uvs := uvs[2 * vi := uv.x];
      uvs := uvs[2 * vi + 1 := uv.y];
    }

    /** obj.go's `AddVertex(p, fixed, uv)`: a vertex appended with that point, flag and uv and a zero normal. */
    method AddVertex(p: Point3, fixed: bool, uv: Point2)
      modifies this
      ensures State() == WithVertex(old(State()), p, fixed, uv)
    {
      vertexRecs := vertexRecs + [Vertex(|vertices|, None, fixed, 0)];
      vertices := vertices + [|vertexRecs| - 1];
      points := points + [p.x, p.y, p.z];
      uvs := uvs + [uv.x, uv.y];
      normals := normals + [0.0, 0.0, 0.0];
    }

    /**
     * `addEdge(vi1, vi2)`: the edge filed under the unordered pair, appended
     * with both slots empty only when the pair is new.
     */
    method AddEdge(vi1: nat, vi2: nat) returns (e: nat)
      requires forall k :: k in edgeMap ==> edgeMap[k] < |edges|
      modifies this`edges, this`edgeMap
      ensures (edges, edgeMap, e) == FindOrAddEdge(old(edges), old(edgeMap), KeyOf(vi1, vi2))
    {
      var key := KeyOf(vi1, vi2);
      if key in edgeMap {
        return edgeMap[key];
      }
      e := |edges|;
      edges := edges + [Edge(None, None, 0.0)];
      edgeMap := edgeMap[key := e];
    }

    /** The creating loop of `addFace`: one new half-edge per target, which the target then points at. */
    method CreateCorners(targets: seq<nat>, base: nat)
      requires |targets| == 3 && base == |halfedges|
      requires forall k :: 0 <= k < 3 ==> targets[k] < |vertexRecs|
      modifies this`halfedges, this`vertexRecs
      ensures halfedges == Corners(old(halfedges), targets, 3)
      ensures vertexRecs == Pointed(old(vertexRecs), targets, base, 3)
    {
      for i := 0 to 3
        invariant halfedges == Corners(old(halfedges), targets, i)
        invariant vertexRecs == Pointed(old(vertexRecs), targets, base, i)
      {
        var v := targets[i];
        halfedges := halfedges + [HalfEdge(0, v, 0, 0, Origin3)];
        vertexRecs := vertexRecs[v := vertexRecs[v].(halfedge := Some(base + i))];
      }
    }

    /** The linking loop of `addFace`: corner `i` gets next `(i+1)%3` and prev `(i+2)%3`. */
    method LinkCycle(base: nat)
      requires base + 3 <= |halfedges|
      modifies this`halfedges
      ensures halfedges == Cycled(old(halfedges), base, 3)
    {
      for i := 0 to 3
        invariant halfedges == Cycled(old(halfedges), base, i)
      {
        halfedges := halfedges[base + i := halfedges[base + i].(next := base + (i + 1) % 3, prev := base + (i + 2) % 3)];
      }
    }

    /**
     * The edge loop of `addFace`: corner `i` is attached to the edge of the
     * pair `{vis[i], vis[(i+2)%3]}`, in slot 0 when that is empty and else in
     * slot 1, and records the edge.
     */
    method LinkEdges(vis: seq<nat>, base: nat)
      requires |vis| == 3 && base + 3 <= |halfedges|
      requires forall k :: k in edgeMap ==> edgeMap[k] < |edges|
      modifies this`halfedges, this`edges, this`edgeMap
      ensures (halfedges, edges, edgeMap) == Linked(old(halfedges), old(edges), old(edgeMap), vis, base, 3)
    {
      for i := 0 to 3
        invariant (halfedges, edges, edgeMap) == Linked(old(halfedges), old(edges), old(edgeMap), vis, base, i)
      {
        assert (i + 2) % 3 == if i == 0 then 2 else i - 1;
        var e := AddEdge(vis[i], vis[(i + 2) % 3]);
        if edges[e].slot0 == None {
          edges := edges[e := edges[e].(slot0 := Some(base + i))];
        } else {
          edges := edges[e := edges[e].(slot1 := Some(base + i))];
        }
        halfedges := halfedges[base + i := halfedges[base + i].(edge := e)];
      }
    }

    /**
     * `addFace(vis)`: the creating loop, the linking loop, the face holding its
     * first half-edge, and the edge loop, with the face's index returned.
     */
    method AddFace(vis: seq<nat>) returns (f: nat)
      requires FaceFits(State(), vis)
      modifies this
      ensures State() == WithFace(old(State()), vis)
      ensures f == old(|faces|) && faces[f] == Face(3 * f)
    {
      var base := |halfedges|;
      f := |faces|;
      faces := faces + [Face(base)];
      var targets := [vertices[vis[0]], vertices[vis[1]], vertices[vis[2]]];
      assert targets == Targets(old(State()), vis);
      CreateCorners(targets, base);
      LinkCycle(base);
      LinkEdges(vis, base);
    }

    /** `NewMesh`'s face loop: one `addFace` per index triple. */
    method AddFaces(indices: seq<nat>)
      requires Buildable(State()) && InRange(indices, |vertices|)
      modifies this
      ensures State() == Construction.AddFaces(old(State()), indices, |indices| / 3)
    {
      ghost var s0 := State();
      for k := 0 to |indices| / 3
        invariant State() == Construction.AddFaces(s0, indices, k)
      {
        AddFacesNext(s0, indices, k);
        var _ := AddFace(Triangle(indices, k));
      }
    }

    /** `NewMesh`'s last loop: the vertex listed at each fixed index is flagged fixed. */
    method MarkFixed(fixedIndices: seq<nat>)
      requires InRange(fixedIndices, |vertices|) && forall j :: 0 <= j < |vertices| ==> vertices[j] < |vertexRecs|
      modifies this`vertexRecs
      ensures State() == Construction.MarkFixed(old(State()), fixedIndices, |fixedIndices|)
    {
      for k := 0 to |fixedIndices|
        invariant State() == Construction.MarkFixed(old(State()), fixedIndices, k)
      {
        var h := vertices[fixedIndices[k]];
        vertexRecs := vertexRecs[h := vertexRecs[h].(fixed := true)];
      }
    }

    /**
     * mesh.go's five-argument `NewMesh`: the refused shape, or a new mesh
     * built from the buffers.
     */
    static method NewMesh(points: seq<real>, uvs: seq<real>, normals: seq<real>, indices: seq<nat>, fixedIndices: seq<nat>)
      returns (r: Result<Mesh, ShapeError>)
      requires IndicesFit(points, uvs, indices, fixedIndices)
      ensures r.Err? <==> Build(points, uvs, normals, indices, fixedIndices).Err?
      ensures r.Err? ==> r.error == Build(points, uvs, normals, indices, fixedIndices).error
      ensures r.Ok? ==> fresh(r.value) && r.value.State() == Build(points, uvs, normals, indices, fixedIndices).value
    {
      var check := CheckShape(|points|, |uvs|, |indices|, |fixedIndices|);
      if check.Some? {
        return Err(check.value);
      }
      var m := new Mesh.Init(points, uvs, normals);
      InitialValid(points, uvs, normals);
      m.AddFaces(indices);
      m.MarkFixed(fixedIndices);
      return Ok(m);
    }

    /** The removing branch of `removeDanglingVertices`: position `i` takes the last vertex's entry and data, and the arrays shrink by one vertex. */
    method RemoveAt(i: nat)
      requires ArraysSized(State()) && i < |vertices| && |normals| >= 3 * |vertices|
      modifies this`vertices, this`points, this`normals, this`uvs
      ensures State() == Compaction.RemoveAt(old(State()), i)
    {
      var endi := |vertices| - 1;
      assert 3 * endi + 2 < |points| && 3 * endi + 2 < |normals| && 2 * endi + 1 < |uvs|;
      vertices := vertices[i := vertices[endi]];
      vertices := vertices[..endi];
      SetPoint(i, GetPoint(endi));
      points := points[..3 * endi];
      SetNormal(i, GetNormal(endi));
      normals := normals[..3 * endi];
      SetUV(i, GetUV(endi));
      uvs := uvs[..2 * endi];
    }

    /**
     * `removeDanglingVertices`: a vertex without a half-edge is overwritten by
     * the last one (list entry, point, normal and uv), the arrays shrink by one
     * vertex and the same position is examined again; a kept vertex gets its
     * position as id.
     */
    method RemoveDanglingVertices()
      requires Compaction.CompactPre(State(), 0)
      modifies this
      ensures State() == Compaction.Compact(old(State()))
    {
      var i: int := 0;
      while i < |vertices|
        invariant 0 <= i && Compaction.CompactPre(State(), i)
        invariant Compaction.CompactFrom(State(), i) == Compaction.Compact(old(State()))
        decreases |vertices| - i
      {
        var v := vertices[i];
        if vertexRecs[v].halfedge == None {
          Compaction.RemoveAtStep(State(), i);
          RemoveAt(i);
          i := i - 1;
        } else {
          Compaction.RenumberStep(State(), i);
          vertexRecs := vertexRecs[vertices[i] := vertexRecs[vertices[i]].(id := i)];
        }
        i := i + 1;
      }
    }

    /**
     * The walk of `rotateCcwAboutTarget` for vertex `v`: from its half-edge,
     * step to `other().prev` while the other half exists, at most
     * `len(halfedges)` steps, and point the vertex at where the walk stops.
     */
    method RotateCcwAboutTarget(v: nat)
      requires Boundary.Navigable(halfedges, edges) && Boundary.PointersOk(halfedges, edges, vertexRecs)
      requires v < |vertexRecs| && vertexRecs[v].halfedge.Some?
      modifies this`vertexRecs
      ensures vertexRecs == Boundary.RotateVertex(halfedges, edges, old(vertexRecs), v)
    {
      var start := vertexRecs[v].halfedge.value;
      var h: nat := start;
      var fuel: nat := |halfedges|;
      while fuel > 0
        invariant h < |halfedges|
        invariant Boundary.RotateCcw(halfedges, edges, h, fuel) == Boundary.RotateCcw(halfedges, edges, start, |halfedges|)
        decreases fuel
      {
        match OtherHalfEdge(halfedges, edges, h)
        case None =>
          break;
        case Some(o) =>
          h := halfedges[o].prev;
          fuel := fuel - 1;
      }
      vertexRecs := vertexRecs[v := vertexRecs[v].(halfedge := Some(h))];
    }

    /** One turn of `updateBoundary`'s loop: when edge `e`'s slot 1 is empty, rotate the target and the source of its slot-0 half-edge. */
    method BoundaryEdge(e: nat)
      requires Boundary.Navigable(halfedges, edges) && Boundary.PointersOk(halfedges, edges, vertexRecs) && e < |edges|
      modifies this`vertexRecs
      ensures vertexRecs == Boundary.BoundaryStep(halfedges, edges, old(vertexRecs), e)
    {
      if edges[e].slot1 == None {
        var h := edges[e].slot0.value;
        RotateCcwAboutTarget(halfedges[h].vertex);
        RotateCcwAboutTarget(halfedges[halfedges[h].prev].vertex);
      }
    }

    /** `updateBoundary`: for each edge whose slot 1 is empty, rotate the target and the source of its slot-0 half-edge. */
    method UpdateBoundary()
      requires Boundary.Navigable(halfedges, edges) && Boundary.PointersOk(halfedges, edges, vertexRecs)
      modifies this`vertexRecs
      ensures State() == Boundary.UpdateBoundary(old(State()))
    {
      ghost var hes, es, recs := halfedges, edges, vertexRecs;
      var e := 0;
      while e < |edges|
        invariant e <= |edges| && halfedges == hes && edges == es
        invariant vertexRecs == Boundary.BoundaryUpTo(hes, es, recs, e)
      {
        BoundaryEdge(e);
        e := e + 1;
      }
    }
  }
}
