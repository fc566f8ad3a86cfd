/**
 * The state of a mesh (mesh.go's `Mesh` struct) as a value, its structural
 * invariants, and the effect of each mesh operation on it as a function.
 *
 * `points`, `uvs` and `normals` are the parallel coordinate arrays, three,
 * two and three numbers per vertex position. `vertexRecs` is the arena of
 * vertex records, addressed by handle; `vertices` is the vertex list, the
 * handles in mesh order. Half-edges refer to vertices by handle, as the
 * source's pointers do, so reordering the list moves no reference.
 *
 * The class `Meshes.Mesh` holds the same nine components as fields and its
 * methods are proved to perform the functions defined here.
 */
module MeshStates {
  import opened Wrappers
  import opened Points
  import opened Topology

  datatype MeshState = MeshState(
    points: seq<real>, uvs: seq<real>, normals: seq<real>,
    vertexRecs: seq<Vertex>, vertices: seq<nat>,
    halfedges: seq<HalfEdge>, faces: seq<Face>,
    edges: seq<Edge>, edgeMap: map<EdgeKey, nat>)

  /** Three consecutive numbers of `a` starting at `3j`. */
  function Triple(a: seq<real>, j: nat): Point3
    requires 3 * j + 2 < |a|
  {
    Point3(a[3 * j], a[3 * j + 1], a[3 * j + 2])
  }

  /** Two consecutive numbers of `a` starting at `2j`. */
  function Pair(a: seq<real>, j: nat): Point2
    requires 2 * j + 1 < |a|
  {
    Point2(a[2 * j], a[2 * j + 1])
  }

  /** `a` with the three numbers at `3j` replaced by `p` (`setPoint`, `setNormal`); nothing else changes. */
  function SetTriple(a: seq<real>, j: nat, p: Point3): (r: seq<real>)
    requires 3 * j + 2 < |a|
    ensures |r| == |a| && Triple(r, j) == p
    ensures forall k :: 0 <= k < |a| && (k < 3 * j || 3 * j + 2 < k) ==> r[k] == a[k]
  {
    a[3 * j := p.x][3 * j + 1 := p.y][3 * j + 2 := p.z]
  }

  /** `a` with the two numbers at `2j` replaced by `p` (`setUV`); nothing else changes. */
  function SetPair(a: seq<real>, j: nat, p: Point2): (r: seq<real>)
    requires 2 * j + 1 < |a|
    ensures |r| == |a| && Pair(r, j) == p
    ensures forall k :: 0 <= k < |a| && (k < 2 * j || 2 * j + 1 < k) ==> r[k] == a[k]
  {
    a[2 * j := p.x][2 * j + 1 := p.y]
  }

  /** Setting one vertex's triple leaves every other vertex's triple as it was. */
  lemma SetTripleOthers(a: seq<real>, j: nat, p: Point3, k: nat)
    requires 3 * j + 2 < |a| && 3 * k + 2 < |a| && k != j
    ensures Triple(SetTriple(a, j, p), k) == Triple(a, k)
  {
  }

  /** Setting one vertex's pair leaves every other vertex's pair as it was. */
  lemma SetPairOthers(a: seq<real>, j: nat, p: Point2, k: nat)
    requires 2 * j + 1 < |a| && 2 * k + 1 < |a| && k != j
    ensures Pair(SetPair(a, j, p), k) == Pair(a, k)
  {
  }

  // ---------------------------------------------------------------------------
  // Invariants

  /** The point and uv arrays hold three and two numbers per listed vertex. */
  ghost predicate ArraysSized(s: MeshState)
  {
    |s.points| == 3 * |s.vertices| && |s.uvs| == 2 * |s.vertices|
  }

  /** Every listed handle names a record whose `id` is its position: ids are dense. */
  ghost predicate IdsDense(s: MeshState)
  {
    forall j :: 0 <= j < |s.vertices| ==> s.vertices[j] < |s.vertexRecs| && s.vertexRecs[s.vertices[j]].id == j
  }

  /** Face `f` owns half-edges 3f, 3f+1, 3f+2, linked as a 3-cycle. */
  ghost predicate Cycles(s: MeshState)
  {
    && |s.halfedges| == 3 * |s.faces|
    && (forall f :: 0 <= f < |s.faces| ==> s.faces[f].halfedge == 3 * f)
    && (forall h :: 0 <= h < |s.halfedges| ==>
          s.halfedges[h].next == NextInCycle(h) && s.halfedges[h].prev == PrevInCycle(h))
  }

  /** Every half-edge targets a listed vertex that has a half-edge, and belongs to an existing edge. */
  ghost predicate HalfEdgesLinked(s: MeshState)
  {
    forall h :: 0 <= h < |s.halfedges| ==>
      && s.halfedges[h].edge < |s.edges|
      && s.halfedges[h].vertex < |s.vertexRecs|
      && s.halfedges[h].vertex in s.vertices
      && s.vertexRecs[s.halfedges[h].vertex].halfedge.Some?
  }

  /** An edge slot, when filled, names a half-edge below `bound` that names edge `e` back. */
  ghost predicate SlotOk(hes: seq<HalfEdge>, slot: Option<nat>, e: nat, bound: nat)
  {
    slot.Some? ==> slot.value < bound && slot.value < |hes| && hes[slot.value].edge == e
  }

  /** Every edge among the first `n` holds a half-edge in slot 0, and each filled slot is sound. */
  ghost predicate SlotsSound(hes: seq<HalfEdge>, edges: seq<Edge>, n: nat, bound: nat)
    requires n <= |edges|
  {
    forall e :: 0 <= e < n ==>
      edges[e].slot0.Some? && SlotOk(hes, edges[e].slot0, e, bound) && SlotOk(hes, edges[e].slot1, e, bound)
  }

  /** Every edge holds one or two half-edges, each of which names the edge back. */
  ghost predicate EdgesLinked(s: MeshState)
  {
    SlotsSound(s.halfedges, s.edges, |s.edges|, |s.halfedges|)
  }

  /** A vertex's half-edge pointer, when set, names an existing half-edge. */
  ghost predicate VertexPointersInRange(s: MeshState)
  {
    forall v :: 0 <= v < |s.vertexRecs| ==>
      s.vertexRecs[v].halfedge.Some? ==> s.vertexRecs[v].halfedge.value < |s.halfedges|
  }

  /** Keys `k1` and `k2` are filed under the same edge. */
  ghost predicate SameEdge(index: map<EdgeKey, nat>, k1: EdgeKey, k2: EdgeKey)
    requires k1 in index && k2 in index
  {
    index[k1] == index[k2]
  }

  /** An edge index over `n` edges: one edge per ordered key, and no two keys share an edge. */
  ghost predicate IndexOf(index: map<EdgeKey, nat>, n: nat)
  {
    && (forall k :: k in index ==> index[k] < n && k.v1 <= k.v2)
    && (forall k1, k2 :: k1 in index && k2 in index && SameEdge(index, k1, k2) ==> k1 == k2)
    && |index| == n
  }

  /** `edges` and `edgeMap` grow together. */
  ghost predicate EdgeIndex(s: MeshState)
  {
    IndexOf(s.edgeMap, |s.edges|)
  }

  ghost predicate Valid(s: MeshState)
  {
    && ArraysSized(s)
    && IdsDense(s)
    && Cycles(s)
    && HalfEdgesLinked(s)
    && EdgesLinked(s)
    && VertexPointersInRange(s)
    && EdgeIndex(s)
  }

  /** Half-edge `h`, its predecessor and both their vertices exist. */
  ghost predicate KeyDefined(s: MeshState, h: nat)
  {
    && h < |s.halfedges|
    && s.halfedges[h].prev < |s.halfedges|
    && s.halfedges[h].vertex < |s.vertexRecs|
    && s.halfedges[s.halfedges[h].prev].vertex < |s.vertexRecs|
  }

  /** The key of half-edge `h`: the unordered pair of the ids of its target and its source. */
  ghost function HalfEdgeKey(s: MeshState, h: nat): EdgeKey
    requires KeyDefined(s, h)
  {
    KeyOf(s.vertexRecs[s.halfedges[h].vertex].id, s.vertexRecs[s.halfedges[s.halfedges[h].prev].vertex].id)
  }

  /** The edge of half-edge `h` is the one filed under its key. */
  ghost predicate KeyedAt(s: MeshState, h: nat)
  {
    KeyDefined(s, h) && HalfEdgeKey(s, h) in s.edgeMap && s.edgeMap[HalfEdgeKey(s, h)] == s.halfedges[h].edge
  }

  /**
   * The edge of every half-edge is the one filed under its key. This holds
   * while ids are those the keys were made from, i.e. until compaction
   * renumbers them.
   */
  ghost predicate Keyed(s: MeshState)
  {
    forall h :: 0 <= h < |s.halfedges| ==> KeyedAt(s, h)
  }

  /** Listed vertex `j` has no half-edge. */
  ghost predicate DanglingAt(s: MeshState, j: nat)
  {
    j < |s.vertices| && s.vertices[j] < |s.vertexRecs| && s.vertexRecs[s.vertices[j]].halfedge.None?
  }

  ghost predicate HasDangling(s: MeshState)
  {
    exists j :: DanglingAt(s, j)
  }

  /** The mesh of obj.go's zero-argument `NewMesh()`. */
  function EmptyState(): MeshState
  {
    MeshState([], [], [], [], [], [], [], [], map[])
  }

  lemma EmptyStateValid()
    ensures Valid(EmptyState()) && Keyed(EmptyState()) && !HasDangling(EmptyState())
  {
  }

  // ---------------------------------------------------------------------------
  // Edge lookup (`addEdge`)

  /**
   * `addEdge` on the edge list and its index: the edge filed under `key` and
   * the list and index afterwards; a new key gets a new edge with both slots
   * empty, appended.
   */
  function FindOrAddEdge(edges: seq<Edge>, index: map<EdgeKey, nat>, key: EdgeKey): (r: (seq<Edge>, map<EdgeKey, nat>, nat))
    requires forall k :: k in index ==> index[k] < |edges|
    ensures key in r.1 && r.1[key] == r.2 && r.2 < |r.0|
    ensures forall k :: k in r.1 ==> r.1[k] < |r.0|
    ensures key in index ==> r.0 == edges && r.1 == index
    ensures key !in index ==> r.2 == |edges| && r.0 == edges + [Edge(None, None, 0.0)] && r.1 == index[key := r.2]
  {
    if key in index then (edges, index, index[key])
    else (edges + [Edge(None, None, 0.0)], index[key := |edges|], |edges|)
  }

  /**
   * The edge list and index stay in step through `addEdge`: keys stay ordered
   * and injective, there is one edge per distinct key, and an edge is added
   * exactly when the key is new.
   */
  lemma FindOrAddEdgeKeepsIndex(edges: seq<Edge>, index: map<EdgeKey, nat>, key: EdgeKey)
    requires IndexOf(index, |edges|) && key.v1 <= key.v2
    ensures var r := FindOrAddEdge(edges, index, key);
            && IndexOf(r.1, |r.0|)
            && r.1.Keys == index.Keys + {key}
            && (forall k :: k in index ==> r.1[k] == index[k])
            && |r.0| == |edges| + (if key in index then 0 else 1)
  {
    var r := FindOrAddEdge(edges, index, key);
    if key !in index {
      forall k1, k2 | k1 in r.1 && k2 in r.1 && SameEdge(r.1, k1, k2)
        ensures k1 == k2
      {
        if k1 != key && k2 != key {
          assert SameEdge(index, k1, k2);
        }
      }
    }
  }

  // ---------------------------------------------------------------------------
  // Adding a vertex (obj.go's `AddVertex`)

  /** A vertex appended with point `p`, the `fixed` flag, uv `uv` and a zero normal; its id is its position. */
  function WithVertex(s: MeshState, p: Point3, fixed: bool, uv: Point2): MeshState
  {
    s.(points := s.points + [p.x, p.y, p.z],
       uvs := s.uvs + [uv.x, uv.y],
       normals := s.normals + [0.0, 0.0, 0.0],
       vertexRecs := s.vertexRecs + [Vertex(|s.vertices|, None, fixed, 0)],
       vertices := s.vertices + [|s.vertexRecs|])
  }

  /** Appending a vertex keeps every invariant, keeps the keys, and lists the new vertex last with its data. */
  lemma WithVertexValid(s: MeshState, p: Point3, fixed: bool, uv: Point2)
    requires Valid(s)
    ensures var t := WithVertex(s, p, fixed, uv);
            && Valid(t)
            && (Keyed(s) ==> Keyed(t))
            && |t.vertices| == |s.vertices| + 1
            && Triple(t.points, |s.vertices|) == p && Pair(t.uvs, |s.vertices|) == uv
            && t.vertexRecs[t.vertices[|s.vertices|]] == Vertex(|s.vertices|, None, fixed, 0)
  {
    var t := WithVertex(s, p, fixed, uv);
    forall j | 0 <= j < |t.vertices|
      ensures t.vertices[j] < |t.vertexRecs| && t.vertexRecs[t.vertices[j]].id == j
    {
      if j < |s.vertices| {
        assert t.vertices[j] == s.vertices[j];
      }
    }
    forall h | 0 <= h < |t.halfedges|
      ensures t.halfedges[h].vertex in t.vertices
    {
      assert s.halfedges[h].vertex in s.vertices;
    }
    if Keyed(s) {
      forall h | 0 <= h < |t.halfedges|
        ensures KeyedAt(t, h)
      {
        assert KeyedAt(s, h);
        assert HalfEdgeKey(t, h) == HalfEdgeKey(s, h);
      }
    }
  }

  // ---------------------------------------------------------------------------
  // Adding a face (`addFace`)

  /** Corner `i` of a face over vertex positions `vis` is attached to the edge keyed `{vis[i], vis[(i+2)%3]}`. */
  function CornerKey(vis: seq<nat>, i: nat): EdgeKey
    requires |vis| == 3 && i < 3
  {
    KeyOf(vis[i], vis[if i == 0 then 2 else i - 1])
  }

  /** The vertex handles at positions `vis`, which the face's corners target. */
  function Targets(s: MeshState, vis: seq<nat>): (r: seq<nat>)
    requires |vis| == 3 && forall i :: 0 <= i < 3 ==> vis[i] < |s.vertices|
    ensures |r| == 3 && forall i :: 0 <= i < 3 ==> r[i] == s.vertices[vis[i]]
  {
    [s.vertices[vis[0]], s.vertices[vis[1]], s.vertices[vis[2]]]
  }

  /** The creating loop of `addFace`: one new half-edge per target, not linked yet. */
  function Corners(hes: seq<HalfEdge>, targets: seq<nat>, i: nat): (r: seq<HalfEdge>)
    requires i <= |targets|
    ensures |r| == |hes| + i
  {
    if i == 0 then hes else Corners(hes, targets, i - 1) + [HalfEdge(0, targets[i - 1], 0, 0, Origin3)]
  }

  /** The creating loop keeps the old half-edges and appends one per target, in order. */
  lemma {:induction false} CornersAt(hes: seq<HalfEdge>, targets: seq<nat>, i: nat)
    requires i <= |targets|
    ensures forall h :: 0 <= h < |hes| ==> Corners(hes, targets, i)[h] == hes[h]
    ensures forall h :: |hes| <= h < |hes| + i ==> Corners(hes, targets, i)[h] == HalfEdge(0, targets[h - |hes|], 0, 0, Origin3)
  {
    if i > 0 {
      CornersAt(hes, targets, i - 1);
    }
  }

  /**
   * The half-edge pointer of vertex `v` after the first `k` corners (at
   * `base`, `base + 1`, ...) targeting `targets` were created: the last one
   * targeting `v` wins, and with none it is unchanged.
   */
  function LastTargeting(old_: Option<nat>, v: nat, targets: seq<nat>, base: nat, k: nat): Option<nat>
    requires k <= |targets|
  {
    if k == 0 then old_
    else if targets[k - 1] == v then Some(base + k - 1)
    else LastTargeting(old_, v, targets, base, k - 1)
  }

  /** The last of the first `k` positions of `targets` holding `v`, or -1 when none does. */
  function LastIndex(v: nat, targets: seq<nat>, k: nat): (r: int)
    requires k <= |targets|
    ensures -1 <= r < k
    ensures r >= 0 ==> targets[r] == v
    ensures forall j :: r < j < k ==> targets[j] != v
  {
    if k == 0 then -1
    else if targets[k - 1] == v then k - 1
    else LastIndex(v, targets, k - 1)
  }

  /** The vertex's half-edge field names the LAST corner targeting `v`, or is unchanged when no corner targets it. */
  lemma {:induction false} LastTargetingIsLast(old_: Option<nat>, v: nat, targets: seq<nat>, base: nat, k: nat)
    requires k <= |targets|
    ensures LastTargeting(old_, v, targets, base, k) ==
            (if LastIndex(v, targets, k) < 0 then old_ else Some(base + LastIndex(v, targets, k)))
  {
    if k > 0 && targets[k - 1] != v {
      LastTargetingIsLast(old_, v, targets, base, k - 1);
    }
  }

  /** The half-edge field updates of the creating loop. */
  function Pointed(recs: seq<Vertex>, targets: seq<nat>, base: nat, i: nat): (r: seq<Vertex>)
    requires i <= |targets| && forall k :: 0 <= k < |targets| ==> targets[k] < |recs|
    ensures |r| == |recs|
  {
    if i == 0 then recs
    else
      var r := Pointed(recs, targets, base, i - 1);
      r[targets[i - 1] := r[targets[i - 1]].(halfedge := Some(base + i - 1))]
  }

  /** Only the half-edge pointers change, each to its `LastTargeting` value. */
  lemma {:induction false} PointedAt(recs: seq<Vertex>, targets: seq<nat>, base: nat, i: nat)
    requires i <= |targets| && forall k :: 0 <= k < |targets| ==> targets[k] < |recs|
    ensures forall v :: 0 <= v < |recs| ==>
              Pointed(recs, targets, base, i)[v] == recs[v].(halfedge := LastTargeting(recs[v].halfedge, v, targets, base, i))
  {
    if i > 0 {
      PointedAt(recs, targets, base, i - 1);
    }
  }

  /** The linking loop of `addFace`: corner `k`'s next is corner `(k+1)%3` and its prev corner `(k+2)%3`. */
  function Cycled(hes: seq<HalfEdge>, base: nat, i: nat): (r: seq<HalfEdge>)
    requires i <= 3 && base + 3 <= |hes|
    ensures |r| == |hes|
  {
    if i == 0 then hes
    else
      var r := Cycled(hes, base, i - 1);
      var k := i - 1;
      r[base + k := r[base + k].(next := base + (k + 1) % 3, prev := base + (k + 2) % 3)]
  }

  /** The linking loop changes only `next` and `prev` of the first `i` corners. */
  lemma {:induction false} CycledAt(hes: seq<HalfEdge>, base: nat, i: nat)
    requires i <= 3 && base + 3 <= |hes|
    ensures forall h :: 0 <= h < |hes| && !(base <= h < base + i) ==> Cycled(hes, base, i)[h] == hes[h]
    ensures forall h :: base <= h < base + i ==>
              Cycled(hes, base, i)[h] == hes[h].(next := base + (h - base + 1) % 3, prev := base + (h - base + 2) % 3)
  {
    if i > 0 {
      CycledAt(hes, base, i - 1);
    }
  }

  /** The first half-edge attached to an edge fills slot 0; every later one fills slot 1. */
  function Attach(e: Edge, he: nat): (r: Edge)
    ensures r.squaredLength == e.squaredLength
    ensures e.slot0.None? ==> r.slot0 == Some(he) && r.slot1 == e.slot1
    ensures e.slot0.Some? ==> r.slot0 == e.slot0 && r.slot1 == Some(he)
  {
    if e.slot0 == None then e.(slot0 := Some(he)) else e.(slot1 := Some(he))
  }

  /** The keys of the edges of corners `0..i`. */
  function KeysUpTo(vis: seq<nat>, i: nat): set<EdgeKey>
    requires |vis| == 3 && i <= 3
  {
    if i == 0 then {} else KeysUpTo(vis, i - 1) + {CornerKey(vis, i - 1)}
  }

  /** A sound slot stays sound when the next corner is pointed at some edge. */
  lemma SlotOkStep(hes: seq<HalfEdge>, slot: Option<nat>, x: nat, b: nat, e: nat)
    requires b < |hes| && SlotOk(hes, slot, x, b)
    ensures SlotOk(hes[b := hes[b].(edge := e)], slot, x, b + 1)
  {
  }

  /**
   * One turn of the edge loop of `addFace`: corner `k` is attached to the
   * edge filed under `CornerKey(vis, k)`, found or added, in the edge's
   * first free slot (else slot 1), and the corner records that edge.
   */
  function LinkCorner(p: (seq<HalfEdge>, seq<Edge>, map<EdgeKey, nat>), vis: seq<nat>, base: nat, k: nat)
    : (r: (seq<HalfEdge>, seq<Edge>, map<EdgeKey, nat>))
    requires |vis| == 3 && k < 3 && base + k < |p.0|
    requires forall key :: key in p.2 ==> p.2[key] < |p.1|
    ensures |r.0| == |p.0| && |r.1| >= |p.1|
    ensures forall key :: key in r.2 ==> r.2[key] < |r.1|
  {
    var q := FindOrAddEdge(p.1, p.2, CornerKey(vis, k));
    var e := q.2;
    (p.0[base + k := p.0[base + k].(edge := e)], q.0[e := Attach(q.0[e], base + k)], q.1)
  }

  /** The edge loop of `addFace` over the first `i` corners. */
  function Linked(hes: seq<HalfEdge>, edges: seq<Edge>, index: map<EdgeKey, nat>, vis: seq<nat>, base: nat, i: nat)
    : (r: (seq<HalfEdge>, seq<Edge>, map<EdgeKey, nat>))
    requires |vis| == 3 && i <= 3 && base + 3 <= |hes|
    requires forall k :: k in index ==> index[k] < |edges|
    ensures |r.0| == |hes| && |r.1| >= |edges|
    ensures forall k :: k in r.2 ==> r.2[k] < |r.1|
  {
    if i == 0 then (hes, edges, index)
    else LinkCorner(Linked(hes, edges, index, vis, base, i - 1), vis, base, i - 1)
  }

  /** One turn of the edge loop changes only corner `k`, which records the edge filed under its key; older keys keep their edges. */
  lemma LinkCornerHalfEdge(p: (seq<HalfEdge>, seq<Edge>, map<EdgeKey, nat>), vis: seq<nat>, base: nat, k: nat, h: nat)
    requires |vis| == 3 && k < 3 && base + k < |p.0| && h < |p.0|
    requires forall key :: key in p.2 ==> p.2[key] < |p.1|
    ensures var r := LinkCorner(p, vis, base, k);
            && CornerKey(vis, k) in r.2
            && r.0[h] == (if h == base + k then p.0[h].(edge := r.2[CornerKey(vis, k)]) else p.0[h])
            && (forall key :: key in p.2 ==> key in r.2 && r.2[key] == p.2[key])
  {
  }

  /** One turn of the edge loop files corner `k`'s key and keeps every older key's edge. */
  lemma LinkCornerKeys(p: (seq<HalfEdge>, seq<Edge>, map<EdgeKey, nat>), vis: seq<nat>, base: nat, k: nat)
    requires |vis| == 3 && k < 3 && base + k < |p.0|
    requires forall key :: key in p.2 ==> p.2[key] < |p.1|
    ensures var r := LinkCorner(p, vis, base, k);
            && r.2.Keys == p.2.Keys + {CornerKey(vis, k)}
            && (forall key :: key in p.2 ==> r.2[key] == p.2[key])
  {
  }

  /** One turn of the edge loop keeps edge `x` sound, one corner further on. */
  lemma LinkCornerSlot(p: (seq<HalfEdge>, seq<Edge>, map<EdgeKey, nat>), vis: seq<nat>, base: nat, k: nat, x: nat)
    requires |vis| == 3 && k < 3 && base + k < |p.0|
    requires forall key :: key in p.2 ==> p.2[key] < |p.1|
    requires x < |LinkCorner(p, vis, base, k).1|
    requires x < |p.1| ==> p.1[x].slot0.Some? && SlotOk(p.0, p.1[x].slot0, x, base + k) && SlotOk(p.0, p.1[x].slot1, x, base + k)
    ensures var r := LinkCorner(p, vis, base, k);
            r.1[x].slot0.Some? && SlotOk(r.0, r.1[x].slot0, x, base + k + 1) && SlotOk(r.0, r.1[x].slot1, x, base + k + 1)
  {
    var q := FindOrAddEdge(p.1, p.2, CornerKey(vis, k));
    if x < |p.1| {
      SlotOkStep(p.0, p.1[x].slot0, x, base + k, q.2);
      SlotOkStep(p.0, p.1[x].slot1, x, base + k, q.2);
    }
  }

  /** The edge loop files the corners' keys and keeps every key it found where it was. */
  lemma {:induction false} LinkedExtends(hes: seq<HalfEdge>, edges: seq<Edge>, index: map<EdgeKey, nat>, vis: seq<nat>, base: nat, i: nat)
    requires |vis| == 3 && i <= 3 && base + 3 <= |hes|
    requires forall k :: k in index ==> index[k] < |edges|
    ensures var r := Linked(hes, edges, index, vis, base, i);
            && r.2.Keys == index.Keys + KeysUpTo(vis, i)
            && (forall k :: k in index ==> r.2[k] == index[k])
  {
    if i > 0 {
      LinkedExtends(hes, edges, index, vis, base, i - 1);
      var p := Linked(hes, edges, index, vis, base, i - 1);
      LinkCornerKeys(p, vis, base, i - 1);
      assert Linked(hes, edges, index, vis, base, i) == LinkCorner(p, vis, base, i - 1);
      assert KeysUpTo(vis, i) == KeysUpTo(vis, i - 1) + {CornerKey(vis, i - 1)};
    }
  }

  /** The edge loop keeps the edge list and its index in step. */
  lemma {:induction false} LinkedIndex(hes: seq<HalfEdge>, edges: seq<Edge>, index: map<EdgeKey, nat>, vis: seq<nat>, base: nat, i: nat)
    requires |vis| == 3 && i <= 3 && base + 3 <= |hes|
    requires IndexOf(index, |edges|)
    ensures var r := Linked(hes, edges, index, vis, base, i);
            IndexOf(r.2, |r.1|)
  {
    if i > 0 {
      LinkedIndex(hes, edges, index, vis, base, i - 1);
      var p := Linked(hes, edges, index, vis, base, i - 1);
      FindOrAddEdgeKeepsIndex(p.1, p.2, CornerKey(vis, i - 1));
    }
  }

  /** The edge loop changes only the `edge` of the first `i` corners, each to the edge filed under its key. */
  lemma {:induction false} LinkedHalfEdgeAt(hes: seq<HalfEdge>, edges: seq<Edge>, index: map<EdgeKey, nat>, vis: seq<nat>, base: nat, i: nat, h: nat)
    requires |vis| == 3 && i <= 3 && base + 3 <= |hes| && h < |hes|
    requires forall k :: k in index ==> index[k] < |edges|
    ensures var r := Linked(hes, edges, index, vis, base, i);
            && (!(base <= h < base + i) ==> r.0[h] == hes[h])
            && (base <= h < base + i ==>
                  CornerKey(vis, h - base) in r.2 && r.0[h] == hes[h].(edge := r.2[CornerKey(vis, h - base)]))
  {
    if i > 0 {
      LinkedHalfEdgeAt(hes, edges, index, vis, base, i - 1, h);
      var p := Linked(hes, edges, index, vis, base, i - 1);
      LinkCornerHalfEdge(p, vis, base, i - 1, h);
    }
  }

  /** Edge `x` after the edge loop: a slot it had before is kept, and a filled slot names a corner attached to `x`. */
  lemma {:induction false} LinkedSlotAt(hes: seq<HalfEdge>, edges: seq<Edge>, index: map<EdgeKey, nat>, vis: seq<nat>, base: nat, i: nat, x: nat)
    requires |vis| == 3 && i <= 3 && base + 3 <= |hes|
    requires forall k :: k in index ==> index[k] < |edges|
    requires SlotsSound(hes, edges, |edges|, base)
    requires x < |Linked(hes, edges, index, vis, base, i).1|
    ensures var r := Linked(hes, edges, index, vis, base, i);
            r.1[x].slot0.Some? && SlotOk(r.0, r.1[x].slot0, x, base + i) && SlotOk(r.0, r.1[x].slot1, x, base + i)
  {
    if i == 0 {
      assert SlotOk(hes, edges[x].slot0, x, base) && SlotOk(hes, edges[x].slot1, x, base);
    } else {
      var p := Linked(hes, edges, index, vis, base, i - 1);
      if x < |p.1| {
        LinkedSlotAt(hes, edges, index, vis, base, i - 1, x);
      }
      LinkCornerSlot(p, vis, base, i - 1, x);
    }
  }

  /** The edge loop keeps every edge linked. */
  lemma LinkedSlots(hes: seq<HalfEdge>, edges: seq<Edge>, index: map<EdgeKey, nat>, vis: seq<nat>, base: nat, i: nat)
    requires |vis| == 3 && i <= 3 && base + 3 <= |hes|
    requires forall k :: k in index ==> index[k] < |edges|
    requires SlotsSound(hes, edges, |edges|, base)
    ensures var r := Linked(hes, edges, index, vis, base, i);
            SlotsSound(r.0, r.1, |r.1|, base + i)
  {
    var r := Linked(hes, edges, index, vis, base, i);
    forall x | 0 <= x < |r.1|
      ensures r.1[x].slot0.Some? && SlotOk(r.0, r.1[x].slot0, x, base + i) && SlotOk(r.0, r.1[x].slot1, x, base + i)
    {
      LinkedSlotAt(hes, edges, index, vis, base, i, x);
    }
  }

  /** Half-edge `3f + k` is corner `k` of face `f`: its successor and predecessor in the cycle are corners `(k+1)%3` and `(k+2)%3`. */
  lemma CornerArithmetic(f: nat, k: nat)
    requires k < 3
    ensures NextInCycle(3 * f + k) == 3 * f + (k + 1) % 3
    ensures PrevInCycle(3 * f + k) == 3 * f + (k + 2) % 3
  {
  }

  /** `CornerArithmetic` for a half-edge `h` known to be corner `k` of face `f`. */
  lemma CornerAt(h: nat, f: nat, k: nat)
    requires k < 3 && h == 3 * f + k
    ensures NextInCycle(h) == 3 * f + (k + 1) % 3
    ensures PrevInCycle(h) == 3 * f + (k + 2) % 3
  {
    CornerArithmetic(f, k);
  }

  /**
   * In a face's cycle, `next` starts where the half-edge ends: the source of
   * `h.next` is the target of `h`, and the source of `h` is the target of
   * `h.next.next`, the half-edge that closes the cycle.
   */
  lemma SourceOfNext(s: MeshState, h: nat)
    requires Valid(s) && h < |s.halfedges|
    ensures s.halfedges[h].next < |s.halfedges| && s.halfedges[s.halfedges[h].next].next < |s.halfedges|
    ensures s.halfedges[s.halfedges[h].next].prev < |s.halfedges|
    ensures Source(s.halfedges, s.halfedges[h].next) == Target(s.halfedges, h)
    ensures Source(s.halfedges, h) == Target(s.halfedges, s.halfedges[s.halfedges[h].next].next)
  {
    var n := NextInCycle(h);
    CycleLaws(h);
    CycleLaws(n);
    assert n / 3 == h / 3 && NextInCycle(n) / 3 == h / 3;
  }

  /**
   * `he.other()` on a valid mesh: when it exists it is a half-edge on the
   * same edge, and it is nil exactly for the half-edge alone in slot 0 of a
   * boundary edge.
   */
  lemma OtherOnMesh(s: MeshState, h: nat)
    requires Valid(s) && h < |s.halfedges|
    ensures s.halfedges[h].edge < |s.edges|
    ensures var e, o := s.halfedges[h].edge, OtherHalfEdge(s.halfedges, s.edges, h);
            && (o.None? <==> s.edges[e].slot0 == Some(h) && s.edges[e].slot1.None?)
            && (o.Some? ==> o.value < |s.halfedges| && s.halfedges[o.value].edge == e)
  {
    var e := s.halfedges[h].edge;
    assert s.edges[e].slot0.Some? && SlotOk(s.halfedges, s.edges[e].slot0, e, |s.halfedges|);
    assert SlotOk(s.halfedges, s.edges[e].slot1, e, |s.halfedges|);
  }

  /**
   * What `addFace` needs of the state: three positions of listed vertices
   * with records, whole faces, and an index naming existing edges.
   */
  ghost predicate FaceFits(s: MeshState, vis: seq<nat>)
  {
    && |vis| == 3
    && (forall i :: 0 <= i < 3 ==> vis[i] < |s.vertices| && s.vertices[vis[i]] < |s.vertexRecs|)
    && |s.halfedges| == 3 * |s.faces|
    && (forall k :: k in s.edgeMap ==> s.edgeMap[k] < |s.edges|)
  }

  /** A valid mesh fits any face over listed vertices. */
  lemma ValidFaceFits(s: MeshState, vis: seq<nat>)
    requires Valid(s) && |vis| == 3 && forall i :: 0 <= i < 3 ==> vis[i] < |s.vertices|
    ensures FaceFits(s, vis)
  {
  }

  /** `addFace(vis)`: the three loops one after another, and the new face holding its first half-edge. */
  function WithFace(s: MeshState, vis: seq<nat>): MeshState
    requires FaceFits(s, vis)
  {
    var base := |s.halfedges|;
    var targets := Targets(s, vis);
    var n := |vis|;  // three corners
    var linked := Linked(Cycled(Corners(s.halfedges, targets, n), base, n), s.edges, s.edgeMap, vis, base, n);
    s.(vertexRecs := Pointed(s.vertexRecs, targets, base, n),
       halfedges := linked.0,
       faces := s.faces + [Face(base)],
       edges := linked.1,
       edgeMap := linked.2)
  }

  /** Half-edge `h` after `addFace`: an old one untouched, a new one built from its corner. */
  lemma WithFaceHalfEdgeAt(s: MeshState, vis: seq<nat>, h: nat)
    requires FaceFits(s, vis) && h < |s.halfedges| + 3
    ensures var t := WithFace(s, vis);
            var base := |s.halfedges|;
            && |t.halfedges| == base + 3
            && (h < base ==> t.halfedges[h] == s.halfedges[h])
            && (base <= h ==>
                  && CornerKey(vis, h - base) in t.edgeMap
                  && t.halfedges[h] == HalfEdge(t.edgeMap[CornerKey(vis, h - base)], s.vertices[vis[h - base]],
                                                PrevInCycle(h), NextInCycle(h), Origin3))
  {
    var base := |s.halfedges|;
    var targets := Targets(s, vis);
    var created := Corners(s.halfedges, targets, 3);
    var cycled := Cycled(created, base, 3);
    CornersAt(s.halfedges, targets, 3);
    CycledAt(created, base, 3);
    LinkedHalfEdgeAt(cycled, s.edges, s.edgeMap, vis, base, 3, h);
    var linked := Linked(cycled, s.edges, s.edgeMap, vis, base, 3);
    var t := WithFace(s, vis);
    assert t.halfedges == linked.0 && t.edgeMap == linked.2;
    if base <= h {
      CornerArithmetic(|s.faces|, h - base);
      assert created[h] == HalfEdge(0, targets[h - base], 0, 0, Origin3);
      assert cycled[h] == created[h].(next := base + (h - base + 1) % 3, prev := base + (h - base + 2) % 3);
    } else {
      assert created[h] == s.halfedges[h] && cycled[h] == created[h];
    }
  }

  /**
   * The half-edges after `addFace`: the old ones untouched, and three new
   * ones, corner `k` targeting the vertex at position `vis[k]`, linked into a
   * 3-cycle, and attached to the edge filed under `CornerKey(vis, k)`.
   */
  lemma WithFaceHalfEdges(s: MeshState, vis: seq<nat>)
    requires FaceFits(s, vis)
    ensures |WithFace(s, vis).halfedges| == |s.halfedges| + 3
    ensures forall h :: 0 <= h < |s.halfedges| ==> WithFace(s, vis).halfedges[h] == s.halfedges[h]
    ensures forall h :: |s.halfedges| <= h < |s.halfedges| + 3 ==>
              && CornerKey(vis, h - |s.halfedges|) in WithFace(s, vis).edgeMap
              && WithFace(s, vis).halfedges[h] ==
                   HalfEdge(WithFace(s, vis).edgeMap[CornerKey(vis, h - |s.halfedges|)], s.vertices[vis[h - |s.halfedges|]],
                            PrevInCycle(h), NextInCycle(h), Origin3)
  {
    var t := WithFace(s, vis);
    var base := |s.halfedges|;
    WithFaceHalfEdgeAt(s, vis, 0);
    forall h | 0 <= h < base
      ensures t.halfedges[h] == s.halfedges[h]
    {
      WithFaceHalfEdgeAt(s, vis, h);
    }
    WithFaceHalfEdgeAt(s, vis, base);
    WithFaceHalfEdgeAt(s, vis, base + 1);
    WithFaceHalfEdgeAt(s, vis, base + 2);
  }

  /**
   * What else `addFace` changes: a face holding the first new half-edge is
   * appended, the corners' keys are filed (every older key keeps its edge),
   * and each vertex's half-edge pointer moves to the last new half-edge
   * targeting it.
   */
  lemma WithFaceRecords(s: MeshState, vis: seq<nat>)
    requires FaceFits(s, vis)
    ensures var t := WithFace(s, vis);
            && t.faces == s.faces + [Face(3 * |s.faces|)]
            && t.edgeMap.Keys == s.edgeMap.Keys + {CornerKey(vis, 0), CornerKey(vis, 1), CornerKey(vis, 2)}
            && (forall k :: k in s.edgeMap ==> t.edgeMap[k] == s.edgeMap[k])
            && |t.vertexRecs| == |s.vertexRecs|
            && (forall v :: 0 <= v < |s.vertexRecs| ==>
                  t.vertexRecs[v] == s.vertexRecs[v].(halfedge :=
                    LastTargeting(s.vertexRecs[v].halfedge, v, Targets(s, vis), |s.halfedges|, 3)))
            && t.points == s.points && t.uvs == s.uvs && t.normals == s.normals && t.vertices == s.vertices
  {
    var base := |s.halfedges|;
    var targets := Targets(s, vis);
    var cycled := Cycled(Corners(s.halfedges, targets, 3), base, 3);
    LinkedExtends(cycled, s.edges, s.edgeMap, vis, base, 3);
    assert KeysUpTo(vis, 1) == {CornerKey(vis, 0)};
    assert KeysUpTo(vis, 2) == {CornerKey(vis, 0), CornerKey(vis, 1)};
    assert KeysUpTo(vis, 3) == {CornerKey(vis, 0), CornerKey(vis, 1), CornerKey(vis, 2)};
    PointedAt(s.vertexRecs, targets, base, 3);
  }

  /** After `addFace` every vertex pointer that was set, or that a new corner set, names an existing half-edge. */
  lemma WithFacePointers(s: MeshState, vis: seq<nat>)
    requires Valid(s) && FaceFits(s, vis)
    ensures var t := WithFace(s, vis);
            && VertexPointersInRange(t)
            && (forall v :: 0 <= v < |t.vertexRecs| && (s.vertexRecs[v].halfedge.Some? || v in Targets(s, vis)) ==>
                  t.vertexRecs[v].halfedge.Some?)
  {
    var t := WithFace(s, vis);
    var base := |s.halfedges|;
    var targets := Targets(s, vis);
    WithFaceHalfEdges(s, vis);
    WithFaceRecords(s, vis);
    forall v | 0 <= v < |t.vertexRecs|
      ensures t.vertexRecs[v].halfedge.Some? ==> t.vertexRecs[v].halfedge.value < |t.halfedges|
      ensures (s.vertexRecs[v].halfedge.Some? || v in targets) ==> t.vertexRecs[v].halfedge.Some?
    {
      LastTargetingIsLast(s.vertexRecs[v].halfedge, v, targets, base, 3);
      if v in targets {
        var k :| 0 <= k < 3 && targets[k] == v;
        assert LastIndex(v, targets, 3) >= k;
      }
    }
  }

  /** After `addFace` every half-edge targets a listed vertex that has a half-edge, and belongs to an existing edge. */
  lemma WithFaceHalfEdgesLinked(s: MeshState, vis: seq<nat>)
    requires Valid(s) && FaceFits(s, vis)
    ensures HalfEdgesLinked(WithFace(s, vis))
  {
    var t := WithFace(s, vis);
    var base := |s.halfedges|;
    WithFaceHalfEdges(s, vis);
    WithFaceRecords(s, vis);
    WithFacePointers(s, vis);
    forall h | 0 <= h < |t.halfedges|
      ensures t.halfedges[h].edge < |t.edges|
      ensures t.halfedges[h].vertex < |t.vertexRecs| && t.halfedges[h].vertex in t.vertices
      ensures t.vertexRecs[t.halfedges[h].vertex].halfedge.Some?
    {
      if h < base {
        assert t.halfedges[h] == s.halfedges[h];
      } else {
        assert t.halfedges[h].vertex == Targets(s, vis)[h - base];
      }
    }
  }

  /** After `addFace` every edge holds a half-edge in slot 0 and each filled slot names the edge back. */
  lemma WithFaceEdgesLinked(s: MeshState, vis: seq<nat>)
    requires Valid(s) && FaceFits(s, vis)
    ensures EdgesLinked(WithFace(s, vis))
  {
    var base := |s.halfedges|;
    var targets := Targets(s, vis);
    var created := Corners(s.halfedges, targets, 3);
    var cycled := Cycled(created, base, 3);
    CornersAt(s.halfedges, targets, 3);
    CycledAt(created, base, 3);
    forall e | 0 <= e < |s.edges|
      ensures s.edges[e].slot0.Some? && SlotOk(cycled, s.edges[e].slot0, e, base) && SlotOk(cycled, s.edges[e].slot1, e, base)
    {
      assert SlotOk(s.halfedges, s.edges[e].slot0, e, base) && SlotOk(s.halfedges, s.edges[e].slot1, e, base);
      if s.edges[e].slot0.Some? {
        assert cycled[s.edges[e].slot0.value] == s.halfedges[s.edges[e].slot0.value];
      }
      if s.edges[e].slot1.Some? {
        assert cycled[s.edges[e].slot1.value] == s.halfedges[s.edges[e].slot1.value];
      }
    }
    LinkedSlots(cycled, s.edges, s.edgeMap, vis, base, 3);
  }

  /** After `addFace` the faces still own consecutive triples of half-edges linked into 3-cycles. */
  lemma WithFaceCycles(s: MeshState, vis: seq<nat>)
    requires Cycles(s) && FaceFits(s, vis)
    ensures Cycles(WithFace(s, vis))
  {
    var t := WithFace(s, vis);
    var base := |s.halfedges|;
    WithFaceHalfEdges(s, vis);
    WithFaceRecords(s, vis);
    forall h | 0 <= h < |t.halfedges|
      ensures t.halfedges[h].next == NextInCycle(h) && t.halfedges[h].prev == PrevInCycle(h)
    {
      if h < base {
        assert t.halfedges[h] == s.halfedges[h];
      }
    }
  }

  /** After `addFace` ids are still dense and the edge index still names one edge per key. */
  lemma WithFaceIndex(s: MeshState, vis: seq<nat>)
    requires Valid(s) && FaceFits(s, vis)
    ensures var t := WithFace(s, vis);
            ArraysSized(t) && IdsDense(t) && EdgeIndex(t)
  {
    var base := |s.halfedges|;
    WithFaceRecords(s, vis);
    LinkedIndex(Cycled(Corners(s.halfedges, Targets(s, vis), 3), base, 3), s.edges, s.edgeMap, vis, base, 3);
  }

  /** `addFace` keeps every invariant of the mesh. */
  lemma WithFaceValid(s: MeshState, vis: seq<nat>)
    requires Valid(s) && FaceFits(s, vis)
    ensures Valid(WithFace(s, vis))
  {
    WithFaceCycles(s, vis);
    WithFaceIndex(s, vis);
    WithFacePointers(s, vis);
    WithFaceHalfEdgesLinked(s, vis);
    WithFaceEdgesLinked(s, vis);
  }

  /** An old half-edge keeps its key and its edge: ids do not change and filed keys keep their edges. */
  lemma WithFaceKeyedOld(s: MeshState, vis: seq<nat>, h: nat)
    requires FaceFits(s, vis) && h < |s.halfedges| && KeyedAt(s, h)
    ensures KeyedAt(WithFace(s, vis), h)
  {
    var t := WithFace(s, vis);
    WithFaceHalfEdges(s, vis);
    WithFaceRecords(s, vis);
    var p := s.halfedges[h].prev;
    assert t.halfedges[h] == s.halfedges[h] && t.halfedges[p] == s.halfedges[p];
    assert t.vertexRecs[s.halfedges[h].vertex].id == s.vertexRecs[s.halfedges[h].vertex].id;
    assert t.vertexRecs[s.halfedges[p].vertex].id == s.vertexRecs[s.halfedges[p].vertex].id;
    assert HalfEdgeKey(t, h) == HalfEdgeKey(s, h);
  }

  /** A new half-edge's key is its corner's key, under which `addFace` filed its edge. */
  lemma WithFaceKeyedNew(s: MeshState, vis: seq<nat>, h: nat)
    requires FaceFits(s, vis) && IdsDense(s) && |s.halfedges| <= h < |s.halfedges| + 3
    ensures KeyedAt(WithFace(s, vis), h)
  {
    var t := WithFace(s, vis);
    var base := |s.halfedges|;
    WithFaceHalfEdges(s, vis);
    WithFaceRecords(s, vis);
    var k := h - base;
    var j := if k == 0 then 2 else k - 1;
    CornerArithmetic(|s.faces|, k);
    assert (k + 2) % 3 == j;
    var p := t.halfedges[h].prev;
    assert p == base + j;
    assert t.halfedges[h].vertex == s.vertices[vis[k]];
    assert t.halfedges[p].vertex == s.vertices[vis[j]];
    assert t.vertexRecs[s.vertices[vis[k]]].id == vis[k];
    assert t.vertexRecs[s.vertices[vis[j]]].id == vis[j];
    assert HalfEdgeKey(t, h) == CornerKey(vis, k);
  }

  /** `addFace` files every half-edge, old and new, under the key of its endpoints' ids. */
  lemma WithFaceKeyed(s: MeshState, vis: seq<nat>)
    requires Valid(s) && FaceFits(s, vis) && Keyed(s)
    ensures Keyed(WithFace(s, vis))
  {
    var t := WithFace(s, vis);
    WithFaceHalfEdges(s, vis);
    forall h | 0 <= h < |t.halfedges|
      ensures KeyedAt(t, h)
    {
      if h < |s.halfedges| {
        WithFaceKeyedOld(s, vis, h);
      } else {
        WithFaceKeyedNew(s, vis, h);
      }
    }
  }

  // ---------------------------------------------------------------------------
  // The numbers the LSCM pass writes

  /**
   * `t` differs from `s` at most in the numbers the LSCM pass writes: edge
   * lengths, half-edge coefficients, vertex indices and uv values.
   */
  ghost predicate SameShape(s: MeshState, t: MeshState)
  {
    && t.points == s.points && |t.uvs| == |s.uvs| && t.normals == s.normals
    && t.vertices == s.vertices && t.faces == s.faces && t.edgeMap == s.edgeMap
    && |t.vertexRecs| == |s.vertexRecs|
    && (forall v :: 0 <= v < |s.vertexRecs| ==> t.vertexRecs[v] == s.vertexRecs[v].(index := t.vertexRecs[v].index))
    && |t.halfedges| == |s.halfedges|
    && (forall h :: 0 <= h < |s.halfedges| ==> t.halfedges[h] == s.halfedges[h].(coefficients := t.halfedges[h].coefficients))
    && |t.edges| == |s.edges|
    && (forall e :: 0 <= e < |s.edges| ==> t.edges[e] == s.edges[e].(squaredLength := t.edges[e].squaredLength))
  }

  /** Writing those numbers keeps every invariant and leaves the same vertices dangling. */
  lemma SameShapeValid(s: MeshState, t: MeshState)
    requires Valid(s) && SameShape(s, t)
    ensures Valid(t)
    ensures forall j :: DanglingAt(t, j) <==> DanglingAt(s, j)
  {
    forall j | 0 <= j < |t.vertices|
      ensures t.vertices[j] < |t.vertexRecs| && t.vertexRecs[t.vertices[j]].id == j
    {
      assert s.vertexRecs[s.vertices[j]].id == j;
    }
    forall h | 0 <= h < |t.halfedges|
      ensures t.vertexRecs[t.halfedges[h].vertex].halfedge.Some?
    {
      assert s.vertexRecs[s.halfedges[h].vertex].halfedge.Some?;
    }
    forall e | 0 <= e < |t.edges|
      ensures t.edges[e].slot0.Some? && SlotOk(t.halfedges, t.edges[e].slot0, e, |t.halfedges|)
      ensures SlotOk(t.halfedges, t.edges[e].slot1, e, |t.halfedges|)
    {
      assert s.edges[e].slot0.Some? && SlotOk(s.halfedges, s.edges[e].slot0, e, |s.halfedges|);
      assert SlotOk(s.halfedges, s.edges[e].slot1, e, |s.halfedges|);
    }
    forall v | 0 <= v < |t.vertexRecs| && t.vertexRecs[v].halfedge.Some?
      ensures t.vertexRecs[v].halfedge.value < |t.halfedges|
    {
      assert s.vertexRecs[v].halfedge.Some?;
    }
    forall j: nat
      ensures DanglingAt(t, j) <==> DanglingAt(s, j)
    {
      if j < |s.vertices| && s.vertices[j] < |s.vertexRecs| {
        assert t.vertexRecs[t.vertices[j]].halfedge == s.vertexRecs[s.vertices[j]].halfedge;
      }
    }
  }
}
