# LSCM half-edge mesh, conformal-map bookkeeping and OBJ reader in Dafny

This project models the core of a Go package that computes Least-Squares
Conformal Map (LSCM) texture coordinates for a triangle mesh. It covers:

- the half-edge mesh: building it from flat buffers, `addFace`/`addEdge`,
  removing dangling vertices, and the boundary pass;
- the bookkeeping of `RunLSCM`: edge lengths, per-half-edge coefficients,
  the free/fixed partition and its indices, the placement of every
  coefficient in the matrices `A` and `B` and of fixed uvs in `f`,
  `r = -B·f`, reading the solution back, and the min/max rescale;
- the Wavefront OBJ reader (`ParseObj` and its line parsers) and the face
  records that `WriteObj` writes;
- the vector primitives of `Point3D`.

The pointer-linked records become one arena:

- The mesh holds a sequence of vertex records addressed by a *handle*, which
  plays the part of a Go pointer and never changes. The mesh's vertex list is
  a sequence of handles.
- Half-edges, faces and edges are sequences indexed by number. Face `f` owns
  half-edges `3f`, `3f+1` and `3f+2`.
- A nil pointer is `None`.
- The point, normal and uv of a vertex live in the mesh's parallel arrays at
  the vertex's `id`, as in mesh.go. The `point`/`uv`/`normal` fields of the
  vertex record in vertex.go are not used.

Each imperative operation exists twice:

- a function on the value `MeshStates.MeshState`, about which the lemmas are
  proved;
- a method of the class `Meshes.Mesh` (mesh.go) or of the module `Lscm`
  (lscm.go), proved to leave the object's `State()` equal to that function of
  the old state.

The same holds outside the mesh:

- obj.go's operations are methods of the module `Obj` (`ParseVertex`,
  `ParseNormal`, `ParseFace`, `ParseObj`, `WriteFace`, `WalkFace`), each
  proved against the text functions of `ObjText` and the steps of `Obj`;
- point.go's `divide` is the class method `Points.PointCell.Divide`, proved
  to leave the receiver at `Points.Quotient` of its old value.

The package's files come from different revisions; the model reconciles
them as follows:

- `Meshes.Mesh.NewMesh` follows mesh.go's five-argument `NewMesh`.
- obj.go's zero-argument `NewMesh()` is the constructor `Meshes.Mesh.Empty`.
- obj.go's `AddVertex` appends a vertex with a zero normal.
- obj.go's `AddFace` is mesh.go's `addFace`.
- lscm.go's `RemoveDanglingVertices` and `UpdateBoundary` are mesh.go's
  `removeDanglingVertices` and `updateBoundary`.
- lscm.go's `v.uv`, edge.go's `v1.point`/`v2.point` and the parser's
  `v.normal` are the entries of the mesh's uv, point and normal arrays at the
  vertex's id.

Modules and files:

| module | file | models |
|---|---|---|
| `Points` | point.dfy | point.go |
| `Topology` | topology.dfy | the records of vertex.go, halfedge.go and edge.go; edge keys |
| `MeshStates` | mesh_state.dfy | the mesh value, `addEdge`, `addFace`, the get/set accessors, `AddVertex` |
| `Construction`, `BuiltMesh` | construction.dfy, built_mesh.dfy | `NewMesh` |
| `Compaction` | compaction.dfy | `removeDanglingVertices` |
| `Boundary` | boundary.dfy | `updateBoundary` and the rotation walk |
| `Meshes` | mesh.dfy | the `Mesh` class with its methods |
| `Lengths` | lengths.dfy | `updateLength` and the coefficient loop |
| `Partition`, `Assembly`, `ReadBack`, `Pipeline` | partition.dfy, assembly.dfy, readback.dfy, pipeline.dfy | the stages of `RunLSCM`, on values |
| `Lscm` | lscm.dfy | `RunLSCM` on the `Mesh` object |
| `ObjText`, `Obj` | obj_text.dfy, obj.dfy | obj.go |

## Model

| member | source | states |
|---|---|---|
| Points.Quotient | point.go:31-35 | each component of the quotient, multiplied back by `v`, gives the original component |
| Points.SquaredNorm | point.go:19-21 | the sum of squares under `norm`'s square root is never negative |
| Points.SubAddInverse | point.go:11-17 | `sub` is undone by componentwise addition: `(a - b) + b == a` |
| Points.SubSelfIsZero | point.go:11-17 | `a.sub(a)` is the zero vector |
| Points.SubAntisymmetric | point.go:11-17 | `a.sub(b)` is the negation of `b.sub(a)` |
| Points.CrossAntisymmetric | point.go:23-29 | `cross(a, b) == -cross(b, a)` and `cross(a, a)` is zero |
| Points.CrossOrthogonal | point.go:23-29 | `cross(a, b)` has zero dot product with both `a` and `b` |
| Points.SquaredDistanceSymmetric | edge.go:16-21 | the squared length `updateLength` takes the root of is the same in both directions and never negative |
| Points.PointCell.constructor | point.go:5-9 | a new point variable holds the given coordinates |
| Points.PointCell.Divide | point.go:31-35 | after `divide(v)`, `v != 0`, the receiver holds the componentwise quotient of its old value; nothing else changes |
| Topology.KeyOf | mesh.go:153 | an edge key is ordered (`v1 <= v2`) and made of exactly the two endpoints |
| Topology.KeyOfSymmetric | mesh.go:153 | both directions of an edge get the same key |
| Topology.KeyOfInjective | mesh.go:153 | two vertex pairs share a key exactly when they are the same unordered pair |
| Topology.CycleLaws | mesh.go:133-136 | in a face's 3-cycle `next(prev(h)) == h`, `prev(next(h)) == h`, three `next` steps return to `h`, and both stay in the face |
| MeshStates.SourceOfNext | halfedge.go:17-23 | on a valid mesh the source of `h.next` is the target of `h`, and the source of `h` is the target of `h.next.next`, so the face cycle is a closed path |
| MeshStates.OtherOnMesh | halfedge.go:13-15 | on a valid mesh `other()` names a half-edge on the same edge, and is nil exactly for the lone slot-0 half-edge of a boundary edge |
| Topology.OtherInvolutive | edge.go:8-14 | on an edge with two distinct half-edges, `other` swaps them, so applying it twice is the identity |
| Topology.OtherOnBoundary | edge.go:8-10 | on an edge whose slot 1 is empty, the slot-0 half-edge has no other |
| Topology.OtherOffSlot0 | edge.go:11-13 | any half-edge not in slot 0, even one not on the edge, gets slot 0 back |
| MeshStates.SetTriple | mesh.go:77-81 | `setPoint`/`setNormal` make `getPoint`/`getNormal` return the new value and change no other number |
| MeshStates.SetPair | mesh.go:104-107 | `setUV` makes `getUV` return the new value and changes no other number |
| MeshStates.SetTripleOthers | mesh.go:77-95 | setting one vertex's point or normal leaves every other vertex's as it was |
| MeshStates.SetPairOthers | mesh.go:104-107 | setting one vertex's uv leaves every other vertex's as it was |
| MeshStates.EmptyStateValid | obj.go:20 | the mesh the reader starts from satisfies every invariant and has no dangling vertex |
| MeshStates.FindOrAddEdge | mesh.go:152-163 | `addEdge` returns the edge filed under the key; a known key changes nothing; a new key appends one edge with empty slots and files it |
| MeshStates.FindOrAddEdgeKeepsIndex | mesh.go:152-163 | edges and edge map grow together: one edge per distinct key, keys ordered, and an edge added exactly when the key is new |
| MeshStates.WithVertexValid | obj.go:153-155 | appending a vertex keeps every invariant and lists it last, with its point, uv, flag, no half-edge and its position as id |
| MeshStates.CornersAt | mesh.go:125-131 | the creating loop keeps the old half-edges and appends one per corner, targeting that corner's vertex |
| MeshStates.LastTargetingIsLast | mesh.go:126-131 | a vertex's half-edge pointer ends at the last new half-edge targeting it, so a later corner or face overwrites an earlier one |
| MeshStates.PointedAt | mesh.go:127-129 | the creating loop changes only vertex half-edge pointers |
| MeshStates.CycledAt | mesh.go:133-136 | corner `i` gets `next = (i+1)%3` and `prev = (i+2)%3`, and nothing else changes |
| MeshStates.Attach | mesh.go:142-146 | the first half-edge attached to an edge fills slot 0 and every later one fills slot 1 |
| MeshStates.LinkCornerHalfEdge | mesh.go:140-148 | one turn of the edge loop changes only corner `k`, which records the edge filed under `{vis[k], vis[(k+2)%3]}` |
| MeshStates.LinkCornerKeys | mesh.go:140-148 | one turn of the edge loop files corner `k`'s key and keeps every older key's edge |
| MeshStates.LinkCornerSlot | mesh.go:140-148 | one turn of the edge loop keeps every edge's slots sound |
| MeshStates.LinkedExtends | mesh.go:140-148 | the edge loop files exactly the corners' keys on top of the old ones |
| MeshStates.LinkedIndex | mesh.go:140-148 | the edge loop keeps one edge per distinct key |
| MeshStates.LinkedHalfEdgeAt | mesh.go:140-148 | after the edge loop each new corner records the edge of its own key, and old half-edges are untouched |
| MeshStates.LinkedSlotAt | mesh.go:140-148 | after the edge loop every edge holds a slot-0 half-edge, and each filled slot names a half-edge on that edge |
| MeshStates.LinkedSlots | mesh.go:140-148 | the edge loop keeps every edge linked to its half-edges |
| MeshStates.CornerArithmetic | mesh.go:134-135 | half-edge `3f+k`'s successor and predecessor are corners `(k+1)%3` and `(k+2)%3` of the same face |
| MeshStates.WithFaceHalfEdgeAt | mesh.go:121-150 | after `addFace`, an old half-edge is untouched, and new half-edge `h` targets its corner's vertex, sits in the 3-cycle and is on its key's edge |
| MeshStates.WithFaceHalfEdges | mesh.go:121-150 | `addFace` appends three half-edges forming a 3-cycle over the given vertices, each on the edge of its key |
| MeshStates.WithFaceRecords | mesh.go:121-150 | `addFace` appends a face holding its first half-edge and files the three corner keys; vertex pointers move to the last new half-edge targeting them; the buffers and vertex list are untouched |
| MeshStates.WithFacePointers | mesh.go:126-131 | after `addFace` every pointer names an existing half-edge, and the face's vertices have one |
| MeshStates.WithFaceHalfEdgesLinked | mesh.go:121-150 | after `addFace` every half-edge targets a listed vertex with a half-edge and lies on an existing edge |
| MeshStates.WithFaceEdgesLinked | mesh.go:140-148 | after `addFace` every edge holds one or two half-edges, each naming the edge back |
| MeshStates.WithFaceCycles | mesh.go:133-138 | after `addFace` every face still owns a consecutive 3-cycle and holds its first half-edge |
| MeshStates.WithFaceIndex | mesh.go:121-150 | `addFace` keeps the buffers sized, ids dense and edges in step with the edge map |
| MeshStates.WithFaceValid | mesh.go:121-150 | `addFace` keeps every invariant of the mesh |
| MeshStates.WithFaceKeyedOld | mesh.go:121-150 | an existing half-edge keeps its key and its edge across `addFace` |
| MeshStates.WithFaceKeyedNew | mesh.go:140-148 | a new half-edge's edge is the one filed under the pair of its source and target ids |
| MeshStates.WithFaceKeyed | mesh.go:121-150 | after `addFace` every half-edge's edge is the one filed under its endpoints' key |
| MeshStates.SameShapeValid | lscm.go:14-61 | writing lengths, coefficients, indices and uvs keeps every invariant and leaves the same vertices dangling |
| Compaction.RemoveAtStep | mesh.go:168-178 | removing a dangling vertex leaves the rest of the loop with the same outcome, re-examining the same position |
| Compaction.RenumberStep | mesh.go:179-181 | renumbering a kept vertex leaves the rest of the loop, from the next position, with the same outcome |
| Compaction.RemoveAtDataAt | mesh.go:169-177 | after a removal, position `i` holds the last vertex's point, normal and uv, and every other position keeps its own |
| Compaction.RemoveAtMembers | mesh.go:170-171 | a removal takes exactly the dangling vertex off the list |
| Compaction.RemoveAtFacts | mesh.go:168-178 | a removal moves the last vertex to `i`, truncates points/uvs/normals by one vertex, carries each vertex's data and touches no topology |
| Compaction.RenumberFacts | mesh.go:180 | the kept branch changes only the id of the vertex at `i`, which becomes `i` |
| Compaction.CompactFromFacts | mesh.go:165-183 | the loop from any position reaches the full outcome of `removeDanglingVertices` |
| Compaction.RemoveStepFacts | mesh.go:168-178 | a removal followed by the rest of the loop reaches the full outcome |
| Compaction.RenumberStepFacts | mesh.go:179-181 | a renumbering followed by the rest of the loop reaches the full outcome |
| Compaction.RenumberKeeps | mesh.go:179-181 | after renumbering position `i`, positions up to `i` are processed, the same vertices are live, and the loop can go on from `i + 1` |
| Compaction.CompactValid | mesh.go:165-183 | afterwards the mesh is valid, no vertex dangles and ids equal positions; the listed vertices are exactly those that had a half-edge, each with its own point, uv and normal; the arrays stay 3n/2n/3n; faces, half-edges and edges are untouched |
| Compaction.CompactFromNothingToDo | mesh.go:165-183 | the loop changes nothing once no vertex dangles and ids equal positions |
| Compaction.CompactIdempotent | mesh.go:165-183 | removing dangling vertices twice is the same as removing them once |
| Boundary.RotateCcw | mesh.go:189-190 | the rotation walk stays on existing half-edges and does not move from a half-edge without a sibling |
| Boundary.RotateCcwStopsAtGap | mesh.go:189-190 | a walk that stops before its bound stops at a half-edge without a sibling |
| Boundary.RotateVertex | mesh.go:189-190 | rotating a vertex keeps every pointer naming an existing half-edge |
| Boundary.BoundaryStep | mesh.go:186-191 | one edge's turn keeps every pointer naming an existing half-edge |
| Boundary.BoundaryUpTo | mesh.go:185-193 | the pass keeps every pointer naming an existing half-edge |
| Boundary.BoundaryEndsMeans | mesh.go:187-190 | the vertices the pass may touch are exactly the target and source of slot 0 of an edge whose slot 1 is empty |
| Boundary.BoundaryStepFrame | mesh.go:187-190 | one edge's turn changes only the pointers of a boundary edge's two ends, never an id, flag or index |
| Boundary.BoundaryUpToStep | mesh.go:186-191 | edge `n-1`'s turn changes vertex `v` only in its pointer, and only if `v` ends that edge and the edge is a boundary edge |
| Boundary.BoundaryPointerOnlyAt | mesh.go:185-193 | the pass changes no id, fixed flag or index |
| Boundary.BoundaryFrameAt | mesh.go:185-193 | the pass leaves alone every vertex that ends no boundary edge |
| Boundary.BoundaryFrame | mesh.go:185-193 | the pass changes only the half-edge pointers of ends of edges whose slot 1 is empty; it sets no other field |
| Boundary.BoundaryKeepsCanonical | mesh.go:185-193 | boundary-end pointers already at a half-edge without a sibling are left where they are |
| Boundary.BoundaryKeepsLinked | mesh.go:185-193 | the pass keeps every id, and which vertices have a half-edge |
| Boundary.UpdateBoundaryValid | mesh.go:185-193 | the pass keeps every invariant and every edge key, and makes no vertex dangle or stop dangling |
| Construction.CheckShape | mesh.go:29-43 | `NewMesh` refuses exactly the five bad shapes, each with its own error, in the order checked; it accepts when none applies |
| Construction.FreshVertices | mesh.go:56-59 | the vertex loop makes record `i` with id `i`, no half-edge, not fixed |
| Construction.InitialValid | mesh.go:44-59 | after the vertex loop the mesh is valid and every vertex dangles |
| Construction.WithFaceBuildable | mesh.go:121-150 | `addFace` changes no buffer, no vertex list, no id and no fixed flag, and appends one face |
| Construction.AddFaces | mesh.go:60-62 | the face loop adds one face per index triple and leaves the buffers and the vertex list alone |
| Construction.AddFacesStep | mesh.go:60-62 | each turn of the face loop is one `addFace` on the next triple |
| Construction.AddFacesNext | mesh.go:60-62 | the next triple always fits the mesh, and the next turn adds it |
| Construction.WithFaceKeys | mesh.go:140-148 | `addFace` files its three corner keys and no other |
| Construction.WithFaceTargets | mesh.go:126-131 | `addFace` keeps the old half-edges and appends three targeting the vertices listed at `vis` |
| Construction.TargetsStep | mesh.go:60-62 | after each turn, new half-edge `h` targets the vertex listed at `indices[h - base]` |
| Construction.KeyedStep | mesh.go:121-150 | one `addFace` keeps a valid mesh keyed |
| Construction.AddFacesKeyedStep | mesh.go:60-62 | each turn of the face loop keeps the mesh valid and keyed |
| Construction.ValidStep | mesh.go:121-150 | one `addFace` keeps a valid mesh valid |
| Construction.RecordsStep | mesh.go:121-150 | one `addFace` changes no id and no fixed flag |
| Construction.MarkFixed | mesh.go:63-65 | the fixed loop changes only vertex records |
| Construction.Build | mesh.go:28-67 | `NewMesh` fails exactly when a size check fails, with that check's error |
| Construction.MarkFixedMeans | mesh.go:63-65 | after the loop over the first `k` fixed indices a vertex is fixed iff it was or is listed among them; only the flag changes |
| Construction.MarkFixedValid | mesh.go:63-65 | fixed flags change no invariant, no key and no dangling vertex |
| Construction.MarkFixedFlagsOnly | mesh.go:63-65 | the fixed loop changes every record, listed or not, in its fixed flag alone |
| Construction.FlagsOnlyValid | mesh.go:63-65 | a mesh differing from a valid, keyed one only in fixed flags is valid and keyed, with the same vertices dangling |
| Construction.MarkFixedOnlyListed | mesh.go:63-65 | the fixed loop touches only listed vertices |
| Construction.Faced | mesh.go:56-62 | the vertex and face loops give one vertex per point triple |
| Construction.MarkFixedExactly | mesh.go:63-65 | vertex `i` is fixed exactly when `i` occurs in `fixedIndices` |
| BuiltMesh.AddFacesRecords | mesh.go:60-62 | the face loop changes no id and no fixed flag |
| BuiltMesh.RecordsTurn | mesh.go:60-62 | turn `k` of the face loop, like the turns before it, changes no id and no fixed flag |
| BuiltMesh.AddFacesTargets | mesh.go:60-62 | after the face loop, half-edge `base + h` targets the vertex listed at `indices[h]` |
| BuiltMesh.TargetsTurn | mesh.go:60-62 | turn `k` appends three half-edges targeting triple `k-1`, after those of earlier turns |
| BuiltMesh.AddFacesKeys | mesh.go:60-62 | the face loop files exactly the corner keys of the faces it adds |
| BuiltMesh.KeysStep | mesh.go:60-62 | turn `k` files the corner keys of face `k-1` on top of the earlier ones |
| BuiltMesh.AddFacesKeyed | mesh.go:60-62 | the face loop keeps a valid mesh valid and every half-edge keyed |
| BuiltMesh.KeyedFromFirst | mesh.go:60-62 | from the first turn on, each turn keeps the mesh valid and keyed |
| BuiltMesh.FacedVertices | mesh.go:44-62 | vertex `i` is listed at `i` with id `i` and is not fixed; there is one face per triple; half-edge `h` targets vertex `indices[h]`; the buffers are those given |
| BuiltMesh.FacedEdges | mesh.go:60-62 | the built mesh is valid and keyed, and it has one edge per distinct unordered triangle side |
| BuiltMesh.BuildShape | mesh.go:28-67 | on success: `len(points)/3` vertices with id = position; one face per triple; half-edge `h` targets `indices[h]`; vertex `i` fixed iff `i` is a fixed index; one edge per distinct side; the mesh is valid |
| Meshes.Mesh.Empty | obj.go:20 | a new empty mesh |
| Meshes.Mesh.Init | mesh.go:47-59 | the mesh's arrays hold copies of the buffers' contents, and there is one fresh vertex per point triple |
| Meshes.Mesh.SetPoint | mesh.go:77-81 | after `setPoint(vi, p)`, `getPoint(vi) == p`; no other number or field changes |
| Meshes.Mesh.SetNormal | mesh.go:91-95 | after `setNormal(vi, n)`, `getNormal(vi) == n`; no other number or field changes |
| Meshes.Mesh.SetUV | mesh.go:104-107 | after `setUV(vi, uv)`, `getUV(vi) == uv`; no other number or field changes |
| Meshes.Mesh.AddVertex | obj.go:153-155 | the mesh gains one vertex with the given point, flag and uv, as `MeshStates.WithVertex` |
| Meshes.Mesh.AddEdge | mesh.go:152-163 | the edges, edge map and returned edge are those of `FindOrAddEdge` on the unordered key |
| Meshes.Mesh.CreateCorners | mesh.go:125-131 | the creating loop, as `Corners` and `Pointed` |
| Meshes.Mesh.LinkCycle | mesh.go:133-136 | the linking loop, as `Cycled` |
| Meshes.Mesh.LinkEdges | mesh.go:140-148 | the edge loop, as `Linked` |
| Meshes.Mesh.AddFace | mesh.go:121-150 | the new state is `WithFace` of the old state, and the returned face holds its first half-edge |
| Meshes.Mesh.AddFaces | mesh.go:60-62 | the face loop's state is `Construction.AddFaces` |
| Meshes.Mesh.MarkFixed | mesh.go:63-65 | the fixed loop's state is `Construction.MarkFixed` |
| Meshes.Mesh.NewMesh | mesh.go:28-67 | returns exactly `Build`'s error, or a fresh mesh whose state is `Build`'s mesh, with the properties of `BuiltMesh.BuildShape` |
| Meshes.Mesh.RemoveAt | mesh.go:169-178 | the removing branch, as `Compaction.RemoveAt` |
| Meshes.Mesh.RemoveDanglingVertices | mesh.go:165-183 | the state afterwards is `Compaction.Compact` of the old state, with the properties of `Compaction.CompactValid` |
| Meshes.Mesh.RotateCcwAboutTarget | mesh.go:189-190 | the vertex's pointer moves to the end of the bounded rotation walk |
| Meshes.Mesh.BoundaryEdge | mesh.go:186-191 | one turn of the pass, as `Boundary.BoundaryStep` |
| Meshes.Mesh.UpdateBoundary | mesh.go:185-193 | the state afterwards is `Boundary.UpdateBoundary` of the old state, with the properties of `Boundary.UpdateBoundaryValid` |
| Lengths.EdgeSquaredLengthSymmetric | edge.go:16-21 | an edge's cached squared length is the squared distance between its slot-0 target and source, in either order, and never negative |
| Lengths.ValidLengthDefined | edge.go:16-21 | every edge of a valid mesh can be measured |
| Lengths.WithLengthsShape | lscm.go:14-16 | the length loop gives every edge its squared length and changes nothing else |
| Lengths.CoefficientsUpToShape | lscm.go:17-44 | the coefficient loop writes only coefficients; half-edge `3f+i` gets coefficient `i` of its own face's edge lengths |
| Partition.SelectMembers | lscm.go:47-55 | a vertex is in the free (fixed) list exactly when it is listed and its flag is unset (set) |
| Partition.SelectAppend | lscm.go:47-55 | the lists keep mesh order |
| Partition.SelectSplits | lscm.go:47-55 | every listed vertex lands in exactly one of the two lists |
| Partition.SelectDistinct | lscm.go:47-55 | a list without repeats yields lists without repeats |
| Partition.NumberedMeans | lscm.go:56-61 | the `i`-th vertex of a list gets index `i`; nothing else changes, and vertices off the list are untouched |
| Partition.NumberingFacts | lscm.go:46-61 | after both loops every vertex keeps its flag, and its index is its position in its own list, below that list's length |
| Assembly.Zeros | lscm.go:70-72 | `NewDense` and `NewVecDense` give matrices of the requested shape |
| Assembly.BlockAt | lscm.go:79-82 | a block writes `cx` at `(fid, vid)` and `(F+fid, N+vid)`, `-cy` at `(fid, N+vid)`, `cy` at `(F+fid, vid)`, and nothing else |
| Assembly.Empty | lscm.go:70-72 | `A` is 2F×2U, `B` is 2F×2P and `f` has 2P entries |
| Assembly.CornerStep | lscm.go:76-90 | handling one half-edge keeps the system's shape |
| Assembly.Assembled | lscm.go:73-93 | the system keeps its shape through the whole loop |
| Assembly.CornerStepPlaces | lscm.go:76-90 | half-edge `he`'s coefficient is placed for vertex `he.next.target()`: its block in `A` if that vertex is free, in `B` with its uv in `f` if fixed |
| Assembly.ColumnsDiffer | lscm.go:76 | in a face with three distinct vertices, different half-edges write different vertices' columns |
| Assembly.FreeStepKeeps | lscm.go:78-82 | a free vertex's block leaves every other half-edge's entries alone |
| Assembly.FixedStepKeeps | lscm.go:83-90 | a fixed vertex's block and uv leave every other half-edge's entries alone |
| Assembly.CornerStepKeeps | lscm.go:76-90 | handling one half-edge leaves another half-edge's placed block in place |
| Assembly.AssembledPlaces | lscm.go:73-93 | after the loop, every half-edge of a face with three distinct vertices has its block in `A` or `B`, and each fixed vertex its uv in `f` |
| Assembly.NegMulVec | lscm.go:94-96 | `r` has one entry per row of `B` |
| Assembly.ResidualMeans | lscm.go:94-100 | `x` solves `A·x = -B·f` exactly when `[A B]·[x; f] = 0` |
| ReadBack.FoldMin | lscm.go:106-117 | the running minimum, seeded at 0, is never above 0 |
| ReadBack.FoldMax | lscm.go:106-117 | the running maximum, seeded at 0, is never below 0 |
| ReadBack.FoldBounds | lscm.go:108-117 | every read-back value lies between the running minimum and maximum |
| ReadBack.FoldMinAttained | lscm.go:113-114 | the minimum is the seed 0 or one of the values |
| ReadBack.FoldMaxAttained | lscm.go:115-116 | the maximum is the seed 0 or one of the values |
| ReadBack.FoldPrefix | lscm.go:113-116 | each turn takes the minimum and maximum with the new value |
| ReadBack.ReadBackAt | lscm.go:108-112 | free vertex `i` gets uv `(x[i], x[U+i])`; the uv of every other id, including every fixed vertex's, is unchanged |
| ReadBack.ScaleUnit | lscm.go:119-124 | on an axis with `max > min`, a value in the range maps into `[0, 1]`, `min` to 0 and `max` to 1 |
| ReadBack.RescaledPair | lscm.go:119-124 | every vertex's uv, fixed ones included, is mapped to `(uv - min) / (max - min)` |
| ReadBack.RescaledStep | lscm.go:119-124 | each turn rescales one vertex from its unscaled value |
| ReadBack.FreeUvsInUnitSquare | lscm.go:105-124 | after read-back and rescale, each free vertex's uv is its rescaled solution and lies in `[0, 1]²` |
| Pipeline.Measured | lscm.go:10-16 | compaction, the boundary pass and edge lengths leave a valid mesh whose faces sit on edges |
| Pipeline.Coefficiented | lscm.go:17-44 | setting coefficients keeps the mesh valid and changes only coefficients |
| Pipeline.NumberingMeans | lscm.go:56-61 | numbering changes only indices; every listed vertex is found in its own list at its index |
| Pipeline.NumberedAssemblable | lscm.go:73-93 | after numbering, every half-edge's column vertex has an index fitting its own list |
| Pipeline.NumberedReadable | lscm.go:108-112 | after numbering, every free vertex has its own uv pair to be written |
| Pipeline.Prepared | lscm.go:10-44 | the mesh before the partition is valid |
| Pipeline.SystemOf | lscm.go:66-93 | the assembled system is 2F×2U, 2F×2P and 2P |
| Pipeline.FinishFreeAt | lscm.go:105-124 | free vertex `i` ends at its rescaled solution `(x[i], x[U+i])`, inside the unit square |
| Pipeline.FinishFixedAt | lscm.go:118-124 | a fixed vertex's uv is rescaled from its own value, never overwritten by the solution |
| Pipeline.FinishMeans | lscm.go:105-124 | read-back and rescale change only uvs: free vertices land at their rescaled solutions inside the unit square, and fixed ones are rescaled from their own uvs |
| Pipeline.PreparedKeeps | lscm.go:10-44 | the stages before the partition keep compaction's vertex list, uvs and fixed flags |
| Pipeline.FixedListCount | lscm.go:46-64 | the fixed list holds each fixed vertex that survives compaction once |
| Pipeline.FreeListCount | lscm.go:46-64 | the free list holds each free vertex that survives compaction once |
| Pipeline.RunFailsWhen | lscm.go:62-70 | too few fixed vertices is reported exactly when fewer than two fixed vertices survive; otherwise the zero-width `mat.NewDense` panic happens exactly when no free vertex survives |
| Pipeline.RunOutcome | lscm.go:9-127 | `RunLSCM` keeps the mesh valid; it fails for too few fixed vertices exactly when fewer than two fixed vertices survive compaction, and otherwise panics in `mat.NewDense` exactly when no free vertex survives; every failure comes after assigning indices and with no uv changed; on success every free vertex's uv lies in the unit square |
| Pipeline.FinishFreeInSquare | lscm.go:105-124 | after read-back and rescale, every listed free vertex's uv lies in the unit square |
| Lscm.UpdateLength | edge.go:16-21 | the edge caches the squared distance between its slot-0 source and target; nothing else changes |
| Lscm.UpdateLengths | lscm.go:14-16 | the state afterwards is `Lengths.WithLengths`: every edge measured |
| Lscm.ReadFaceLengths | lscm.go:18-23 | returns the lengths of the face's three edges in `next` order |
| Lscm.WriteFaceCoefficients | lscm.go:36-43 | the face's three half-edges, in `next` order, get the three coefficients; nothing else changes |
| Lscm.SetCoefficients | lscm.go:17-44 | every face's half-edges get their coefficients from the face's edge lengths, as `CoefficientsUpTo` |
| Lscm.PartitionVertices | lscm.go:46-55 | returns the free list and the fixed list, each in mesh order |
| Lscm.NumberVertices | lscm.go:56-61 | gives each vertex of the list its position as index, as `Numbered` |
| Lscm.AssembleCorner | lscm.go:76-90 | writes one half-edge's block, and a fixed vertex's uv, as `CornerStep` |
| Lscm.AssembleNext | lscm.go:75-92 | one turn of the inner loop advances the system by one half-edge and moves to the face's next half-edge |
| Lscm.AssembleFace | lscm.go:74-92 | the inner loop advances the system by the face's three half-edges |
| Lscm.Assemble | lscm.go:66-93 | returns the system after every half-edge, as `Assembled` |
| Lscm.ReadBackUVs | lscm.go:106-117 | free vertex `i` gets `(x[i], x[U+i])`, and the returned box is the running min and max seeded at `(0, 0)` |
| Lscm.Rescale | lscm.go:118-124 | every vertex's uv is rescaled, as `RescaledUpTo` |
| Lscm.Measure | lscm.go:10-16 | the state afterwards is `Pipeline.Measured` |
| Lscm.Prepare | lscm.go:10-44 | the state afterwards is `Pipeline.Prepared` |
| Lscm.SplitAndNumber | lscm.go:46-61 | returns the two lists and numbers each vertex within its own list |
| Lscm.Finish | lscm.go:105-124 | the state afterwards is `Pipeline.Finish`, with the properties of `Pipeline.FinishMeans` |
| Lscm.RunLSCM | lscm.go:9-127 | the state and error afterwards are `Pipeline.Run`'s, with the properties of `Pipeline.RunOutcome` |
| ObjText.Cut | obj.go:26 | a found separator splits the text into two parts one character shorter in all; otherwise the whole text comes back |
| ObjText.CutSplits | obj.go:26 | a found separator splits at its first occurrence; a missing one does not occur |
| ObjText.CutAt | obj.go:26 | the text splits at the first separator |
| ObjText.CutNone | obj.go:26 | without a separator, `Cut` returns the whole text and reports failure |
| ObjText.CutPrefix | obj.go:138 | `CutPrefix` succeeds exactly when the text starts with the prefix, and returns the rest |
| ObjText.DecimalDigits | obj.go:190 | `%d` of a natural number is one or more digits whose value is the number |
| ObjText.AtoiDecimalInt | obj.go:72-83 | `Atoi` reads back what `%d` wrote, for every 64-bit integer |
| ObjText.AtoiNegative | obj.go:72-83 | a negative number reads back through its minus sign |
| ObjText.AtoiNatural | obj.go:72-83 | a natural number reads back from its digits |
| ObjText.AtoiMinus | obj.go:72-83 | a minus sign followed by digits reads as the negated value when it fits Go's `int` |
| ObjText.DecimalIntPlain | obj.go:190 | `%d` writes no space, slash or newline |
| ObjText.LineSplits | obj.go:26-33 | a line `t args` followed by a newline is read as one line of type `t` with arguments `args` |
| ObjText.FaceTokens | obj.go:60-71 | `parseFace` reads only the first three tokens, cuts each at its first `/` and makes it 0-based |
| ObjText.LastToken | obj.go:70-71 | the third token runs to the end of the line or to the next space |
| ObjText.FaceNeedsSpaces | obj.go:60-68 | `parseFace` fails when no space follows the first token, or the second |
| ObjText.FaceRecordStep | obj.go:188-197 | each turn of the record loop appends one record |
| ObjText.TokenPlain | obj.go:190 | a `k/k/k` token holds no space or newline, and cuts at `/` to `k` |
| ObjText.RecordsSnoc | obj.go:188-197 | writing one more id appends its 1-based record |
| ObjText.RecordsOfThree | obj.go:188-197 | the records of a triangle are its three tokens, each followed by a space |
| ObjText.ReadTokens | obj.go:60-84 | three tokens, each followed by a space, hold no newline and read back as their digits |
| ObjText.ReadRecords | obj.go:60-84 | `parseFace` on three records reads back their numbers minus one |
| ObjText.RecordsReadBack | obj.go:183-201 | the records of three ids, each written 1-based, read back as those ids |
| Obj.VertexStep | obj.go:117-158 | a vertex line adds exactly one vertex and keeps the mesh well-formed |
| Obj.NormalStep | obj.go:88-115 | a normal line keeps the mesh well-formed |
| Obj.FaceStep | obj.go:55-86 | a face line adds exactly one face and keeps the mesh well-formed |
| Obj.LineStep | obj.go:30-50 | any accepted line keeps the mesh well-formed |
| Obj.ParseFrom | obj.go:25-51 | a successful read gives a well-formed mesh |
| Obj.TailIgnored | obj.go:25-29 | text after the last newline is never processed |
| Obj.LineWithoutSpaceFails | obj.go:30-33 | a processed line without a space, including an empty line, stops the reader with an error |
| Obj.OtherLineSkipped | obj.go:34-50 | a line of any type but `v`, `vn` and `f` changes neither the mesh nor the counter |
| Obj.NormalLineWrites | obj.go:39-43 | a `vn` line writes the normal of the vertex the counter names, and only that one, then advances the counter; with no such vertex it panics |
| Obj.FixedVertexLine | obj.go:138-153 | a vertex line ending in `fix u v` gives a fixed vertex with uv `(u, v)` |
| Obj.FreeVertexLine | obj.go:154-155 | a vertex line without a `fix ` suffix gives a free vertex with uv `(0, 0)` |
| Obj.VertexNeedsSpaces | obj.go:121-127 | `parseVertex` fails when no space follows the x coordinate, or the y coordinate, before any number is parsed |
| Obj.FixNeedsSpace | obj.go:140-143 | a `fix` suffix whose two numbers have no space between them is an error |
| Obj.FaceIdsAt | obj.go:183-197 | the face's records come from half-edges `3f`, `3f+1`, `3f+2`, starting at `face.halfedge`, with the ids of their targets |
| Obj.FaceCorner | obj.go:187-197 | from `face.halfedge`, `next` goes once round the face and back to the start |
| Obj.FaceLineRoundTrip | obj.go:183-201 | a written face line is read as one `f` line, and `parseFace` adds the face over the same vertices |
| Obj.FaceLineCuts | obj.go:26-33 | a face line is cut at its newline, and its type is `f` |
| Obj.FaceLineStep | obj.go:44-47 | a line of type `f` goes to `parseFace` alone and leaves the `vn` counter as it is |
| Obj.ParseVertex | obj.go:117-158 | the mesh is `VertexStep`'s, or unchanged with the error |
| Obj.ParseNormal | obj.go:88-115 | the mesh is `NormalStep`'s, or unchanged with the error |
| Obj.ParseFace | obj.go:55-86 | the mesh is `FaceStep`'s, or unchanged with the error |
| Obj.FaceStepAdds | obj.go:84 | a face line whose indices name existing vertices adds that face by `addFace` |
| Obj.ParseObj | obj.go:19-53 | returns a new mesh whose state is `Parsed`, or exactly `Parsed`'s error |
| Obj.WriteFace | obj.go:183-201 | writes `f `, one `k/k/k ` record per half-edge from `face.halfedge` in `next` order with `k = id + 1`, and a newline |
| Obj.WalkFace | obj.go:187-197 | walking `next` from a face's first half-edge writes the records of its three ids in cycle order and stops exactly when back at the start |

## Left out

- The least-squares solve `smat.Solve` (lscm.go:99-103) comes from a foreign library. It is a function parameter `Solver` that returns a solution or a failure. `SolverSized` assumes a solution has `2U` entries, the size of the `2U×1` result matrix.
- The coefficient computation (lscm.go:24-43) uses `acos`, `cos`, `sin`, `sqrt` and `norm` (point.go:19-21). It is a function parameter `CoefficientRule` from the face's three cached edge lengths to its three coefficients.
- `updateLength` (edge.go:16-21) caches the squared length. The square root is not modelled, so the rule receives squared lengths and can take the roots itself.
- `strconv.ParseFloat` is a function parameter `FloatParser`.
- The `v`, `vt` and `vn` loops of `WriteObj` (obj.go:165-182) format with `%f`, and are not modelled.
- `WriteObj`'s `io.Writer` errors are not modelled. `WriteFace` returns the text of one face line.
- `float32` and `float64` values are reals. Rounding, NaN and infinities are not modelled.
- ReadBack.Scale: on an axis where `max == min`, Go divides by zero and gets NaN or an infinity. The model leaves that axis's value as it is. `ReadBack.FreeUvsInUnitSquare` relies on this only in the case where every free value on that axis is 0.
- Points.Quotient and Points.PointCell.Divide require `v != 0`. Go would produce infinities or NaN.
- `rotateCcwAboutTarget` is called (mesh.go:189-190) but not defined in the package files this model follows. `Boundary.RotateCcw` models it as a walk to `other().prev` while `other()` exists, bounded by the number of half-edges. Nothing is claimed about termination or orientation beyond that bound.
- Panics on out-of-range indices in `NewMesh`'s face and fixed loops (mesh.go:60-65) are the precondition `IndicesFit`.
- `removeDanglingVertices` copies normals without a check (mesh.go:174). With nil normals and a dangling vertex it panics. `Compaction.CompactPre` and `Pipeline.Runnable` require a normal per vertex whenever a vertex dangles.
- gonum's `mat.NewDense` panics on a zero dimension. At lscm.go:70 this happens when no free vertex survives, and the model returns the error value `ZeroLengthPanic` there. The row count `2 * fn` is not checked: once two fixed vertices survive, each has a half-edge and so a face.
- In the reader, a `vn` line naming no vertex (obj.go:101) and a face index naming no vertex (obj.go:84) panic. These are the error value `IndexPanic`.
- Obj.ParseNormal: on a number error, Go has already written the components parsed before it. The model leaves the mesh unchanged. `ParseObj` discards the mesh on any error, so the difference cannot be observed.
- Assembly.AssembledPlaces proves the placement only for faces with three distinct vertices. In a degenerate face, later `Set` calls overwrite earlier ones, and the model does not state which value survives.
- Obj.FaceLineRoundTrip requires every id plus one to fit in Go's 64-bit `int`. Beyond that, `Atoi` fails.
- Meshes.Mesh.NewMesh copies the contents of `points`, `uvs` and `normals` into the mesh's own sequences. In Go the mesh keeps the caller's slices (mesh.go:47-50), so the uv writes of `RunLSCM` and the moves of `removeDanglingVertices` (mesh.go:173-177) also change the caller's arrays. The model does not update the caller's arrays. The results are read from the object's `points`, `uvs` and `normals` fields.
- `GetPoints`, `GetNormals` and `GetUVs` (mesh.go:109-119) only return a field. Their values are the class's fields.
- The vertex fields `boundary`, `valence`, `father` and `touched`, and `HalfEdge.angle`, are never read by the modelled code and are not represented. The `point`, `uv` and `normal` fields of vertex.go are the mesh's parallel arrays.
- The `face` type is used but not defined in the package files this model follows. It is a record holding its first half-edge.
- demo/main.go is a command-line harness with file I/O and is not part of this model.
