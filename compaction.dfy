/**
 * `removeDanglingVertices` (mesh.go) on the mesh state: the loop walks the
 * vertex list; a vertex without a half-edge is overwritten by the last one,
 * whose point, normal and uv are copied into its place before all four
 * arrays are cut by one vertex, and the same position is looked at again;
 * any other vertex gets its position as its id.
 */
module Compaction {
  import opened Wrappers
  import opened Points
  import opened Topology
  import opened MeshStates

  /** Every listed handle names a record. */
  ghost predicate HandlesInRange(s: MeshState)
  {
    forall j :: 0 <= j < |s.vertices| ==> s.vertices[j] < |s.vertexRecs|
  }

  /** No handle is listed twice. */
  ghost predicate Distinct(vs: seq<nat>)
  {
    forall j, k :: 0 <= j < k < |vs| ==> vs[j] != vs[k]
  }

  /** Every listed vertex from position `i` on has a half-edge. */
  ghost predicate NoDanglingFrom(s: MeshState, i: nat)
    requires HandlesInRange(s)
  {
    forall j :: i <= j < |s.vertices| ==> s.vertexRecs[s.vertices[j]].halfedge.Some?
  }

  /**
   * What the loop needs at position `i`: sized point and uv arrays, handles in
   * range, and a normal array long enough to copy from whenever a dangling
   * vertex is still ahead (the source indexes `normals` without a check).
   */
  ghost predicate CompactPre(s: MeshState, i: nat)
  {
    && ArraysSized(s)
    && HandlesInRange(s)
    && i <= |s.vertices|
    && (|s.normals| >= 3 * |s.vertices| || NoDanglingFrom(s, i))
  }

  /** The vertices before position `i` have half-edges and ids equal to their positions. */
  ghost predicate Processed(s: MeshState, i: nat)
    requires HandlesInRange(s) && i <= |s.vertices|
  {
    forall j :: 0 <= j < i ==>
      s.vertexRecs[s.vertices[j]].halfedge.Some? && s.vertexRecs[s.vertices[j]].id == j
  }

  /** The dangling branch: the last vertex and its data move to position `i`, and every array loses one vertex. */
  function RemoveAt(s: MeshState, i: nat): MeshState
    requires ArraysSized(s) && i < |s.vertices| && |s.normals| >= 3 * |s.vertices|
  {
    var endi := |s.vertices| - 1;
    s.(vertices := s.vertices[i := s.vertices[endi]][..endi],
       points := SetTriple(s.points, i, Triple(s.points, endi))[..3 * endi],
       normals := SetTriple(s.normals, i, Triple(s.normals, endi))[..3 * endi],
       uvs := SetPair(s.uvs, i, Pair(s.uvs, endi))[..2 * endi])
  }

  /** The other branch: the vertex at position `i` gets id `i`. */
  function Renumber(s: MeshState, i: nat): MeshState
    requires i < |s.vertices| && s.vertices[i] < |s.vertexRecs|
  {
    s.(vertexRecs := s.vertexRecs[s.vertices[i] := s.vertexRecs[s.vertices[i]].(id := i)])
  }

  /** The loop of `removeDanglingVertices` from position `i` on. */
  function CompactFrom(s: MeshState, i: nat): MeshState
    requires CompactPre(s, i)
    decreases |s.vertices| - i
  {
    if i == |s.vertices| then s
    else if s.vertexRecs[s.vertices[i]].halfedge.None? then CompactFrom(RemoveAt(s, i), i)
    else CompactFrom(Renumber(s, i), i + 1)
  }

  /** `removeDanglingVertices`. */
  function Compact(s: MeshState): MeshState
    requires CompactPre(s, 0)
  {
    CompactFrom(s, 0)
  }

  /** The dangling branch: the loop may index the normals, what it needs still holds at `i`, and the rest of the loop is unchanged. */
  lemma RemoveAtStep(s: MeshState, i: nat)
    requires CompactPre(s, i) && i < |s.vertices| && s.vertexRecs[s.vertices[i]].halfedge.None?
    ensures |s.normals| >= 3 * |s.vertices|
    ensures CompactPre(RemoveAt(s, i), i) && CompactFrom(RemoveAt(s, i), i) == CompactFrom(s, i)
  {
  }

  /** The other branch: what the loop needs holds at `i + 1`, and the rest of the loop is unchanged. */
  lemma RenumberStep(s: MeshState, i: nat)
    requires CompactPre(s, i) && i < |s.vertices| && s.vertexRecs[s.vertices[i]].halfedge.Some?
    ensures CompactPre(Renumber(s, i), i + 1) && CompactFrom(Renumber(s, i), i + 1) == CompactFrom(s, i)
  {
  }

  /**
   * Listed vertex `j` of `t` carries the point, uv and (when `s` has a normal
   * per vertex) normal that listed vertex `j'` of `s` had.
   */
  ghost predicate SameData(s: MeshState, j': nat, t: MeshState, j: nat)
  {
    && 3 * j' + 2 < |s.points| && 3 * j + 2 < |t.points| && Triple(t.points, j) == Triple(s.points, j')
    && 2 * j' + 1 < |s.uvs| && 2 * j + 1 < |t.uvs| && Pair(t.uvs, j) == Pair(s.uvs, j')
    && (|s.normals| >= 3 * |s.vertices| ==>
          3 * j' + 2 < |s.normals| && 3 * j + 2 < |t.normals| && Triple(t.normals, j) == Triple(s.normals, j'))
  }

  /** Every vertex listed in `t` carries the data it had in `s`. */
  ghost predicate Carried(s: MeshState, t: MeshState)
  {
    forall j, j' :: 0 <= j < |t.vertices| && 0 <= j' < |s.vertices| && t.vertices[j] == s.vertices[j'] ==>
      SameData(s, j', t, j)
  }

  /** The topology, and every field of every vertex record but its id, are as in `s`. */
  ghost predicate TopologyKept(s: MeshState, t: MeshState)
  {
    && t.halfedges == s.halfedges && t.faces == s.faces && t.edges == s.edges && t.edgeMap == s.edgeMap
    && |t.vertexRecs| == |s.vertexRecs|
    && (forall v :: 0 <= v < |s.vertexRecs| ==> t.vertexRecs[v] == s.vertexRecs[v].(id := t.vertexRecs[v].id))
  }

  /** The dangling branch: position `j` of the result holds the data of the vertex that now sits there. */
  lemma RemoveAtDataAt(s: MeshState, i: nat, j: nat)
    requires ArraysSized(s) && i < |s.vertices| && |s.normals| >= 3 * |s.vertices|
    requires j < |s.vertices| - 1
    ensures SameData(s, if j == i then |s.vertices| - 1 else j, RemoveAt(s, i), j)
  {
    var endi := |s.vertices| - 1;
    if j != i {
      SetTripleOthers(s.points, i, Triple(s.points, endi), j);
      SetTripleOthers(s.normals, i, Triple(s.normals, endi), j);
      SetPairOthers(s.uvs, i, Pair(s.uvs, endi), j);
    }
  }

  /** The dangling branch: the handle at `i` leaves the list and every other listed handle stays. */
  lemma RemoveAtMembers(s: MeshState, i: nat)
    requires ArraysSized(s) && Distinct(s.vertices) && i < |s.vertices| && |s.normals| >= 3 * |s.vertices|
    ensures forall v :: v in RemoveAt(s, i).vertices <==> v in s.vertices && v != s.vertices[i]
  {
    var t := RemoveAt(s, i);
    var endi := |s.vertices| - 1;
    forall v
      ensures v in t.vertices <==> v in s.vertices && v != s.vertices[i]
    {
      if v in s.vertices && v != s.vertices[i] {
        var j :| 0 <= j < |s.vertices| && s.vertices[j] == v;
        if j == endi {
          assert t.vertices[i] == v;
        } else {
          assert t.vertices[j] == v;
        }
      }
    }
  }

  /** The dangling branch: what moves where, and that the handle at `i` leaves the list. */
  lemma RemoveAtFacts(s: MeshState, i: nat)
    requires ArraysSized(s) && HandlesInRange(s) && Distinct(s.vertices)
    requires i < |s.vertices| && |s.normals| >= 3 * |s.vertices|
    ensures var t := RemoveAt(s, i);
            var endi := |s.vertices| - 1;
            && |t.vertices| == endi && ArraysSized(t) && HandlesInRange(t) && Distinct(t.vertices)
            && |t.normals| == 3 * |t.vertices|
            && (forall j :: 0 <= j < endi ==> t.vertices[j] == (if j == i then s.vertices[endi] else s.vertices[j]))
            && (forall v :: v in t.vertices <==> v in s.vertices && v != s.vertices[i])
            && Carried(s, t)
            && TopologyKept(s, t) && t.vertexRecs == s.vertexRecs
  {
    var t := RemoveAt(s, i);
    var endi := |s.vertices| - 1;
    RemoveAtMembers(s, i);
    forall j, j' | 0 <= j < |t.vertices| && 0 <= j' < |s.vertices| && t.vertices[j] == s.vertices[j']
      ensures SameData(s, j', t, j)
    {
      RemoveAtDataAt(s, i, j);
      assert j' == if j == i then endi else j;
    }
  }

  /** The other branch: only the id of the vertex at `i` changes. */
  lemma RenumberFacts(s: MeshState, i: nat)
    requires ArraysSized(s) && HandlesInRange(s) && Distinct(s.vertices) && i < |s.vertices|
    ensures var t := Renumber(s, i);
            && t.vertices == s.vertices && t.points == s.points && t.uvs == s.uvs && t.normals == s.normals
            && Carried(s, t) && TopologyKept(s, t)
            && t.vertexRecs[s.vertices[i]].id == i
            && (forall j :: 0 <= j < |s.vertices| && j != i ==> t.vertexRecs[s.vertices[j]] == s.vertexRecs[s.vertices[j]])
  {
    var t := Renumber(s, i);
    forall j, j' | 0 <= j < |t.vertices| && 0 <= j' < |s.vertices| && t.vertices[j] == s.vertices[j']
      ensures SameData(s, j', t, j)
    {
      assert j == j';
    }
  }

  /** Keeping the topology composes. */
  lemma TopologyKeptTrans(s: MeshState, m: MeshState, t: MeshState)
    requires TopologyKept(s, m) && TopologyKept(m, t)
    ensures TopologyKept(s, t)
  {
    forall v | 0 <= v < |s.vertexRecs|
      ensures t.vertexRecs[v] == s.vertexRecs[v].(id := t.vertexRecs[v].id)
    {
      assert m.vertexRecs[v] == s.vertexRecs[v].(id := m.vertexRecs[v].id);
    }
  }

  /** Carrying data composes when every vertex of the last state was listed in the middle one. */
  lemma CarriedTrans(s: MeshState, m: MeshState, t: MeshState)
    requires Carried(s, m) && Carried(m, t)
    requires forall v :: v in t.vertices ==> v in m.vertices
    requires |s.normals| >= 3 * |s.vertices| ==> |m.normals| >= 3 * |m.vertices|
    ensures Carried(s, t)
  {
    forall j, j' | 0 <= j < |t.vertices| && 0 <= j' < |s.vertices| && t.vertices[j] == s.vertices[j']
      ensures SameData(s, j', t, j)
    {
      assert t.vertices[j] in m.vertices;
      var k :| 0 <= k < |m.vertices| && m.vertices[k] == t.vertices[j];
      assert SameData(m, k, t, j);
      assert SameData(s, j', m, k);
    }
  }

  /**
   * What the loop achieves from position `i` on: every listed vertex has a
   * half-edge and its position as id, exactly the vertices that had a
   * half-edge stay listed, each with its own data, and nothing else changes.
   */
  ghost predicate CompactOutcome(s: MeshState, t: MeshState)
  {
    && ArraysSized(t) && HandlesInRange(t) && Distinct(t.vertices)
    && Processed(t, |t.vertices|)
    && (|s.normals| >= 3 * |s.vertices| ==> |t.normals| >= 3 * |t.vertices|)
    && (|s.normals| == 3 * |s.vertices| ==> |t.normals| == 3 * |t.vertices|)
    && (forall v :: v in t.vertices <==> v in s.vertices && v < |s.vertexRecs| && s.vertexRecs[v].halfedge.Some?)
    && Carried(s, t)
    && TopologyKept(s, t)
  }

  /** The loop from position `i` on has the outcome above. */
  lemma {:induction false} CompactFromFacts(s: MeshState, i: nat)
    requires CompactPre(s, i) && Distinct(s.vertices) && Processed(s, i)
    ensures CompactOutcome(s, CompactFrom(s, i))
    decreases |s.vertices| - i, 1
  {
    if i == |s.vertices| {
      forall j, j' | 0 <= j < |s.vertices| && 0 <= j' < |s.vertices| && s.vertices[j] == s.vertices[j']
        ensures SameData(s, j', s, j)
      {
        assert j == j';
      }
    } else if s.vertexRecs[s.vertices[i]].halfedge.None? {
      RemoveStepFacts(s, i);
    } else {
      RenumberStepFacts(s, i);
    }
  }

  /** `s` and `m` list the same vertices with half-edges. */
  ghost predicate SameLive(s: MeshState, m: MeshState)
  {
    forall v :: (v in m.vertices && v < |m.vertexRecs| && m.vertexRecs[v].halfedge.Some?) <==>
                (v in s.vertices && v < |s.vertexRecs| && s.vertexRecs[v].halfedge.Some?)
  }

  /** One step of the loop followed by the rest of it has the outcome of the whole. */
  lemma OutcomeCompose(s: MeshState, m: MeshState, t: MeshState)
    requires CompactOutcome(m, t) && Carried(s, m) && TopologyKept(s, m) && SameLive(s, m)
    requires |s.normals| >= 3 * |s.vertices| ==> |m.normals| >= 3 * |m.vertices|
    requires |s.normals| == 3 * |s.vertices| ==> |m.normals| == 3 * |m.vertices|
    ensures CompactOutcome(s, t)
  {
    CarriedTrans(s, m, t);
    TopologyKeptTrans(s, m, t);
  }

  /** A dangling vertex at `i`: removing it, then going on from `i`, has the outcome. */
  lemma {:induction false} RemoveStepFacts(s: MeshState, i: nat)
    requires CompactPre(s, i) && Distinct(s.vertices) && Processed(s, i)
    requires i < |s.vertices| && s.vertexRecs[s.vertices[i]].halfedge.None?
    ensures CompactOutcome(s, CompactFrom(s, i))
    decreases |s.vertices| - i, 0
  {
    var m := RemoveAt(s, i);
    RemoveAtFacts(s, i);
    assert Processed(m, i) by {
      forall j | 0 <= j < i
        ensures m.vertexRecs[m.vertices[j]].halfedge.Some? && m.vertexRecs[m.vertices[j]].id == j
      {
        assert m.vertices[j] == s.vertices[j];
      }
    }
    CompactFromFacts(m, i);
    OutcomeCompose(s, m, CompactFrom(m, i));
  }

  /** A vertex with a half-edge at `i`: renumbering it, then going on from `i + 1`, has the outcome. */
  lemma {:induction false} RenumberStepFacts(s: MeshState, i: nat)
    requires CompactPre(s, i) && Distinct(s.vertices) && Processed(s, i)
    requires i < |s.vertices| && s.vertexRecs[s.vertices[i]].halfedge.Some?
    ensures CompactOutcome(s, CompactFrom(s, i))
    decreases |s.vertices| - i, 0
  {
    var m := Renumber(s, i);
    RenumberFacts(s, i);
    RenumberKeeps(s, i);
    CompactFromFacts(m, i + 1);
    OutcomeCompose(s, m, CompactFrom(m, i + 1));
  }

  /** Renumbering a vertex with a half-edge at `i` leaves the loop ready to go on from `i + 1`, with the same vertices live. */
  lemma RenumberKeeps(s: MeshState, i: nat)
    requires CompactPre(s, i) && Distinct(s.vertices) && Processed(s, i)
    requires i < |s.vertices| && s.vertexRecs[s.vertices[i]].halfedge.Some?
    ensures var m := Renumber(s, i);
            Processed(m, i + 1) && SameLive(s, m) && CompactPre(m, i + 1) && Distinct(m.vertices)
  {
    var m := Renumber(s, i);
    RenumberFacts(s, i);
    assert Processed(m, i + 1) by {
      forall j | 0 <= j < i + 1
        ensures m.vertexRecs[m.vertices[j]].halfedge.Some? && m.vertexRecs[m.vertices[j]].id == j
      {
      }
    }
    assert SameLive(s, m) by {
      assert forall v :: 0 <= v < |s.vertexRecs| ==> m.vertexRecs[v].halfedge == s.vertexRecs[v].halfedge;
    }
  }

  /** Dense ids make the listed handles distinct. */
  lemma DenseIdsDistinct(s: MeshState)
    requires IdsDense(s)
    ensures Distinct(s.vertices)
  {
    forall j, k | 0 <= j < k < |s.vertices|
      ensures s.vertices[j] != s.vertices[k]
    {
      assert s.vertexRecs[s.vertices[j]].id == j && s.vertexRecs[s.vertices[k]].id == k;
    }
  }

  /**
   * `removeDanglingVertices` on a valid mesh: the mesh stays valid, no vertex
   * dangles, the listed vertices are exactly those that had a half-edge, each
   * keeps its point, uv and normal, and faces, half-edges and edges are untouched.
   */
  lemma CompactValid(s: MeshState)
    requires Valid(s) && (|s.normals| >= 3 * |s.vertices| || !HasDangling(s))
    ensures CompactPre(s, 0)
    ensures var t := Compact(s);
            && Valid(t) && !HasDangling(t)
            && (|s.normals| == 3 * |s.vertices| ==> |t.normals| == 3 * |t.vertices|)
            && (forall v :: v in t.vertices <==> v in s.vertices && v < |s.vertexRecs| && s.vertexRecs[v].halfedge.Some?)
            && Carried(s, t)
            && TopologyKept(s, t)
  {
    DenseIdsDistinct(s);
    if !(|s.normals| >= 3 * |s.vertices|) {
      forall j | 0 <= j < |s.vertices|
        ensures s.vertexRecs[s.vertices[j]].halfedge.Some?
      {
        assert !DanglingAt(s, j);
      }
    }
    CompactFromFacts(s, 0);
    var t := Compact(s);
    forall h | 0 <= h < |t.halfedges|
      ensures t.halfedges[h].vertex in t.vertices
    {
      assert s.halfedges[h].vertex in s.vertices;
    }
    assert !HasDangling(t) by {
      forall j | 0 <= j < |t.vertices|
        ensures !DanglingAt(t, j)
      {
      }
    }
  }

  /** The loop from `i` on changes nothing when no vertex from `i` on dangles and their ids are already their positions. */
  lemma {:induction false} CompactFromNothingToDo(s: MeshState, i: nat)
    requires CompactPre(s, i) && NoDanglingFrom(s, i)
    requires forall j :: i <= j < |s.vertices| ==> s.vertexRecs[s.vertices[j]].id == j
    ensures CompactFrom(s, i) == s
    decreases |s.vertices| - i
  {
    if i < |s.vertices| {
      assert Renumber(s, i) == s;
      CompactFromNothingToDo(s, i + 1);
    }
  }

  /** Compacting a valid mesh twice is compacting it once: the result has nothing left to remove or renumber. */
  lemma CompactIdempotent(s: MeshState)
    requires Valid(s) && (|s.normals| >= 3 * |s.vertices| || !HasDangling(s))
    ensures CompactPre(s, 0) && CompactPre(Compact(s), 0) && Compact(Compact(s)) == Compact(s)
  {
    CompactValid(s);
    var t := Compact(s);
    forall j | 0 <= j < |t.vertices|
      ensures t.vertexRecs[t.vertices[j]].halfedge.Some?
    {
      assert !DanglingAt(t, j);
    }
    CompactFromNothingToDo(t, 0);
  }
}
