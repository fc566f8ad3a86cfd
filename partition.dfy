/**
 * The bookkeeping stage of `RunLSCM` (lscm.go:46-64): the mesh's vertices
 * are split into the free list and the fixed list, each in mesh order, and
 * every vertex's `index` is set to its position in its own list.
 */
module Partition {
  import opened Topology
  import Compaction

  /** Every handle of `vs` names a record. */
  ghost predicate HandlesIn(vs: seq<nat>, recs: seq<Vertex>)
  {
    forall j :: 0 <= j < |vs| ==> vs[j] < |recs|
  }

  /** The handles of `vs` whose record's `fixed` flag is `fixed`, in the order of `vs`. */
  function Select(vs: seq<nat>, recs: seq<Vertex>, fixed: bool): (r: seq<nat>)
    requires HandlesIn(vs, recs)
    ensures |r| <= |vs| && HandlesIn(r, recs)
  {
    if vs == [] then []
    else
      var k := |vs| - 1;
      Select(vs[..k], recs, fixed) + (if recs[vs[k]].fixed == fixed then [vs[k]] else [])
  }

  /** A handle is selected exactly when it is listed and its flag matches. */
  lemma {:induction false} SelectMembers(vs: seq<nat>, recs: seq<Vertex>, fixed: bool, v: nat)
    requires HandlesIn(vs, recs)
    ensures v in Select(vs, recs, fixed) <==> v in vs && v < |recs| && recs[v].fixed == fixed
  {
    if vs != [] {
      var k := |vs| - 1;
      SelectMembers(vs[..k], recs, fixed, v);
      assert vs == vs[..k] + [vs[k]];
    }
  }

  /** Selection keeps the order: selecting from a concatenation concatenates the selections. */
  lemma {:induction false} SelectAppend(a: seq<nat>, b: seq<nat>, recs: seq<Vertex>, fixed: bool)
    requires HandlesIn(a, recs) && HandlesIn(b, recs)
    ensures HandlesIn(a + b, recs)
    ensures Select(a + b, recs, fixed) == Select(a, recs, fixed) + Select(b, recs, fixed)
  {
    if b != [] {
      var k := |b| - 1;
      SelectAppend(a, b[..k], recs, fixed);
      assert (a + b)[..|a + b| - 1] == a + b[..k];
      assert (a + b)[|a + b| - 1] == b[k];
      assert Select(a + b, recs, fixed)
          == Select(a + b[..k], recs, fixed) + (if recs[b[k]].fixed == fixed then [b[k]] else []);
    } else {
      assert a + b == a;
    }
  }

  /** Every listed handle lands in exactly one of the two lists. */
  lemma {:induction false} SelectSplits(vs: seq<nat>, recs: seq<Vertex>)
    requires HandlesIn(vs, recs)
    ensures |Select(vs, recs, false)| + |Select(vs, recs, true)| == |vs|
    ensures multiset(Select(vs, recs, false)) + multiset(Select(vs, recs, true)) == multiset(vs)
  {
    if vs != [] {
      var k := |vs| - 1;
      SelectSplits(vs[..k], recs);
      assert vs == vs[..k] + [vs[k]];
      assert multiset(vs) == multiset(vs[..k]) + multiset{vs[k]};
      if recs[vs[k]].fixed {
        assert Select(vs, recs, false) == Select(vs[..k], recs, false);
        assert Select(vs, recs, true) == Select(vs[..k], recs, true) + [vs[k]];
      } else {
        assert Select(vs, recs, false) == Select(vs[..k], recs, false) + [vs[k]];
        assert Select(vs, recs, true) == Select(vs[..k], recs, true);
      }
    }
  }

  /** A list without repeats gives lists without repeats. */
  lemma {:induction false} SelectDistinct(vs: seq<nat>, recs: seq<Vertex>, fixed: bool)
    requires HandlesIn(vs, recs) && Compaction.Distinct(vs)
    ensures Compaction.Distinct(Select(vs, recs, fixed))
  {
    if vs != [] {
      var k := |vs| - 1;
      SelectDistinct(vs[..k], recs, fixed);
      SelectMembers(vs[..k], recs, fixed, vs[k]);
      assert vs[k] !in vs[..k];
    }
  }

  /** The handles on a list. */
  function Members(vs: seq<nat>): set<nat>
  {
    set v | v in vs
  }

  /** A list without repeats has as many elements as its set of members. */
  lemma {:induction false} DistinctCardinality(vs: seq<nat>)
    requires Compaction.Distinct(vs)
    ensures |Members(vs)| == |vs|
  {
    if vs != [] {
      var k := |vs| - 1;
      DistinctCardinality(vs[..k]);
      assert vs[k] !in Members(vs[..k]);
      assert Members(vs) == Members(vs[..k]) + {vs[k]} by {
        assert vs == vs[..k] + [vs[k]];
      }
    }
  }

  /** The records after `vertex.index = i` for the first `k` vertices of `list`. */
  function Numbered(recs: seq<Vertex>, list: seq<nat>, k: nat): (r: seq<Vertex>)
    requires k <= |list| && HandlesIn(list, recs)
    ensures |r| == |recs|
  {
    if k == 0 then recs
    else
      var r := Numbered(recs, list, k - 1);
      r[list[k - 1] := r[list[k - 1]].(index := k - 1)]
  }

  /**
   * Numbering a list without repeats gives its `i`-th vertex index `i`,
   * changes nothing but indices, and leaves vertices off the list alone.
   */
  lemma {:induction false} NumberedMeans(recs: seq<Vertex>, list: seq<nat>, k: nat)
    requires k <= |list| && HandlesIn(list, recs) && Compaction.Distinct(list)
    ensures var r := Numbered(recs, list, k);
            && (forall v :: 0 <= v < |recs| ==> r[v] == recs[v].(index := r[v].index))
            && (forall i :: 0 <= i < k ==> r[list[i]].index == i)
            && (forall v :: 0 <= v < |recs| && v !in list[..k] ==> r[v] == recs[v])
  {
    if k > 0 {
      NumberedMeans(recs, list, k - 1);
      assert list[..k] == list[..k - 1] + [list[k - 1]];
    }
  }

  /**
   * After both numberings every listed vertex keeps its flag, and its index
   * is its position in its own list: a free vertex below `len(vertices)`, a
   * fixed one below `len(fixedVertices)`.
   */
  lemma NumberingFacts(vs: seq<nat>, recs: seq<Vertex>)
    requires HandlesIn(vs, recs) && Compaction.Distinct(vs)
    ensures var free, fixed := Select(vs, recs, false), Select(vs, recs, true);
            var r := Numbered(Numbered(recs, free, |free|), fixed, |fixed|);
            && |r| == |recs|
            && (forall v :: 0 <= v < |recs| ==> r[v] == recs[v].(index := r[v].index))
            && (forall v :: v in vs ==>
                  && v < |recs|
                  && (!recs[v].fixed ==> 0 <= r[v].index < |free| && free[r[v].index] == v)
                  && (recs[v].fixed ==> 0 <= r[v].index < |fixed| && fixed[r[v].index] == v))
  {
    var free, fixed := Select(vs, recs, false), Select(vs, recs, true);
    SelectDistinct(vs, recs, false);
    SelectDistinct(vs, recs, true);
    var r1 := Numbered(recs, free, |free|);
    NumberedMeans(recs, free, |free|);
    NumberedMeans(r1, fixed, |fixed|);
    var r := Numbered(r1, fixed, |fixed|);
    assert free[..|free|] == free && fixed[..|fixed|] == fixed;
    forall v | v in vs
      ensures v < |recs|
      ensures !recs[v].fixed ==> 0 <= r[v].index < |free| && free[r[v].index] == v
      ensures recs[v].fixed ==> 0 <= r[v].index < |fixed| && fixed[r[v].index] == v
    {
      SelectMembers(vs, recs, false, v);
      SelectMembers(vs, recs, true, v);
      if recs[v].fixed {
        var i :| 0 <= i < |fixed| && fixed[i] == v;
        assert r[v].index == i;
      } else {
        var i :| 0 <= i < |free| && free[i] == v;
        assert v !in fixed;
        assert r[v] == r1[v];
        assert r1[v].index == i;
      }
    }
  }
}
