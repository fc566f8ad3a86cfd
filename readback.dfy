/**
 * The last stage of `RunLSCM` (lscm.go:105-124). The solution vector `x`
 * (of length `2U`) is read out into the free vertices' uvs. The bounding box
 * of those uvs is tracked from a seed of `(0, 0)`, and then every vertex's uv
 * is mapped by `(uv - min) / (max - min)`.
 */
module ReadBack {
  import opened Points
  import opened Topology
  import opened MeshStates

  function Min(a: real, b: real): real { if a <= b then a else b }
  function Max(a: real, b: real): real { if a >= b then a else b }

  /** The running minimum of lscm.go:113-114, seeded at 0: never above 0. */
  function FoldMin(xs: seq<real>): (r: real)
    ensures r <= 0.0
  {
    if xs == [] then 0.0 else Min(FoldMin(xs[..|xs| - 1]), xs[|xs| - 1])
  }

  /** The running maximum of lscm.go:115-116, seeded at 0: never below 0. */
  function FoldMax(xs: seq<real>): (r: real)
    ensures r >= 0.0
  {
    if xs == [] then 0.0 else Max(FoldMax(xs[..|xs| - 1]), xs[|xs| - 1])
  }

  /** Every value lies between the running minimum and the running maximum. */
  lemma {:induction false} FoldBounds(xs: seq<real>)
    ensures forall j :: 0 <= j < |xs| ==> FoldMin(xs) <= xs[j] <= FoldMax(xs)
  {
    if xs != [] {
      var k := |xs| - 1;
      FoldBounds(xs[..k]);
      forall j | 0 <= j < k
        ensures FoldMin(xs) <= xs[j] <= FoldMax(xs)
      {
        assert xs[..k][j] == xs[j];
      }
    }
  }

  /** The minimum is the seed or one of the values. */
  lemma {:induction false} FoldMinAttained(xs: seq<real>)
    ensures FoldMin(xs) == 0.0 || exists j :: 0 <= j < |xs| && xs[j] == FoldMin(xs)
  {
    if xs != [] {
      var k := |xs| - 1;
      FoldMinAttained(xs[..k]);
      if FoldMin(xs) != xs[k] && FoldMin(xs) != 0.0 {
        var j :| 0 <= j < k && xs[..k][j] == FoldMin(xs[..k]);
        assert xs[j] == FoldMin(xs);
      }
    }
  }

  /** The maximum is the seed or one of the values. */
  lemma {:induction false} FoldMaxAttained(xs: seq<real>)
    ensures FoldMax(xs) == 0.0 || exists j :: 0 <= j < |xs| && xs[j] == FoldMax(xs)
  {
    if xs != [] {
      var k := |xs| - 1;
      FoldMaxAttained(xs[..k]);
      if FoldMax(xs) != xs[k] && FoldMax(xs) != 0.0 {
        var j :| 0 <= j < k && xs[..k][j] == FoldMax(xs[..k]);
        assert xs[j] == FoldMax(xs);
      }
    }
  }

  /** One more value of a prefix extends the running minimum and maximum by that value. */
  lemma FoldPrefix(xs: seq<real>, n: nat)
    requires n < |xs|
    ensures FoldMin(xs[..n + 1]) == Min(FoldMin(xs[..n]), xs[n])
    ensures FoldMax(xs[..n + 1]) == Max(FoldMax(xs[..n]), xs[n])
  {
    assert xs[..n + 1][..n] == xs[..n];
  }

  /** Every vertex of `list` has a uv pair in `uvs`. */
  ghost predicate UvsFor(recs: seq<Vertex>, uvs: seq<real>, list: seq<nat>)
  {
    forall i :: 0 <= i < |list| ==>
      list[i] < |recs| && 0 <= recs[list[i]].id && 2 * recs[list[i]].id + 1 < |uvs|
  }

  /** No two vertices of `list` share an id. */
  ghost predicate IdsApart(recs: seq<Vertex>, list: seq<nat>)
    requires forall i :: 0 <= i < |list| ==> list[i] < |recs|
  {
    forall i, j :: 0 <= i < |list| && 0 <= j < |list| && i != j ==> recs[list[i]].id != recs[list[j]].id
  }

  /** The uvs after free vertex `i` received `(x[i], x[U+i])` for every `i < n` (lscm.go:108-112). */
  function ReadBackUpTo(recs: seq<Vertex>, uvs: seq<real>, free: seq<nat>, x: seq<real>, n: nat): (r: seq<real>)
    requires UvsFor(recs, uvs, free) && |x| == 2 * |free| && n <= |free|
    ensures |r| == |uvs|
  {
    if n == 0 then uvs
    else
      var v := free[n - 1];
      SetPair(ReadBackUpTo(recs, uvs, free, x, n - 1), recs[v].id, Point2(x[n - 1], x[|free| + n - 1]))
  }

  /**
   * After the read-back loop, free vertex `i` has uv `(x[i], x[U+i])`, and the
   * uv of every id held by no free vertex (the fixed vertices') is unchanged.
   */
  lemma {:induction false} ReadBackAt(recs: seq<Vertex>, uvs: seq<real>, free: seq<nat>, x: seq<real>, n: nat)
    requires UvsFor(recs, uvs, free) && IdsApart(recs, free) && |x| == 2 * |free| && n <= |free|
    ensures var r := ReadBackUpTo(recs, uvs, free, x, n);
            && (forall i :: 0 <= i < n ==> Pair(r, recs[free[i]].id) == Point2(x[i], x[|free| + i]))
            && (forall k :: 0 <= k < |uvs| && (forall i :: 0 <= i < n ==> k / 2 != recs[free[i]].id) ==> r[k] == uvs[k])
  {
    if n > 0 {
      ReadBackAt(recs, uvs, free, x, n - 1);
      var r0 := ReadBackUpTo(recs, uvs, free, x, n - 1);
      var id := recs[free[n - 1]].id;
      forall i | 0 <= i < n - 1
        ensures Pair(ReadBackUpTo(recs, uvs, free, x, n), recs[free[i]].id) == Point2(x[i], x[|free| + i])
      {
        SetPairOthers(r0, id, Point2(x[n - 1], x[|free| + n - 1]), recs[free[i]].id);
      }
    }
  }

  /** `(c - min) / (max - min)` on one axis; an axis whose range is empty is left as it is. */
  function Scale(c: real, lo: real, hi: real): real
  {
    if hi > lo then (c - lo) / (hi - lo) else c
  }

  /** A share of a positive whole lies in `[0, 1]`. */
  lemma QuotientUnit(a: real, d: real)
    requires 0.0 <= a <= d && d > 0.0
    ensures 0.0 <= a / d <= 1.0
  {
    assert (a / d) * d == a;
  }

  /** A value inside a non-empty range is mapped into `[0, 1]`, the ends onto 0 and 1. */
  lemma ScaleUnit(c: real, lo: real, hi: real)
    requires lo < hi && lo <= c <= hi
    ensures 0.0 <= Scale(c, lo, hi) <= 1.0
    ensures Scale(lo, lo, hi) == 0.0 && Scale(hi, lo, hi) == 1.0
  {
    QuotientUnit(c - lo, hi - lo);
    assert (hi - lo) / (hi - lo) == 1.0;
  }

  /** The uvs after the rescale loop (lscm.go:119-124) has handled the first `n` pairs. */
  function RescaledUpTo(uvs: seq<real>, lo: Point2, hi: Point2, n: nat): (r: seq<real>)
    ensures |r| == |uvs|
  {
    seq(|uvs|, k requires 0 <= k < |uvs| =>
      if k < 2 * n then (if k % 2 == 0 then Scale(uvs[k], lo.x, hi.x) else Scale(uvs[k], lo.y, hi.y))
      else uvs[k])
  }

  /** The rescale maps vertex `id`'s uv pair componentwise, once the loop is past it. */
  lemma RescaledPair(uvs: seq<real>, lo: Point2, hi: Point2, n: nat, id: nat)
    requires 2 * id + 1 < 2 * n && 2 * id + 1 < |uvs|
    ensures Pair(RescaledUpTo(uvs, lo, hi, n), id)
              == Point2(Scale(Pair(uvs, id).x, lo.x, hi.x), Scale(Pair(uvs, id).y, lo.y, hi.y))
  {
    assert (2 * id) % 2 == 0 && (2 * id + 1) % 2 == 1;
  }

  /** One more turn of the rescale loop rescales pair `n`, which still holds its original value. */
  lemma RescaledStep(uvs: seq<real>, lo: Point2, hi: Point2, n: nat)
    requires 2 * n + 1 < |uvs|
    ensures var r := RescaledUpTo(uvs, lo, hi, n);
            && Pair(r, n) == Pair(uvs, n)
            && SetPair(r, n, Point2(Scale(Pair(r, n).x, lo.x, hi.x), Scale(Pair(r, n).y, lo.y, hi.y)))
               == RescaledUpTo(uvs, lo, hi, n + 1)
  {
    var r := RescaledUpTo(uvs, lo, hi, n);
    var u := SetPair(r, n, Point2(Scale(uvs[2 * n], lo.x, hi.x), Scale(uvs[2 * n + 1], lo.y, hi.y)));
    assert (2 * n) % 2 == 0 && (2 * n + 1) % 2 == 1;
    forall k | 0 <= k < |uvs|
      ensures u[k] == RescaledUpTo(uvs, lo, hi, n + 1)[k]
    {
      if k == 2 * n {
        assert u[k] == Scale(uvs[k], lo.x, hi.x);
      } else if k == 2 * n + 1 {
        assert u[k] == Scale(uvs[k], lo.y, hi.y);
      } else {
        assert u[k] == r[k];
      }
    }
  }

  /** The bounding box of the read-back solution, seeded at the origin. */
  function Bounds(x: seq<real>, u: nat): (Point2, Point2)
    requires |x| == 2 * u
  {
    (Point2(FoldMin(x[..u]), FoldMin(x[u..])), Point2(FoldMax(x[..u]), FoldMax(x[u..])))
  }

  /**
   * After read-back and rescale, each free vertex's uv lies in the unit
   * square: on an axis with a non-empty range by the rescale, and on an axis
   * whose range is empty because every read-back value there is 0.
   */
  lemma FreeUvsInUnitSquare(recs: seq<Vertex>, uvs: seq<real>, free: seq<nat>, x: seq<real>, n: nat, i: nat)
    requires UvsFor(recs, uvs, free) && IdsApart(recs, free) && |x| == 2 * |free|
    requires i < |free| && 2 * recs[free[i]].id + 1 < 2 * n
    ensures var (lo, hi) := Bounds(x, |free|);
            var r := RescaledUpTo(ReadBackUpTo(recs, uvs, free, x, |free|), lo, hi, n);
            var uv := Pair(r, recs[free[i]].id);
            && uv == Point2(Scale(x[i], lo.x, hi.x), Scale(x[|free| + i], lo.y, hi.y))
            && 0.0 <= uv.x <= 1.0 && 0.0 <= uv.y <= 1.0
  {
    var (lo, hi) := Bounds(x, |free|);
    var u := |free|;
    ReadBackAt(recs, uvs, free, x, u);
    var rb := ReadBackUpTo(recs, uvs, free, x, u);
    var id := recs[free[i]].id;
    assert Pair(rb, id) == Point2(x[i], x[u + i]);
    RescaledPair(rb, lo, hi, n, id);
    assert x[..u][i] == x[i] && x[u..][i] == x[u + i];
    FoldBounds(x[..u]);
    FoldBounds(x[u..]);
    if lo.x < hi.x {
      ScaleUnit(x[i], lo.x, hi.x);
    }
    if lo.y < hi.y {
      ScaleUnit(x[u + i], lo.y, hi.y);
    }
  }
}
