/**
 * The least-squares system of `RunLSCM` (lscm.go:66-96). `A` has one row
 * pair per face and one column pair per free vertex, `B` the same with fixed
 * vertices, and `f` holds the fixed vertices' uvs. Each half-edge's
 * coefficient `(cx, cy)` goes as a 2×2 block into the column pair of the
 * vertex its `next` half-edge targets. The right-hand side is `r = -B·f`.
 */
module Assembly {
  import opened Points
  import opened Topology
  import opened MeshStates

  /** A dense matrix, row by row. */
  type Matrix = seq<seq<real>>

  /** `m` has `rows` rows of `cols` entries each. */
  ghost predicate Shaped(m: Matrix, rows: nat, cols: nat)
  {
    |m| == rows && forall i :: 0 <= i < rows ==> |m[i]| == cols
  }

  /** `mat.NewDense(rows, cols, nil)`: all entries zero. */
  function Zeros(rows: nat, cols: nat): (m: Matrix)
    ensures Shaped(m, rows, cols)
  {
    seq(rows, _ => seq(cols, _ => 0.0))
  }

  /** `m.Set(r, c, x)`. */
  function Put(m: Matrix, r: nat, c: nat, x: real): Matrix
    requires r < |m| && c < |m[r]|
  {
    m[r := m[r][c := x]]
  }

  /**
   * The four `Set` calls for one half-edge: `cx` at `(fid, vid)` and
   * `(rows+fid, cols+vid)`, `-cy` at `(fid, cols+vid)`, `cy` at `(rows+fid, vid)`.
   */
  function Block(m: Matrix, rows: nat, cols: nat, fid: nat, vid: nat, c: Point3): (n: Matrix)
    requires Shaped(m, 2 * rows, 2 * cols) && fid < rows && vid < cols
    ensures Shaped(n, 2 * rows, 2 * cols)
  {
    Put(Put(Put(Put(m, fid, vid, c.x), rows + fid, cols + vid, c.x), fid, cols + vid, -c.y), rows + fid, vid, c.y)
  }

  /** A block writes exactly its four entries and leaves every other entry alone. */
  lemma BlockAt(m: Matrix, rows: nat, cols: nat, fid: nat, vid: nat, c: Point3, i: nat, j: nat)
    requires Shaped(m, 2 * rows, 2 * cols) && fid < rows && vid < cols
    requires i < 2 * rows && j < 2 * cols
    ensures Block(m, rows, cols, fid, vid, c)[i][j] ==
              if (i == fid && j == vid) || (i == rows + fid && j == cols + vid) then c.x
              else if i == fid && j == cols + vid then -c.y
              else if i == rows + fid && j == vid then c.y
              else m[i][j]
  {
  }

  /** The matrices and the vector under assembly. */
  datatype System = System(a: Matrix, b: Matrix, f: seq<real>)

  /** `A` is 2F×2U, `B` is 2F×2P and `f` has 2P entries. */
  ghost predicate Sized(st: System, faces: nat, free: nat, fixed: nat)
  {
    Shaped(st.a, 2 * faces, 2 * free) && Shaped(st.b, 2 * faces, 2 * fixed) && |st.f| == 2 * fixed
  }

  /**
   * The vertex with handle `v` carries an index into its own list (the free
   * list or the fixed list) at which it is found, and a fixed one has a uv.
   */
  ghost predicate IndexFits(recs: seq<Vertex>, uvs: seq<real>, free: seq<nat>, fixed: seq<nat>, v: nat)
  {
    && v < |recs| && 0 <= recs[v].index
    && if recs[v].fixed then
         recs[v].index < |fixed| && fixed[recs[v].index] == v && 0 <= recs[v].id && 2 * recs[v].id + 1 < |uvs|
       else
         recs[v].index < |free| && free[recs[v].index] == v
  }

  /** What assembly needs: whole 3-cycles, and every half-edge's vertex numbered. */
  ghost predicate Assemblable(hes: seq<HalfEdge>, recs: seq<Vertex>, uvs: seq<real>, free: seq<nat>, fixed: seq<nat>)
  {
    && |hes| % 3 == 0
    && forall h :: 0 <= h < |hes| ==>
         && hes[h].next == NextInCycle(h) && hes[h].next < |hes|
         && IndexFits(recs, uvs, free, fixed, hes[h].vertex)
  }

  /** The vertex whose column pair half-edge `h`'s block goes into: `he.next.target()`. */
  function Column(hes: seq<HalfEdge>, h: nat): nat
    requires h < |hes| && hes[h].next < |hes|
  {
    Target(hes, hes[h].next)
  }

  /** Within a face, `next` leads from one half-edge to the following one. */
  lemma FaceNext(hes: seq<HalfEdge>, recs: seq<Vertex>, uvs: seq<real>, free: seq<nat>, fixed: seq<nat>, fid: nat, i: nat, h: nat)
    requires Assemblable(hes, recs, uvs, free, fixed) && 3 * fid + 2 < |hes| && i < 2 && h == 3 * fid + i
    ensures hes[h].next == h + 1
  {
    CornerAt(h, fid, i);
  }

  /** lscm.go:67-69: `A`, `B` and `f` for `faces` faces, `free` free and `fixed` fixed vertices, all zero. */
  function Empty(faces: nat, free: nat, fixed: nat): (r: System)
    ensures Sized(r, faces, free, fixed)
  {
    System(Zeros(2 * faces, 2 * free), Zeros(2 * faces, 2 * fixed), seq(2 * fixed, _ => 0.0))
  }

  /** The body of the inner loop of lscm.go:73-93 for half-edge `h` of face `h / 3`. */
  function CornerStep(st: System, hes: seq<HalfEdge>, recs: seq<Vertex>, uvs: seq<real>,
                      free: seq<nat>, fixed: seq<nat>, h: nat): (r: System)
    requires Assemblable(hes, recs, uvs, free, fixed) && h < |hes|
    requires Sized(st, |hes| / 3, |free|, |fixed|)
    ensures Sized(r, |hes| / 3, |free|, |fixed|)
  {
    var v := Column(hes, h);
    var vid := recs[v].index;
    if !recs[v].fixed then
      st.(a := Block(st.a, |hes| / 3, |free|, h / 3, vid, hes[h].coefficients))
    else
      var uv := Pair(uvs, recs[v].id);
      st.(b := Block(st.b, |hes| / 3, |fixed|, h / 3, vid, hes[h].coefficients),
          f := st.f[vid := uv.x][|fixed| + vid := uv.y])
  }

  /** The system after the first `n` half-edges, in face order and `next` order within a face. */
  function Assembled(hes: seq<HalfEdge>, recs: seq<Vertex>, uvs: seq<real>,
                     free: seq<nat>, fixed: seq<nat>, n: nat): (r: System)
    requires Assemblable(hes, recs, uvs, free, fixed) && n <= |hes|
    ensures Sized(r, |hes| / 3, |free|, |fixed|)
  {
    if n == 0 then Empty(|hes| / 3, |free|, |fixed|)
    else CornerStep(Assembled(hes, recs, uvs, free, fixed, n - 1), hes, recs, uvs, free, fixed, n - 1)
  }

  /** Handling half-edge `n` of the system after `n` half-edges gives the system after `n + 1`. */
  lemma AssembledStep(st: System, hes: seq<HalfEdge>, recs: seq<Vertex>, uvs: seq<real>,
                      free: seq<nat>, fixed: seq<nat>, n: nat)
    requires Assemblable(hes, recs, uvs, free, fixed) && n < |hes|
    requires st == Assembled(hes, recs, uvs, free, fixed, n)
    ensures Sized(st, |hes| / 3, |free|, |fixed|)
    ensures CornerStep(st, hes, recs, uvs, free, fixed, n) == Assembled(hes, recs, uvs, free, fixed, n + 1)
  {
  }

  /** Half-edge `h`'s block, and for a fixed vertex its uv in `f`, are in place in `st`. */
  ghost predicate Placed(st: System, hes: seq<HalfEdge>, recs: seq<Vertex>, uvs: seq<real>,
                         free: seq<nat>, fixed: seq<nat>, h: nat)
    requires Assemblable(hes, recs, uvs, free, fixed) && h < |hes|
    requires Sized(st, |hes| / 3, |free|, |fixed|)
  {
    var v := Column(hes, h);
    var vid, c, faces, fid := recs[v].index, hes[h].coefficients, |hes| / 3, h / 3;
    if !recs[v].fixed then
      var cols := |free|;
      && st.a[fid][vid] == c.x && st.a[faces + fid][cols + vid] == c.x
      && st.a[fid][cols + vid] == -c.y && st.a[faces + fid][vid] == c.y
    else
      var cols, uv := |fixed|, Pair(uvs, recs[v].id);
      && st.b[fid][vid] == c.x && st.b[faces + fid][cols + vid] == c.x
      && st.b[fid][cols + vid] == -c.y && st.b[faces + fid][vid] == c.y
      && st.f[vid] == uv.x && st.f[cols + vid] == uv.y
  }

  /** The three half-edges of face `fid` target three different vertices. */
  ghost predicate ProperFace(hes: seq<HalfEdge>, fid: nat)
    requires 3 * fid + 2 < |hes|
  {
    && hes[3 * fid].vertex != hes[3 * fid + 1].vertex
    && hes[3 * fid + 1].vertex != hes[3 * fid + 2].vertex
    && hes[3 * fid].vertex != hes[3 * fid + 2].vertex
  }

  /** Handling half-edge `h` puts its block in place. */
  lemma CornerStepPlaces(st: System, hes: seq<HalfEdge>, recs: seq<Vertex>, uvs: seq<real>,
                         free: seq<nat>, fixed: seq<nat>, h: nat)
    requires Assemblable(hes, recs, uvs, free, fixed) && h < |hes|
    requires Sized(st, |hes| / 3, |free|, |fixed|)
    ensures Placed(CornerStep(st, hes, recs, uvs, free, fixed, h), hes, recs, uvs, free, fixed, h)
  {
  }

  /** In a proper face the `next` targets of two different half-edges differ. */
  lemma ColumnsDiffer(hes: seq<HalfEdge>, recs: seq<Vertex>, uvs: seq<real>, free: seq<nat>, fixed: seq<nat>, g: nat, h: nat)
    requires Assemblable(hes, recs, uvs, free, fixed) && g < |hes| && h < |hes|
    requires g != h && g / 3 == h / 3 && ProperFace(hes, h / 3)
    ensures Column(hes, g) != Column(hes, h)
  {
    CornerArithmetic(h / 3, g % 3);
    CornerArithmetic(h / 3, h % 3);
  }

  /** A free half-edge `g` rewrites only `A`, outside `h`'s entries. */
  lemma FreeStepKeeps(st: System, hes: seq<HalfEdge>, recs: seq<Vertex>, uvs: seq<real>,
                      free: seq<nat>, fixed: seq<nat>, g: nat, h: nat)
    requires Assemblable(hes, recs, uvs, free, fixed) && g < |hes| && h < |hes|
    requires g / 3 != h / 3 || Column(hes, g) != Column(hes, h)
    requires !recs[Column(hes, g)].fixed
    requires Sized(st, |hes| / 3, |free|, |fixed|)
    requires Placed(st, hes, recs, uvs, free, fixed, h)
    ensures Placed(CornerStep(st, hes, recs, uvs, free, fixed, g), hes, recs, uvs, free, fixed, h)
  {
  }

  /** A fixed half-edge `g` rewrites only `B` outside `h`'s entries, and `f` with its own vertex's uv. */
  lemma FixedStepKeeps(st: System, hes: seq<HalfEdge>, recs: seq<Vertex>, uvs: seq<real>,
                       free: seq<nat>, fixed: seq<nat>, g: nat, h: nat)
    requires Assemblable(hes, recs, uvs, free, fixed) && g < |hes| && h < |hes|
    requires g / 3 != h / 3 || Column(hes, g) != Column(hes, h)
    requires recs[Column(hes, g)].fixed
    requires Sized(st, |hes| / 3, |free|, |fixed|)
    requires Placed(st, hes, recs, uvs, free, fixed, h)
    ensures Placed(CornerStep(st, hes, recs, uvs, free, fixed, g), hes, recs, uvs, free, fixed, h)
  {
  }

  /**
   * Handling another half-edge `g` leaves `h`'s block in place: a half-edge of
   * another face writes other rows, one of the same proper face writes
   * another vertex's columns, and `f` is only ever written with a vertex's own uv.
   */
  lemma CornerStepKeeps(st: System, hes: seq<HalfEdge>, recs: seq<Vertex>, uvs: seq<real>,
                        free: seq<nat>, fixed: seq<nat>, g: nat, h: nat)
    requires Assemblable(hes, recs, uvs, free, fixed) && g < |hes| && h < |hes| && g != h
    requires g / 3 != h / 3 || ProperFace(hes, h / 3)
    requires Sized(st, |hes| / 3, |free|, |fixed|)
    requires Placed(st, hes, recs, uvs, free, fixed, h)
    ensures Placed(CornerStep(st, hes, recs, uvs, free, fixed, g), hes, recs, uvs, free, fixed, h)
  {
    if g / 3 == h / 3 {
      ColumnsDiffer(hes, recs, uvs, free, fixed, g, h);
    }
    if recs[Column(hes, g)].fixed {
      FixedStepKeeps(st, hes, recs, uvs, free, fixed, g, h);
    } else {
      FreeStepKeeps(st, hes, recs, uvs, free, fixed, g, h);
    }
  }

  /**
   * Once the loop is past half-edge `h` of a proper face, `h`'s coefficient
   * sits as its 2×2 block in `A` (free vertex) or `B` (fixed vertex), and a
   * fixed vertex's uv sits in `f`.
   */
  lemma {:induction false} AssembledPlaces(hes: seq<HalfEdge>, recs: seq<Vertex>, uvs: seq<real>,
                                           free: seq<nat>, fixed: seq<nat>, n: nat, h: nat)
    requires Assemblable(hes, recs, uvs, free, fixed) && h < n <= |hes|
    requires ProperFace(hes, h / 3)
    ensures Placed(Assembled(hes, recs, uvs, free, fixed, n), hes, recs, uvs, free, fixed, h)
  {
    var prev := Assembled(hes, recs, uvs, free, fixed, n - 1);
    if n - 1 == h {
      CornerStepPlaces(prev, hes, recs, uvs, free, fixed, h);
    } else {
      AssembledPlaces(hes, recs, uvs, free, fixed, n - 1, h);
      CornerStepKeeps(prev, hes, recs, uvs, free, fixed, n - 1, h);
    }
  }

  // ---------------------------------------------------------------------------
  // The right-hand side

  /** The dot product of a row with a vector, summed from the front. */
  function RowDot(row: seq<real>, x: seq<real>): real
    requires |row| == |x|
  {
    if row == [] then 0.0 else RowDot(row[..|row| - 1], x[..|x| - 1]) + row[|row| - 1] * x[|x| - 1]
  }

  /** `r.MulVec(B, f); r.ScaleVec(-1, r)`: entry `i` of `r` is minus row `i` of `B` times `f`. */
  function NegMulVec(b: Matrix, f: seq<real>): (r: seq<real>)
    requires forall i :: 0 <= i < |b| ==> |b[i]| == |f|
    ensures |r| == |b|
  {
    seq(|b|, i requires 0 <= i < |b| => -RowDot(b[i], f))
  }

  /** A dot product over a split row is the sum of the dot products of the parts. */
  lemma {:induction false} RowDotConcat(r1: seq<real>, r2: seq<real>, x1: seq<real>, x2: seq<real>)
    requires |r1| == |x1| && |r2| == |x2|
    ensures RowDot(r1 + r2, x1 + x2) == RowDot(r1, x1) + RowDot(r2, x2)
  {
    if r2 == [] {
      assert r1 + r2 == r1 && x1 + x2 == x1;
    } else {
      var k := |r2| - 1;
      RowDotConcat(r1, r2[..k], x1, x2[..k]);
      assert (r1 + r2)[..|r1 + r2| - 1] == r1 + r2[..k];
      assert (x1 + x2)[..|x1 + x2| - 1] == x1 + x2[..k];
    }
  }

  /**
   * Solving `A·x = -B·f` is solving the whole conformal system `[A | B]·[x; f] = 0`:
   * `x` meets every row of the one exactly when it meets every row of the other.
   */
  lemma ResidualMeans(a: Matrix, b: Matrix, f: seq<real>, x: seq<real>)
    requires |a| == |b|
    requires forall i :: 0 <= i < |a| ==> |a[i]| == |x| && |b[i]| == |f|
    ensures var r := NegMulVec(b, f);
            (forall i :: 0 <= i < |a| ==> RowDot(a[i], x) == r[i])
              <==> (forall i :: 0 <= i < |a| ==> RowDot(a[i] + b[i], x + f) == 0.0)
  {
    forall i | 0 <= i < |a|
      ensures RowDot(a[i] + b[i], x + f) == RowDot(a[i], x) + RowDot(b[i], f)
    {
      RowDotConcat(a[i], b[i], x, f);
    }
  }
}
