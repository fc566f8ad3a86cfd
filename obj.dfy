/**
 * The Wavefront OBJ reader and the face part of the writer (obj.go).
 *
 * The reader cuts its input at each newline, each line at its first space,
 * and dispatches on the line type: `v` appends a vertex (fixed when the line
 * ends in `fix u v`), `vn` writes the normal of the next vertex in turn, `f`
 * adds a face from three 1-based indices, and anything else is skipped.
 * `strconv.ParseFloat` is a parameter; `strconv.Atoi` is modelled as signed
 * 64-bit decimal.
 */
module Obj {
  import opened Wrappers
  import opened Points
  import opened Topology
  import opened MeshStates
  import opened Meshes
  import opened ObjText

  // ---------------------------------------------------------------------------
  // Reading one line

  /** `strconv.ParseFloat(s, 64)`: a number, or `None` for an error. */
  type FloatParser = string -> Option<real>

  /** What `parseVertex` reads: the point, and for a `fix` suffix the fixed uv. */
  datatype VertexLine = VertexLine(p: Point3, fixed: bool, uv: Point2)

  /** The tokenising of `parseVertex` (obj.go:121-152). */
  function VertexArgs(line: string, parse: FloatParser): Result<VertexLine, ObjError>
  {
    var (xs, rest1, ok1) := Cut(line, ' ');
    if !ok1 then Err(NoSpaceAfterVertexX)
    else
      var (ys, rest2, ok2) := Cut(rest1, ' ');
      if !ok2 then Err(NoSpaceAfterVertexY)
      else
        var (zs, rest3, _) := Cut(rest2, ' ');
        if parse(xs).None? || parse(ys).None? || parse(zs).None? then Err(BadNumber)
        else
          var p := Point3(parse(xs).value, parse(ys).value, parse(zs).value);
          var (fixLine, fixed) := CutPrefix(rest3, "fix ");
          if !fixed then Ok(VertexLine(p, false, Point2(0.0, 0.0)))
          else
            var (us, vs, ok3) := Cut(fixLine, ' ');
            if !ok3 then Err(NoSpaceAfterFixedX)
            else if parse(us).None? || parse(vs).None? then Err(BadNumber)
            else Ok(VertexLine(p, true, Point2(parse(us).value, parse(vs).value)))
  }

  /** What the reader keeps of a mesh: it is valid, and every vertex has a normal. */
  ghost predicate Parsing(s: MeshState)
  {
    Valid(s) && |s.normals| == 3 * |s.vertices|
  }

  /** `parseVertex(m, line)` on the mesh state (obj.go:117-158). */
  function VertexStep(s: MeshState, line: string, parse: FloatParser): (r: Result<MeshState, ObjError>)
    requires Parsing(s)
    ensures r.Ok? ==> Parsing(r.value) && |r.value.vertices| == |s.vertices| + 1
  {
    match VertexArgs(line, parse)
    case Err(e) => Err(e)
    case Ok(vl) =>
      WithVertexValid(s, vl.p, vl.fixed, vl.uv);
      Ok(WithVertex(s, vl.p, vl.fixed, vl.uv))
  }

  /**
   * `parseNormal(m, line, ni)` on the mesh state (obj.go:88-115): the
   * missing spaces are reported first, then a vertex `ni` that does not exist
   * panics, and only then are the numbers read.
   */
  function NormalStep(s: MeshState, ni: nat, line: string, parse: FloatParser): (r: Result<MeshState, ObjError>)
    requires Parsing(s)
    ensures r.Ok? ==> Parsing(r.value)
  {
    var (xs, rest1, ok1) := Cut(line, ' ');
    if !ok1 then Err(NoSpaceInNormal)
    else
      var (ys, rest2, ok2) := Cut(rest1, ' ');
      if !ok2 then Err(NoSpaceInNormal)
      else
        var zs := Cut(rest2, ' ').0;
        if ni >= |s.vertices| then Err(IndexPanic)
        else if parse(xs).None? || parse(ys).None? || parse(zs).None? then Err(BadNumber)
        else
          var t := s.(normals := SetTriple(s.normals, ni, Point3(parse(xs).value, parse(ys).value, parse(zs).value)));
          NormalsFree(s, t);
          Ok(t)
  }

  /** The normals take no part in the invariants. */
  lemma NormalsFree(s: MeshState, t: MeshState)
    requires Valid(s) && t == s.(normals := t.normals)
    ensures Valid(t)
  {
  }

  /** `parseFace(m, line)` on the mesh state (obj.go:55-86): an index that names no vertex panics in `AddFace`. */
  function FaceStep(s: MeshState, line: string): (r: Result<MeshState, ObjError>)
    requires Parsing(s)
    ensures r.Ok? ==> Parsing(r.value) && |r.value.faces| == |s.faces| + 1
  {
    match FaceIndices(line)
    case Err(e) => Err(e)
    case Ok((a, b, c)) =>
      var n := |s.vertices|;
      if 0 <= a < n && 0 <= b < n && 0 <= c < n then
        var vis: seq<nat> := [a, b, c];
        ValidFaceFits(s, vis);
        WithFaceValid(s, vis);
        Ok(WithFace(s, vis))
      else Err(IndexPanic)
  }

  /** One line of the loop of `ParseObj` (obj.go:30-50), with the `vn` counter. */
  function LineStep(s: MeshState, ni: nat, line: string, parse: FloatParser): (r: Result<(MeshState, nat), ObjError>)
    requires Parsing(s)
    ensures r.Ok? ==> Parsing(r.value.0)
  {
    var (t, args, ok) := Cut(line, ' ');
    if !ok then Err(NoSpaceAfterLineType)
    else if t == "v" then
      match VertexStep(s, args, parse)
      case Err(e) => Err(e)
      case Ok(u) => Ok((u, ni))
    else if t == "vn" then
      match NormalStep(s, ni, args, parse)
      case Err(e) => Err(e)
      case Ok(u) => Ok((u, ni + 1))
    else if t == "f" then
      match FaceStep(s, args)
      case Err(e) => Err(e)
      case Ok(u) => Ok((u, ni))
    else Ok((s, ni))
  }

  /** The loop of `ParseObj` from mesh `s`, counter `ni` and remaining input `obj`. */
  function ParseFrom(s: MeshState, ni: nat, obj: string, parse: FloatParser): (r: Result<MeshState, ObjError>)
    requires Parsing(s)
    ensures r.Ok? ==> Parsing(r.value)
    decreases |obj|
  {
    var (line, rest, ok) := Cut(obj, '\n');
    if !ok then Ok(s)
    else
      match LineStep(s, ni, line, parse)
      case Err(e) => Err(e)
      case Ok((u, n)) => ParseFrom(u, n, rest, parse)
  }

  /** `ParseObj(obj)`: the mesh read from `obj`, starting from an empty mesh, or the error. */
  function Parsed(obj: string, parse: FloatParser): Result<MeshState, ObjError>
  {
    EmptyStateValid();
    ParseFrom(EmptyState(), 0, obj, parse)
  }

  // ---------------------------------------------------------------------------
  // Properties of the reader

  /** Text after the last newline is never read: a tail without a newline changes nothing. */
  lemma {:induction false} TailIgnored(s: MeshState, ni: nat, body: string, tail: string, parse: FloatParser)
    requires Parsing(s) && '\n' !in tail
    requires body == [] || body[|body| - 1] == '\n'
    ensures ParseFrom(s, ni, body + tail, parse) == ParseFrom(s, ni, body, parse)
    decreases |body|
  {
    if body == [] {
      assert body + tail == tail;
      CutNone(tail, '\n');
    } else {
      CutSplits(body, '\n');
      var (line, rest, ok) := Cut(body, '\n');
      assert ok;
      assert body + tail == line + ['\n'] + (rest + tail);
      CutAt(line, rest + tail, '\n');
      if rest != [] {
        assert rest[|rest| - 1] == body[|body| - 1];
      }
      match LineStep(s, ni, line, parse)
      case Err(e) =>
      case Ok((u, n)) =>
        TailIgnored(u, n, rest, tail, parse);
    }
  }

  /** A line without a space, the empty line included, stops the reader with an error. */
  lemma LineWithoutSpaceFails(s: MeshState, ni: nat, line: string, rest: string, parse: FloatParser)
    requires Parsing(s) && ' ' !in line && '\n' !in line
    ensures ParseFrom(s, ni, line + "\n" + rest, parse) == Err(NoSpaceAfterLineType)
  {
    CutAt(line, rest, '\n');
    CutNone(line, ' ');
  }

  /** A line of any other type is skipped: the mesh and the counter stay as they are. */
  lemma OtherLineSkipped(s: MeshState, ni: nat, t: string, args: string, rest: string, parse: FloatParser)
    requires Parsing(s) && ' ' !in t && '\n' !in t && '\n' !in args
    requires t != "v" && t != "vn" && t != "f"
    ensures ParseFrom(s, ni, t + " " + args + "\n" + rest, parse) == ParseFrom(s, ni, rest, parse)
  {
    LineSplits(t, args, rest);
  }

  /**
   * A `vn` line writes the normal of the vertex the counter points at, and
   * only that one, and advances the counter; with no such vertex it panics.
   */
  lemma NormalLineWrites(s: MeshState, ni: nat, xs: string, ys: string, zs: string, parse: FloatParser)
    requires Parsing(s) && ' ' !in xs && ' ' !in ys && ' ' !in zs
    requires parse(xs).Some? && parse(ys).Some? && parse(zs).Some?
    ensures var r := LineStep(s, ni, "vn " + xs + " " + ys + " " + zs, parse);
            && (ni >= |s.vertices| ==> r == Err(IndexPanic))
            && (ni < |s.vertices| ==>
                  && r.Ok? && r.value.1 == ni + 1
                  && r.value.0 == s.(normals := r.value.0.normals)
                  && Triple(r.value.0.normals, s.vertexRecs[s.vertices[ni]].id) == Point3(parse(xs).value, parse(ys).value, parse(zs).value)
                  && forall j :: 0 <= j < |s.vertices| && j != ni ==> Triple(r.value.0.normals, j) == Triple(s.normals, j))
  {
    var line := "vn " + xs + " " + ys + " " + zs;
    var args := xs + " " + ys + " " + zs;
    assert line == "vn" + [' '] + args;
    CutAt("vn", args, ' ');
    assert args == xs + [' '] + (ys + " " + zs);
    CutAt(xs, ys + " " + zs, ' ');
    assert ys + " " + zs == ys + [' '] + zs;
    CutAt(ys, zs, ' ');
    CutNone(zs, ' ');
  }

  /** A vertex line ending in `fix u v` gives a fixed vertex with uv `(u, v)`. */
  lemma FixedVertexLine(xs: string, ys: string, zs: string, us: string, vs: string, parse: FloatParser)
    requires ' ' !in xs && ' ' !in ys && ' ' !in zs && ' ' !in us
    requires parse(xs).Some? && parse(ys).Some? && parse(zs).Some? && parse(us).Some? && parse(vs).Some?
    ensures VertexArgs(xs + " " + ys + " " + zs + " fix " + us + " " + vs, parse)
              == Ok(VertexLine(Point3(parse(xs).value, parse(ys).value, parse(zs).value), true,
                               Point2(parse(us).value, parse(vs).value)))
  {
    var fixLine := us + " " + vs;
    var rest3 := "fix " + fixLine;
    assert xs + " " + ys + " " + zs + " fix " + us + " " + vs == xs + [' '] + (ys + [' '] + (zs + [' '] + rest3));
    CutAt(xs, ys + [' '] + (zs + [' '] + rest3), ' ');
    CutAt(ys, zs + [' '] + rest3, ' ');
    CutAt(zs, rest3, ' ');
    assert CutPrefix(rest3, "fix ") == (fixLine, true);
    assert fixLine == us + [' '] + vs;
    CutAt(us, vs, ' ');
  }

  /** A vertex line without a `fix ` suffix gives a free vertex with uv `(0, 0)`. */
  lemma FreeVertexLine(xs: string, ys: string, zs: string, rest: string, parse: FloatParser)
    requires ' ' !in xs && ' ' !in ys && ' ' !in zs && !("fix " <= rest)
    requires parse(xs).Some? && parse(ys).Some? && parse(zs).Some?
    ensures VertexArgs(xs + " " + ys + " " + zs, parse)
              == Ok(VertexLine(Point3(parse(xs).value, parse(ys).value, parse(zs).value), false, Point2(0.0, 0.0)))
    ensures VertexArgs(xs + " " + ys + " " + zs + " " + rest, parse)
              == Ok(VertexLine(Point3(parse(xs).value, parse(ys).value, parse(zs).value), false, Point2(0.0, 0.0)))
  {
    assert xs + " " + ys + " " + zs == xs + [' '] + (ys + [' '] + zs);
    CutAt(xs, ys + [' '] + zs, ' ');
    CutAt(ys, zs, ' ');
    CutNone(zs, ' ');
    assert xs + " " + ys + " " + zs + " " + rest == xs + [' '] + (ys + [' '] + (zs + [' '] + rest));
    CutAt(xs, ys + [' '] + (zs + [' '] + rest), ' ');
    CutAt(ys, zs + [' '] + rest, ' ');
    CutAt(zs, rest, ' ');
  }

  /**
   * `parseVertex` fails when the x coordinate, or the y coordinate, is not
   * followed by a space; both checks come before any number is parsed.
   */
  lemma VertexNeedsSpaces(xs: string, line: string, parse: FloatParser)
    requires ' ' !in xs
    ensures ' ' !in line ==> VertexArgs(line, parse) == Err(NoSpaceAfterVertexX)
    ensures ' ' !in line ==> VertexArgs(xs + " " + line, parse) == Err(NoSpaceAfterVertexY)
  {
    if ' ' !in line {
      CutNone(line, ' ');
      assert xs + " " + line == xs + [' '] + line;
      CutAt(xs, line, ' ');
    }
  }

  /** A `fix` suffix whose two numbers are not separated by a space is an error. */
  lemma FixNeedsSpace(xs: string, ys: string, zs: string, us: string, parse: FloatParser)
    requires ' ' !in xs && ' ' !in ys && ' ' !in zs && ' ' !in us
    requires parse(xs).Some? && parse(ys).Some? && parse(zs).Some?
    ensures VertexArgs(xs + " " + ys + " " + zs + " fix " + us, parse) == Err(NoSpaceAfterFixedX)
  {
    var rest3 := "fix " + us;
    assert xs + " " + ys + " " + zs + " fix " + us == xs + [' '] + (ys + [' '] + (zs + [' '] + rest3));
    CutAt(xs, ys + [' '] + (zs + [' '] + rest3), ' ');
    CutAt(ys, zs + [' '] + rest3, ' ');
    CutAt(zs, rest3, ' ');
    assert CutPrefix(rest3, "fix ") == (us, true);
    CutNone(us, ' ');
  }

  // ---------------------------------------------------------------------------
  // Writing faces

  /** The ids of the targets of face `fid`'s half-edges, from `face.halfedge` in `next` order. */
  ghost function FaceIds(s: MeshState, fid: nat): seq<int>
    requires Valid(s) && fid < |s.faces|
  {
    var h0 := s.faces[fid].halfedge;
    var h1 := s.halfedges[h0].next;
    var h2 := s.halfedges[h1].next;
    [s.vertexRecs[s.halfedges[h0].vertex].id, s.vertexRecs[s.halfedges[h1].vertex].id,
     s.vertexRecs[s.halfedges[h2].vertex].id]
  }

  /** Face `fid` owns half-edges `3fid`, `3fid+1`, `3fid+2`, in that `next` order, and their targets give its ids. */
  lemma FaceIdsAt(s: MeshState, fid: nat)
    requires Valid(s) && fid < |s.faces|
    ensures s.faces[fid].halfedge == 3 * fid && 3 * fid + 2 < |s.halfedges|
    ensures var ids := FaceIds(s, fid);
            var h := 3 * fid;
            && s.halfedges[h].vertex < |s.vertexRecs| && ids[0] == s.vertexRecs[s.halfedges[h].vertex].id
            && s.halfedges[h + 1].vertex < |s.vertexRecs| && ids[1] == s.vertexRecs[s.halfedges[h + 1].vertex].id
            && s.halfedges[h + 2].vertex < |s.vertexRecs| && ids[2] == s.vertexRecs[s.halfedges[h + 2].vertex].id
  {
    CornerAt(3 * fid, fid, 0);
    CornerAt(3 * fid + 1, fid, 1);
  }

  /** Half-edge `3fid+k` of face `fid` exists, its target exists, and `next` leads on round the face. */
  lemma FaceCorner(s: MeshState, fid: nat, k: nat)
    requires Valid(s) && fid < |s.faces| && k < 3
    ensures s.faces[fid].halfedge == 3 * fid
    ensures 3 * fid + k < |s.halfedges| && s.halfedges[3 * fid + k].vertex < |s.vertexRecs|
    ensures s.halfedges[3 * fid + k].next == if k == 2 then 3 * fid else 3 * fid + k + 1
    ensures FaceIds(s, fid)[k] == s.vertexRecs[s.halfedges[3 * fid + k].vertex].id
  {
    FaceIdsAt(s, fid);
    CornerAt(3 * fid + k, fid, k);
  }

  /**
   * Reading back a written face line adds that face: the line is one line of
   * type `f`, and `parseFace` adds the face over the same vertices.
   */
  lemma FaceLineRoundTrip(s: MeshState, ni: nat, a: nat, b: nat, c: nat, rest: string, parse: FloatParser)
    requires Parsing(s) && FaceFits(s, [a, b, c]) && |s.vertices| <= IntMax
    ensures Cut(FaceLine([a, b, c]) + rest, '\n') == ("f " + Records([a, b, c]), rest, true)
    ensures LineStep(s, ni, "f " + Records([a, b, c]), parse) == Ok((WithFace(s, [a, b, c]), ni))
  {
    var records := Records([a, b, c]);
    assert a < |s.vertices| && b < |s.vertices| && c < |s.vertices| by {
      assert [a, b, c][0] == a && [a, b, c][1] == b && [a, b, c][2] == c;
    }
    RecordsReadBack(a, b, c);
    assert FaceLine([a, b, c]) + rest == "f " + records + "\n" + rest;
    FaceLineCuts(records, rest);
    FaceStepAdds(s, records, a, b, c);
    FaceLineStep(s, ni, "f " + records, records, parse);
  }

  /** A face line ends at its newline, and its type is `f`. */
  lemma FaceLineCuts(records: string, rest: string)
    requires '\n' !in records
    ensures Cut("f " + records + "\n" + rest, '\n') == ("f " + records, rest, true)
    ensures Cut("f " + records, ' ') == ("f", records, true)
  {
    assert "f " + records == "f" + " " + records;
    LineSplits("f", records, rest);
  }

  /** A line of type `f` is handled by `parseFace` alone, and leaves the `vn` counter alone. */
  lemma FaceLineStep(s: MeshState, ni: nat, line: string, args: string, parse: FloatParser)
    requires Parsing(s) && Cut(line, ' ') == ("f", args, true) && FaceStep(s, args).Ok?
    ensures LineStep(s, ni, line, parse) == Ok((FaceStep(s, args).value, ni))
  {
    assert "f" != "v" && "f" != "vn";
  }

  // ---------------------------------------------------------------------------
  // The reader and the face writer on the mesh object

  /** `parseVertex(m, line)`. */
  method ParseVertex(m: Mesh, line: string, parse: FloatParser) returns (err: Option<ObjError>)
    requires Parsing(m.State())
    modifies m
    ensures match VertexStep(old(m.State()), line, parse)
            case Ok(t) => err == None && m.State() == t
            case Err(e) => err == Some(e) && m.State() == old(m.State())
  {
    var xs, rest1, ok1 := Cut(line, ' ').0, Cut(line, ' ').1, Cut(line, ' ').2;
    if !ok1 {
      return Some(NoSpaceAfterVertexX);
    }
    var ys, rest2, ok2 := Cut(rest1, ' ').0, Cut(rest1, ' ').1, Cut(rest1, ' ').2;
    if !ok2 {
      return Some(NoSpaceAfterVertexY);
    }
    var zs, rest3 := Cut(rest2, ' ').0, Cut(rest2, ' ').1;
    var px, py, pz := parse(xs), parse(ys), parse(zs);
    if px.None? || py.None? || pz.None? {
      return Some(BadNumber);
    }
    var p := Point3(px.value, py.value, pz.value);
    var fixLine, fixed := CutPrefix(rest3, "fix ").0, CutPrefix(rest3, "fix ").1;
    if fixed {
      var us, vs, ok3 := Cut(fixLine, ' ').0, Cut(fixLine, ' ').1, Cut(fixLine, ' ').2;
      if !ok3 {
        return Some(NoSpaceAfterFixedX);
      }
      var u, v := parse(us), parse(vs);
      if u.None? || v.None? {
        return Some(BadNumber);
      }
      m.AddVertex(p, true, Point2(u.value, v.value));
    } else {
      m.AddVertex(p, false, Point2(0.0, 0.0));
    }
    err := None;
  }

  /** `parseNormal(m, line, ni)`. */
  method ParseNormal(m: Mesh, line: string, ni: nat, parse: FloatParser) returns (err: Option<ObjError>)
    requires Parsing(m.State())
    modifies m`normals
    ensures match NormalStep(old(m.State()), ni, line, parse)
            case Ok(t) => err == None && m.State() == t
            case Err(e) => err == Some(e) && m.State() == old(m.State())
  {
    var xs, rest1, ok1 := Cut(line, ' ').0, Cut(line, ' ').1, Cut(line, ' ').2;
    if !ok1 {
      return Some(NoSpaceInNormal);
    }
    var ys, rest2, ok2 := Cut(rest1, ' ').0, Cut(rest1, ' ').1, Cut(rest1, ' ').2;
    if !ok2 {
      return Some(NoSpaceInNormal);
    }
    var zs := Cut(rest2, ' ').0;
    if ni >= |m.vertices| {
      return Some(IndexPanic);
    }
    var nx, ny, nz := parse(xs), parse(ys), parse(zs);
    if nx.None? || ny.None? || nz.None? {
      return Some(BadNumber);
    }
    m.SetNormal(ni, Point3(nx.value, ny.value, nz.value));
    err := None;
  }

  /** `parseFace(m, line)`. */
  method ParseFace(m: Mesh, line: string) returns (err: Option<ObjError>)
    requires Parsing(m.State())
    modifies m
    ensures match FaceStep(old(m.State()), line)
            case Ok(t) => err == None && m.State() == t
            case Err(e) => err == Some(e) && m.State() == old(m.State())
  {
    var indices := FaceIndices(line);
    if indices.Err? {
      return Some(indices.error);
    }
    var (a, b, c) := indices.value;
    var n := |m.vertices|;
    if !(0 <= a < n && 0 <= b < n && 0 <= c < n) {
      return Some(IndexPanic);
    }
    FaceStepAdds(m.State(), line, a, b, c);
    var _ := m.AddFace([a as nat, b as nat, c as nat]);
    err := None;
  }

  /** A face line whose three indices name existing vertices adds that face. */
  lemma FaceStepAdds(s: MeshState, line: string, a: nat, b: nat, c: nat)
    requires Parsing(s) && FaceIndices(line) == Ok((a, b, c))
    requires a < |s.vertices| && b < |s.vertices| && c < |s.vertices|
    ensures FaceFits(s, [a, b, c]) && FaceStep(s, line) == Ok(WithFace(s, [a, b, c]))
  {
    ValidFaceFits(s, [a, b, c]);
  }

  /** `ParseObj(obj)`: a new mesh holding what `obj` describes, or the first error met. */
  method ParseObj(obj: string, parse: FloatParser) returns (r: Result<Mesh, ObjError>)
    ensures match Parsed(obj, parse)
            case Ok(s) => r.Ok? && r.value.State() == s
            case Err(e) => r == Err(e)
  {
    var m := new Mesh.Empty();
    EmptyStateValid();
    var ni := 0;
    var rest := obj;
    while true
      invariant Parsing(m.State())
      invariant ParseFrom(m.State(), ni, rest, parse) == Parsed(obj, parse)
      decreases |rest|
    {
      var line, after, ok := Cut(rest, '\n').0, Cut(rest, '\n').1, Cut(rest, '\n').2;
      if !ok {
        return Ok(m);
      }
      var t, args, ok2 := Cut(line, ' ').0, Cut(line, ' ').1, Cut(line, ' ').2;
      if !ok2 {
        return Err(NoSpaceAfterLineType);
      }
      var err: Option<ObjError> := None;
      if t == "v" {
        err := ParseVertex(m, args, parse);
      } else if t == "vn" {
        err := ParseNormal(m, args, ni, parse);
        if err.None? {
          ni := ni + 1;
        }
      } else if t == "f" {
        err := ParseFace(m, args);
      }
      if err.Some? {
        return Err(err.value);
      }
      rest := after;
    }
  }

  /**
   * The face loop of `WriteObj` for face `fid` (obj.go:184-199): `f `, then
   * one record per half-edge from `face.halfedge` along `next` until the
   * walk is back, then the newline.
   */
  method WriteFace(m: Mesh, fid: nat) returns (line: string)
    requires Valid(m.State()) && fid < |m.faces|
    ensures line == FaceLine(FaceIds(m.State(), fid))
  {
    ghost var s := m.State();
    FaceCorner(s, fid, 0);
    FaceCorner(s, fid, 1);
    FaceCorner(s, fid, 2);
    line := WalkFace(m.halfedges, m.vertexRecs, m.faces[fid].halfedge, FaceIds(s, fid));
  }

  /** Half-edge `h` targets a vertex whose id is `id`, and its `next` is `next`. */
  predicate CornerOk(halfedges: seq<HalfEdge>, vertexRecs: seq<Vertex>, h: nat, id: int, next: nat)
  {
    h < |halfedges| && halfedges[h].vertex < |vertexRecs| && vertexRecs[halfedges[h].vertex].id == id
    && halfedges[h].next == next
  }

  /**
   * The do-while loop of `WriteObj` over a face's three-cycle from `start`,
   * whose targets have ids `ids`: one record per half-edge, in `next` order,
   * stopping when the walk is back at `start`.
   */
  method WalkFace(halfedges: seq<HalfEdge>, vertexRecs: seq<Vertex>, start: nat, ghost ids: seq<int>)
    returns (line: string)
    requires |ids| == 3
    requires CornerOk(halfedges, vertexRecs, start, ids[0], start + 1)
    requires CornerOk(halfedges, vertexRecs, start + 1, ids[1], start + 2)
    requires CornerOk(halfedges, vertexRecs, start + 2, ids[2], start)
    ensures line == FaceLine(ids)
  {
    line := "f ";
    var he := start;
    ghost var written: seq<int> := [];
    while true
      invariant |written| < 3 && he == start + |written|
      invariant written == ids[..|written|] && line == "f " + Records(written)
      decreases 3 - |written|
    {
      WalkStep(halfedges, vertexRecs, start, ids, |written|);
      FaceRecordStep(ids, |written|, line);
      line := line + Record(vertexRecs[halfedges[he].vertex].id + 1);
      written := ids[..|written| + 1];
      he := halfedges[he].next;
      if he == start {
        assert written == ids;
        break;
      }
    }
    line := line + "\n";
  }

  /** One turn of `WalkFace`: the walk is at corner `k`, whose id is `ids[k]`, and `next` is back at `start` only after the third. */
  lemma WalkStep(halfedges: seq<HalfEdge>, vertexRecs: seq<Vertex>, start: nat, ids: seq<int>, k: nat)
    requires |ids| == 3 && k < 3
    requires CornerOk(halfedges, vertexRecs, start, ids[0], start + 1)
    requires CornerOk(halfedges, vertexRecs, start + 1, ids[1], start + 2)
    requires CornerOk(halfedges, vertexRecs, start + 2, ids[2], start)
    ensures start + k < |halfedges| && halfedges[start + k].vertex < |vertexRecs|
    ensures vertexRecs[halfedges[start + k].vertex].id == ids[k]
    ensures halfedges[start + k].next == if k == 2 then start else start + k + 1
  {
    if k == 0 { } else if k == 1 { } else { }
  }
}
