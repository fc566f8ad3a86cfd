/**
 * Vector primitives of point.go over the reals: componentwise difference,
 * cross product and division by a scalar. `norm` needs a square root and is
 * not part of this model; the squared norm stands in for it.
 */
module Points {

  datatype Point3 = Point3(x: real, y: real, z: real)

  datatype Point2 = Point2(x: real, y: real)

  const Origin3 := Point3(0.0, 0.0, 0.0)

  /** `d.sub(p)`: componentwise difference. */
  function Sub(d: Point3, p: Point3): Point3
  {
    Point3(d.x - p.x, d.y - p.y, d.z - p.z)
  }

  function Add(d: Point3, p: Point3): Point3
  {
    Point3(d.x + p.x, d.y + p.y, d.z + p.z)
  }

  function Neg(d: Point3): Point3
  {
    Point3(-d.x, -d.y, -d.z)
  }

  function Dot(d: Point3, p: Point3): real
  {
    d.x * p.x + d.y * p.y + d.z * p.z
  }

  /** `d.cross(p)`: the right-handed cross product. */
  function Cross(d: Point3, p: Point3): Point3
  {
    Point3(d.y * p.z - d.z * p.y, d.z * p.x - d.x * p.z, d.x * p.y - d.y * p.x)
  }

  /** The value `d.divide(v)` leaves in `d`: every component divided by `v`; multiplying back by `v` restores `d`. */
  function Quotient(d: Point3, v: real): (r: Point3)
    requires v != 0.0
    ensures r.x * v == d.x && r.y * v == d.y && r.z * v == d.z
  {
    Point3(d.x / v, d.y / v, d.z / v)
  }

  /** The square of `norm`: what edge.go's `updateLength` measures, before its square root. */
  function SquaredNorm(d: Point3): (r: real)
    ensures r >= 0.0
  {
    SquareNonNegative(d.x);
    SquareNonNegative(d.y);
    SquareNonNegative(d.z);
    d.x * d.x + d.y * d.y + d.z * d.z
  }

  lemma SquareNonNegative(c: real)
    ensures c * c >= 0.0
  {
    if c < 0.0 {
      assert c * c == (-c) * (-c);
    }
  }

  function SquaredDistance(a: Point3, b: Point3): real
  {
    SquaredNorm(Sub(a, b))
  }

  /** `sub` is the inverse of componentwise addition. */
  lemma SubAddInverse(a: Point3, b: Point3)
    ensures Add(Sub(a, b), b) == a
  {
  }

  lemma SubSelfIsZero(a: Point3)
    ensures Sub(a, a) == Origin3
  {
  }

  lemma SubAntisymmetric(a: Point3, b: Point3)
    ensures Sub(a, b) == Neg(Sub(b, a))
  {
  }

  lemma CrossAntisymmetric(a: Point3, b: Point3)
    ensures Cross(a, b) == Neg(Cross(b, a))
    ensures Cross(a, a) == Origin3
  {
  }

  /** The cross product is orthogonal to both of its arguments. */
  lemma CrossOrthogonal(a: Point3, b: Point3)
    ensures Dot(Cross(a, b), a) == 0.0
    ensures Dot(Cross(a, b), b) == 0.0
  {
    calc {
      Dot(Cross(a, b), a);
      (a.y * b.z - a.z * b.y) * a.x + (a.z * b.x - a.x * b.z) * a.y + (a.x * b.y - a.y * b.x) * a.z;
      a.x * a.y * b.z - a.x * a.z * b.y + a.y * a.z * b.x - a.x * a.y * b.z + a.x * a.z * b.y - a.y * a.z * b.x;
      0.0;
    }
    calc {
      Dot(Cross(a, b), b);
      (a.y * b.z - a.z * b.y) * b.x + (a.z * b.x - a.x * b.z) * b.y + (a.x * b.y - a.y * b.x) * b.z;
      a.y * b.x * b.z - a.z * b.x * b.y + a.z * b.x * b.y - a.x * b.y * b.z + a.x * b.y * b.z - a.y * b.x * b.z;
      0.0;
    }
  }

  /** The squared length of an edge does not depend on the direction it is measured in. */
  lemma SquaredDistanceSymmetric(a: Point3, b: Point3)
    ensures SquaredDistance(a, b) == SquaredDistance(b, a)
    ensures SquaredDistance(a, b) >= 0.0
  {
    var d, e := Sub(a, b), Sub(b, a);
    assert e == Neg(d);
    assert e.x * e.x == d.x * d.x && e.y * e.y == d.y * d.y && e.z * e.z == d.z * d.z;
  }

  /** A `Point3D` variable, which `divide` updates in place. */
  class PointCell {
    var x: real
    var y: real
    var z: real

    function Value(): Point3
      reads this
    {
      Point3(x, y, z)
    }

    constructor (p: Point3)
      ensures Value() == p
    {
      x, y, z := p.x, p.y, p.z;
    }

    /** `d.divide(v)`: the receiver holds the quotient afterwards, and nothing else changes. */
    method Divide(v: real)
      requires v != 0.0
      modifies this
      ensures Value() == Quotient(old(Value()), v)
    {
      x := x / v;
      y := y / v;
      z := z / v;
    }
  }
}
