/**
 * Three-component vectors and the distance comparisons used by every spatial index.
 * Coordinates are reals; `math.distance(a, b) < d` and `> d` are stated on squared
 * distances, which is exact because a distance is never negative.
 */
module Geometry {

  datatype Vec3 = Vec3(x: real, y: real, z: real)

  /** An axis index as produced by `depth % 3`. */
  type Axis = a: int | 0 <= a < 3

  const Origin := Vec3(0.0, 0.0, 0.0)

  function Coord(p: Vec3, axis: Axis): real {
    if axis == 0 then p.x else if axis == 1 then p.y else p.z
  }

  function AxisOf(depth: nat): Axis {
    depth % 3
  }

  /** Advancing `(axis + 1) % 3` per level keeps the axis at `depth % 3`. */
  lemma AxisStep(depth: nat)
    ensures AxisOf(depth + 1) == (AxisOf(depth) + 1) % 3
  {
  }

  /** `a.CompareTo(b)` on one coordinate: negative, zero or positive. */
  function ComparePoints(a: Vec3, b: Vec3, axis: Axis): (r: int)
    ensures r < 0 <==> Coord(a, axis) < Coord(b, axis)
    ensures r == 0 <==> Coord(a, axis) == Coord(b, axis)
  {
    var ca, cb := Coord(a, axis), Coord(b, axis);
    if ca < cb then -1 else if ca == cb then 0 else 1
  }

  function Sq(r: real): real {
    r * r
  }

  function Abs(r: real): real {
    if r < 0.0 then -r else r
  }

  function DistSq(a: Vec3, b: Vec3): real {
    Sq(a.x - b.x) + Sq(a.y - b.y) + Sq(a.z - b.z)
  }

  /** `math.distance(a, b) < d`. */
  predicate DistLt(a: Vec3, b: Vec3, d: real) {
    0.0 < d && DistSq(a, b) < d * d
  }

  /** `math.distance(a, b) > d`. */
  predicate DistGt(a: Vec3, b: Vec3, d: real) {
    d < 0.0 || DistSq(a, b) > d * d
  }

  function Add(a: Vec3, b: Vec3): Vec3 {
    Vec3(a.x + b.x, a.y + b.y, a.z + b.z)
  }

  function Scale(a: Vec3, s: real): Vec3 {
    Vec3(a.x * s, a.y * s, a.z * s)
  }

  lemma SqNonNegative(r: real)
    ensures Sq(r) >= 0.0
  {
    if r < 0.0 {
      assert Sq(r) == (-r) * (-r);
    }
  }

  lemma SqAbs(r: real)
    ensures Sq(Abs(r)) == Sq(r)
  {
  }

  /** Squaring is monotone on non-negative reals. */
  lemma SqMonotone(a: real, b: real)
    requires 0.0 <= a <= b
    ensures Sq(a) <= Sq(b)
  {
    assert a * a <= a * b;
    assert a * b <= b * b;
  }

  lemma DistSqNonNegative(a: Vec3, b: Vec3)
    ensures DistSq(a, b) >= 0.0
  {
    SqNonNegative(a.x - b.x);
    SqNonNegative(a.y - b.y);
    SqNonNegative(a.z - b.z);
  }

  /** The gap on one axis never exceeds the distance. */
  lemma AxisGapBelowDist(a: Vec3, b: Vec3, axis: Axis)
    ensures Sq(Coord(a, axis) - Coord(b, axis)) <= DistSq(a, b)
  {
    SqNonNegative(a.x - b.x);
    SqNonNegative(a.y - b.y);
    SqNonNegative(a.z - b.z);
  }

  /**
   * If `m` lies on the far side of the splitting plane through `p`, its distance
   * to `t` is at least the gap between `t` and the plane.
   */
  lemma FarSideBound(t: Vec3, p: Vec3, m: Vec3, axis: Axis)
    requires (Coord(t, axis) < Coord(p, axis) && Coord(m, axis) >= Coord(p, axis))
          || (Coord(t, axis) >= Coord(p, axis) && Coord(m, axis) < Coord(p, axis))
    ensures Sq(Coord(t, axis) - Coord(p, axis)) <= DistSq(t, m)
  {
    var gp := Abs(Coord(t, axis) - Coord(p, axis));
    var gm := Abs(Coord(t, axis) - Coord(m, axis));
    SqMonotone(gp, gm);
    SqAbs(Coord(t, axis) - Coord(p, axis));
    SqAbs(Coord(t, axis) - Coord(m, axis));
    AxisGapBelowDist(t, m, axis);
  }
}
