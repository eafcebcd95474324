/**
 * `KDTree`: the pointer-based KD-tree, with a node per point, its recursive insert,
 * nearest-neighbour search and height statistics. A subtree is a value here, since
 * the insert only ever relinks the child on the path it walks.
 */
module PointerKdTree {
  import opened Wrappers
  import opened Geometry
  import opened Points
  import KdArena
  import opened Arith

  datatype Node = Nil | Node(point: PointData, left: Node, right: Node)

  /** The points stored in a subtree, with multiplicity. */
  function Contents(n: Node): multiset<PointData> {
    match n
    case Nil => multiset{}
    case Node(p, l, r) => multiset{p} + Contents(l) + Contents(r)
  }

  function Size(n: Node): nat {
    match n
    case Nil => 0
    case Node(_, l, r) => 1 + Size(l) + Size(r)
  }

  lemma {:induction false} SizeIsCount(n: Node)
    ensures |Contents(n)| == Size(n)
  {
    match n
    case Nil =>
    case Node(_, l, r) => SizeIsCount(l); SizeIsCount(r);
  }

  /** The KD ordering: strictly smaller on axis `depth % 3` to the left, the rest right. */
  ghost predicate Ordered(n: Node, depth: nat) {
    match n
    case Nil => true
    case Node(q, l, r) =>
      && (forall x :: x in Contents(l) ==> Coord(x.position, AxisOf(depth)) < Coord(q.position, AxisOf(depth)))
      && (forall x :: x in Contents(r) ==> Coord(x.position, AxisOf(depth)) >= Coord(q.position, AxisOf(depth)))
      && Ordered(l, depth + 1) && Ordered(r, depth + 1)
  }

  /** `Insert(node, point, depth)`: a new leaf at the first absent child, ties going right. */
  function InsertAt(n: Node, p: PointData, depth: nat): (r: Node)
    ensures Size(r) == Size(n) + 1
    decreases n
  {
    match n
    case Nil => Node(p, Nil, Nil)
    case Node(q, l, rt) =>
      if ComparePoints(p.position, q.position, AxisOf(depth)) < 0
      then Node(q, InsertAt(l, p, depth + 1), rt)
      else Node(q, l, InsertAt(rt, p, depth + 1))
  }

  /** Insertion adds the point and keeps every other one. */
  lemma {:induction false} InsertContents(n: Node, p: PointData, depth: nat)
    ensures Contents(InsertAt(n, p, depth)) == Contents(n) + multiset{p}
    decreases n
  {
    match n
    case Nil =>
    case Node(q, l, rt) =>
      if ComparePoints(p.position, q.position, AxisOf(depth)) < 0 {
        InsertContents(l, p, depth + 1);
      } else {
        InsertContents(rt, p, depth + 1);
      }
  }

  lemma {:induction false} InsertOrdered(n: Node, p: PointData, depth: nat)
    requires Ordered(n, depth)
    ensures Ordered(InsertAt(n, p, depth), depth)
    decreases n
  {
    match n
    case Nil =>
    case Node(q, l, rt) =>
      var ax := AxisOf(depth);
      var c := Coord(q.position, ax);
      if ComparePoints(p.position, q.position, ax) < 0 {
        var l' := InsertAt(l, p, depth + 1);
        InsertOrdered(l, p, depth + 1);
        InsertMembers(l, p, depth + 1);
        assert InsertAt(n, p, depth) == Node(q, l', rt);
        forall x | x in Contents(l') ensures Coord(x.position, ax) < c {
          assert x in Contents(l) || x == p;
        }
      } else {
        var r' := InsertAt(rt, p, depth + 1);
        InsertOrdered(rt, p, depth + 1);
        InsertMembers(rt, p, depth + 1);
        assert InsertAt(n, p, depth) == Node(q, l, r');
        forall x | x in Contents(r') ensures Coord(x.position, ax) >= c {
          assert x in Contents(rt) || x == p;
        }
      }
  }

  lemma InsertMembers(n: Node, p: PointData, depth: nat)
    ensures forall x :: x in Contents(InsertAt(n, p, depth)) ==> x in Contents(n) || x == p
  {
    InsertContents(n, p, depth);
  }

  /** Insertion adds exactly one level at most. */
  lemma {:induction false} InsertHeight(n: Node, p: PointData, depth: nat)
    ensures Height(n) <= Height(InsertAt(n, p, depth)) <= Height(n) + 1
    decreases n
  {
    match n
    case Nil =>
    case Node(q, l, rt) =>
      InsertHeight(l, p, depth + 1);
      InsertHeight(rt, p, depth + 1);
  }

  /**
   * `FindNearest(node, target, depth, best)`, over the same distance functions as the
   * arena trees (`dist` to the target, `gap` to a splitting plane); `None` is `null`.
   * The source picks the other child by comparing the next child with the left one;
   * the two agree except when both children are absent, where either choice is absent.
   */
  function NearestIn(n: Node, t: Vec3, depth: nat, best: Option<PointData>,
                     dist: Vec3 -> real, gap: (Vec3, Axis) -> real): (r: Option<PointData>)
    ensures best.Some? || n.Node? ==> r.Some?
    decreases n
  {
    match n
    case Nil => best
    case Node(q, l, rt) =>
      var nb := Closer(q, best, dist);
      var goLeft := ComparePoints(t, q.position, AxisOf(depth)) < 0;
      var nb2 := NearestIn(if goLeft then l else rt, t, depth + 1, nb, dist, gap);
      if gap(q.position, AxisOf(depth)) < dist(nb2.value.position)
      then NearestIn(if goLeft then rt else l, t, depth + 1, nb2, dist, gap)
      else nb2
  }

  /** The node's point replaces the best so far when there is none or it is strictly closer. */
  function Closer(q: PointData, best: Option<PointData>, dist: Vec3 -> real): (r: Option<PointData>)
    ensures r.Some? && (r.value == q || r == best)
    ensures best.Some? ==> dist(r.value.position) <= dist(best.value.position)
    ensures dist(r.value.position) <= dist(q.position)
  {
    if best.None? || dist(q.position) < dist(best.value.position) then Some(q) else best
  }

  /** The result is the incoming best or a point of the subtree, and never farther than the best. */
  lemma {:induction false} NearestInSource(n: Node, t: Vec3, depth: nat, best: Option<PointData>,
                                           dist: Vec3 -> real, gap: (Vec3, Axis) -> real)
    ensures var r := NearestIn(n, t, depth, best, dist, gap);
            && (r == best || (r.Some? && r.value in Contents(n)))
            && (best.Some? ==> dist(r.value.position) <= dist(best.value.position))
    decreases n
  {
    match n
    case Nil =>
    case Node(q, l, rt) =>
      var nb := Closer(q, best, dist);
      var goLeft := ComparePoints(t, q.position, AxisOf(depth)) < 0;
      var next, other := if goLeft then l else rt, if goLeft then rt else l;
      NearestInSource(next, t, depth + 1, nb, dist, gap);
      var nb2 := NearestIn(next, t, depth + 1, nb, dist, gap);
      NearestInSource(other, t, depth + 1, nb2, dist, gap);
      var r := NearestIn(n, t, depth, best, dist, gap);
      assert r == nb2 || r == NearestIn(other, t, depth + 1, nb2, dist, gap);
      ChildContents(n, goLeft);
  }

  /** Every point of either child is a point of the node. */
  lemma ChildContents(n: Node, goLeft: bool)
    requires n.Node?
    ensures var next, other := if goLeft then n.left else n.right, if goLeft then n.right else n.left;
            && n.point in Contents(n)
            && (forall x :: x in Contents(next) ==> x in Contents(n))
            && (forall x :: x in Contents(other) ==> x in Contents(n))
            && (forall x :: x in Contents(n) ==> x == n.point || x in Contents(next) || x in Contents(other))
  {
  }

  /** The ordering at a node, seen from the side the search does not take first. */
  lemma OrderedSides(n: Node, depth: nat, goLeft: bool)
    requires n.Node? && Ordered(n, depth)
    ensures var other, ax := if goLeft then n.right else n.left, AxisOf(depth);
            && (goLeft ==> forall x :: x in Contents(other) ==> Coord(x.position, ax) >= Coord(n.point.position, ax))
            && (!goLeft ==> forall x :: x in Contents(other) ==> Coord(x.position, ax) < Coord(n.point.position, ax))
  {
  }

  /** A pruned child holds no point closer than the best so far. */
  lemma PruneSafe(q: PointData, other: Node, t: Vec3, ax: Axis, best: PointData, goLeft: bool,
                  dist: Vec3 -> real, gap: (Vec3, Axis) -> real)
    requires KdArena.PlaneBound(t, dist, gap) && gap(q.position, ax) >= dist(best.position)
    requires goLeft <==> Coord(t, ax) < Coord(q.position, ax)
    requires goLeft ==> forall x :: x in Contents(other) ==> Coord(x.position, ax) >= Coord(q.position, ax)
    requires !goLeft ==> forall x :: x in Contents(other) ==> Coord(x.position, ax) < Coord(q.position, ax)
    ensures forall x :: x in Contents(other) ==> dist(best.position) <= dist(x.position)
  {
    forall x | x in Contents(other) ensures dist(best.position) <= dist(x.position) {
      assert KdArena.FarSide(t, q.position, x.position, ax);
    }
  }

  /** The second half of a visit: pruned or searched, the other child holds nothing closer. */
  lemma {:induction false} OtherSideBeats(n: Node, t: Vec3, depth: nat, nb2: Option<PointData>, goLeft: bool,
                                          dist: Vec3 -> real, gap: (Vec3, Axis) -> real)
    requires n.Node? && Ordered(n, depth) && KdArena.PlaneBound(t, dist, gap) && nb2.Some?
    requires goLeft <==> ComparePoints(t, n.point.position, AxisOf(depth)) < 0
    ensures var other := if goLeft then n.right else n.left;
            var r := if gap(n.point.position, AxisOf(depth)) < dist(nb2.value.position)
                     then NearestIn(other, t, depth + 1, nb2, dist, gap) else nb2;
            && dist(r.value.position) <= dist(nb2.value.position)
            && forall x :: x in Contents(other) ==> dist(r.value.position) <= dist(x.position)
    decreases n, 0
  {
    var other := if goLeft then n.right else n.left;
    if gap(n.point.position, AxisOf(depth)) < dist(nb2.value.position) {
      NearestInBeats(other, t, depth + 1, nb2, dist, gap);
      NearestInSource(other, t, depth + 1, nb2, dist, gap);
    } else {
      OrderedSides(n, depth, goLeft);
      PruneSafe(n.point, other, t, AxisOf(depth), nb2.value, goLeft, dist, gap);
    }
  }

  /** Pruning never discards a closer point: the result beats every point of the subtree. */
  lemma {:induction false} NearestInBeats(n: Node, t: Vec3, depth: nat, best: Option<PointData>,
                                          dist: Vec3 -> real, gap: (Vec3, Axis) -> real)
    requires Ordered(n, depth) && KdArena.PlaneBound(t, dist, gap)
    ensures var r := NearestIn(n, t, depth, best, dist, gap);
            forall x :: x in Contents(n) ==> dist(r.value.position) <= dist(x.position)
    decreases n, 1
  {
    match n
    case Nil =>
    case Node(q, l, rt) =>
      var nb := Closer(q, best, dist);
      var goLeft := ComparePoints(t, q.position, AxisOf(depth)) < 0;
      var next, other := if goLeft then l else rt, if goLeft then rt else l;
      var nb2 := NearestIn(next, t, depth + 1, nb, dist, gap);
      var r := NearestIn(n, t, depth, best, dist, gap);
      NearestInBeats(next, t, depth + 1, nb, dist, gap);
      NearestInSource(next, t, depth + 1, nb, dist, gap);
      OtherSideBeats(n, t, depth, nb2, goLeft, dist, gap);
      assert r == if gap(q.position, AxisOf(depth)) < dist(nb2.value.position)
                  then NearestIn(other, t, depth + 1, nb2, dist, gap) else nb2;
      var d := dist(r.value.position);
      assert d <= dist(nb2.value.position) <= dist(nb.value.position) <= dist(q.position);
      forall x | x in Contents(next) ensures d <= dist(x.position) {
        assert dist(nb2.value.position) <= dist(x.position);
      }
      BoundAtNode(n, goLeft, d, dist);
  }

  /** A bound that holds at a node's point and on both children holds on the whole subtree. */
  lemma BoundAtNode(n: Node, goLeft: bool, d: real, dist: Vec3 -> real)
    requires n.Node? && d <= dist(n.point.position)
    requires forall x :: x in Contents(if goLeft then n.left else n.right) ==> d <= dist(x.position)
    requires forall x :: x in Contents(if goLeft then n.right else n.left) ==> d <= dist(x.position)
    ensures forall x :: x in Contents(n) ==> d <= dist(x.position)
  {
  }

  /** Heights: 0 for an empty subtree, otherwise one more than the taller child. */
  function Height(n: Node): nat {
    match n
    case Nil => 0
    case Node(_, l, r) => 1 + (if Height(l) >= Height(r) then Height(l) else Height(r))
  }

  lemma {:induction false} HeightBounds(n: Node)
    ensures Height(n) <= Size(n)
    ensures Height(n) == 0 <==> n == Nil
    decreases n
  {
    match n
    case Nil =>
    case Node(_, l, r) => HeightBounds(l); HeightBounds(r);
  }

  /** The sum of the levels of all nodes when the subtree's root is at level `h`. */
  function SumLevels(n: Node, h: int): int {
    match n
    case Nil => 0
    case Node(_, l, r) => h + SumLevels(l, h + 1) + SumLevels(r, h + 1)
  }

  /** No node sits below the subtree's last level. */
  lemma {:induction false} SumLevelsBound(n: Node, h: int)
    ensures SumLevels(n, h) <= Size(n) * (h + Height(n) - 1)
    decreases n
  {
    match n
    case Nil =>
    case Node(_, l, r) =>
      SumLevelsBound(l, h + 1);
      SumLevelsBound(r, h + 1);
      LevelStep(h, Size(l), Size(r), Height(l), Height(r), Height(n), SumLevels(l, h + 1), SumLevels(r, h + 1));
  }

  /** `CalculateHeightStats(node, currentHeight, ref totalHeight, ref nodeCount)`. */
  method CalculateHeightStats(n: Node, currentHeight: int, totalIn: int, countIn: int)
    returns (total: int, count: int)
    ensures total == totalIn + SumLevels(n, currentHeight)
    ensures count == countIn + Size(n)
    decreases n
  {
    total, count := totalIn, countIn;
    if n == Nil {
      return;
    }
    total := total + currentHeight;
    count := count + 1;
    total, count := CalculateHeightStats(n.left, currentHeight + 1, total, count);
    total, count := CalculateHeightStats(n.right, currentHeight + 1, total, count);
  }

  /** The average level, root at level 1: 0 for an empty tree. */
  function AverageLevel(n: Node): (avg: real)
    ensures n == Nil ==> avg == 0.0
    ensures 0.0 <= avg <= Height(n) as real
  {
    if Size(n) == 0 then 0.0
    else
      SumLevelsBound(n, 1);
      SumLevelsNonNegative(n, 1);
      DivBound(SumLevels(n, 1), Size(n), Height(n));
      SumLevels(n, 1) as real / Size(n) as real
  }

  lemma {:induction false} SumLevelsNonNegative(n: Node, h: int)
    requires h >= 0
    ensures SumLevels(n, h) >= 0
    decreases n
  {
    match n
    case Nil =>
    case Node(_, l, r) => SumLevelsNonNegative(l, h + 1); SumLevelsNonNegative(r, h + 1);
  }

  class KDTree {
    var root: Node

    constructor ()
      ensures root == Nil
    {
      root := Nil;
    }

    ghost predicate Valid()
      reads this
    {
      Ordered(root, 0)
    }

    /** `Insert(point)`: the root is replaced by the tree with the point added. */
    method Insert(point: PointData)
      requires Valid()
      modifies this
      ensures Valid()
      ensures root == InsertAt(old(root), point, 0)
      ensures Contents(root) == old(Contents(root)) + multiset{point}
    {
      InsertOrdered(root, point, 0);
      InsertContents(root, point, 0);
      root := InsertAt(root, point, 0);
    }

    /** `FindNearest(target)`: `None` for an empty tree, otherwise a stored point closest to the target. */
    function FindNearest(target: Vec3): (r: Option<PointData>)
      reads this
      requires Valid()
      ensures r.None? <==> root == Nil
      ensures r.Some? ==>
        && r.value in Contents(root)
        && forall x :: x in Contents(root) ==> DistSq(target, r.value.position) <= DistSq(target, x.position)
    {
      KdArena.EuclideanPlaneBound(target);
      NearestInBeats(root, target, 0, None, KdArena.DistTo(target), KdArena.GapTo(target));
      NearestInSource(root, target, 0, None, KdArena.DistTo(target), KdArena.GapTo(target));
      NearestIn(root, target, 0, None, KdArena.DistTo(target), KdArena.GapTo(target))
    }

    function GetMaxHeight(): (h: nat)
      reads this
      ensures h == 0 <==> root == Nil
      ensures h <= Size(root)
    {
      HeightBounds(root);
      Height(root)
    }

    /** `GetAverageHeight()`: the accumulated levels over the node count, or 0. */
    method GetAverageHeight() returns (avg: real)
      ensures avg == AverageLevel(root)
      ensures 0.0 <= avg <= Height(root) as real
    {
      var totalHeight, nodeCount := CalculateHeightStats(root, 1, 0, 0);
      avg := if nodeCount == 0 then 0.0 else totalHeight as real / nodeCount as real;
    }
  }
}
