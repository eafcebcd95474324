/**
 * `BurstOctree`: an arena octree over `PointData`. Nodes live in a list and refer to
 * their eight children by index (-1 for none); each leaf holds up to eight points as a
 * slice of a shared index buffer. Insertion routes through `InsertPoint`, whose
 * recursion is bounded here by a `fuel` argument: running out of fuel stands for the
 * source's recursion not having returned yet.
 */
module Octree {
  import opened Geometry
  import opened Wrappers
  import opened Points

  const MaxPointsPerNode := 8

  datatype AABB = AABB(min: Vec3, max: Vec3)

  function Center(b: AABB): Vec3 {
    Scale(Add(b.min, b.max), 0.5)
  }

  /** Inclusive on all six faces. */
  predicate Contains(b: AABB, p: Vec3) {
    && b.min.x <= p.x <= b.max.x
    && b.min.y <= p.y <= b.max.y
    && b.min.z <= p.z <= b.max.z
  }

  /** `math.clamp(x, lo, hi)`. */
  function Clamp(x: real, lo: real, hi: real): real {
    if lo > (if x < hi then x else hi) then lo else if x < hi then x else hi
  }

  function ClampInto(b: AABB, c: Vec3): Vec3 {
    Vec3(Clamp(c.x, b.min.x, b.max.x), Clamp(c.y, b.min.y, b.max.y), Clamp(c.z, b.min.z, b.max.z))
  }

  /** The squared distance from `c` to the box, taken through its clamp into the box. */
  function BoxDistSq(b: AABB, c: Vec3): real {
    DistSq(ClampInto(b, c), c)
  }

  predicate IntersectsSphere(b: AABB, c: Vec3, radius: real) {
    BoxDistSq(b, c) <= radius * radius
  }

  /** On one axis, the clamp is at least as close to `x` as any coordinate inside. */
  lemma ClampAxis(x: real, lo: real, hi: real, p: real)
    requires lo <= p <= hi
    ensures Sq(Clamp(x, lo, hi) - x) <= Sq(p - x)
  {
    var k := Clamp(x, lo, hi);
    if x < lo {
      assert k == lo;
      SqMonotone(lo - x, p - x);
    } else if x > hi {
      assert k == hi;
      SqMonotone(x - hi, x - p);
      assert Sq(x - hi) == Sq(hi - x) && Sq(x - p) == Sq(p - x);
    } else {
      assert k == x;
      SqNonNegative(p - x);
    }
  }

  /** A point inside the box is no closer to `c` than the box itself. */
  lemma BoxDistBelow(b: AABB, c: Vec3, p: Vec3)
    requires Contains(b, p)
    ensures BoxDistSq(b, c) <= DistSq(p, c)
  {
    ClampAxis(c.x, b.min.x, b.max.x, p.x);
    ClampAxis(c.y, b.min.y, b.max.y, p.y);
    ClampAxis(c.z, b.min.z, b.max.z, p.z);
  }

  /** Pruning is safe: a box that misses the sphere holds no point within the radius. */
  lemma PruneSound(b: AABB, c: Vec3, radius: real, p: Vec3)
    requires !IntersectsSphere(b, c, radius) && Contains(b, p)
    ensures DistSq(p, c) > radius * radius
  {
    BoxDistBelow(b, c, p);
  }

  /** A box always meets a sphere centred inside it. */
  lemma CenterInsideIntersects(b: AABB, c: Vec3, radius: real)
    requires Contains(b, c)
    ensures IntersectsSphere(b, c, radius)
  {
    assert ClampInto(b, c) == c;
    SqNonNegative(radius);
  }

  /** Octant number of `p`: bit 1, 2, 4 set when x, y, z lie strictly above the centre. */
  function GetChildIndex(b: AABB, p: Vec3): (r: int)
    ensures 0 <= r < 8
    ensures (r % 2 == 1) == (p.x > Center(b).x)
    ensures ((r / 2) % 2 == 1) == (p.y > Center(b).y)
    ensures (r / 4 == 1) == (p.z > Center(b).z)
  {
    var c := Center(b);
    (if p.x > c.x then 1 else 0) + (if p.y > c.y then 2 else 0) + (if p.z > c.z then 4 else 0)
  }

  /** The octant box: on each axis the upper half `[centre, max]` if the flag is set, else `[min, centre]`. */
  function ChildAABB(b: AABB, x: bool, y: bool, z: bool): AABB {
    var c := Center(b);
    AABB(Vec3(if x then c.x else b.min.x, if y then c.y else b.min.y, if z then c.z else b.min.z),
         Vec3(if x then b.max.x else c.x, if y then b.max.y else c.y, if z then b.max.z else c.z))
  }

  /** Child `k`'s box, its flags read from the bits of `k`. */
  function ChildBox(b: AABB, k: int): AABB
    requires 0 <= k < 8
  {
    ChildAABB(b, k % 2 == 1, (k / 2) % 2 == 1, k / 4 == 1)
  }

  /** Routing by octant is right geometrically: the octant's box holds the point. */
  lemma ChildIndexContains(b: AABB, p: Vec3)
    requires Contains(b, p)
    ensures Contains(ChildBox(b, GetChildIndex(b, p)), p)
  {
  }

  /** Each octant box lies inside its parent. */
  lemma ChildBoxInside(b: AABB, k: int, p: Vec3)
    requires 0 <= k < 8
    requires b.min.x <= b.max.x && b.min.y <= b.max.y && b.min.z <= b.max.z
    requires Contains(ChildBox(b, k), p)
    ensures Contains(b, p)
  {
  }

  /**
   * A node: its box, the eight child indices `Child0`..`Child7` as `children`, and the
   * slice `[PointStartIndex, PointStartIndex + PointCount)` of the index buffer.
   */
  datatype OctreeNode = OctreeNode(bounds: AABB, children: seq<int>, pointStartIndex: int, pointCount: int)

  const NoChildren: seq<int> := [-1, -1, -1, -1, -1, -1, -1, -1]

  function NewNode(bounds: AABB): (n: OctreeNode)
    ensures IsLeaf(n) && n.pointCount == 0 && n.pointStartIndex == -1
  {
    OctreeNode(bounds, NoChildren, -1, 0)
  }

  predicate IsLeaf(n: OctreeNode) {
    forall k :: 0 <= k < |n.children| ==> n.children[k] == -1
  }

  /** `GetChildAt(node, i)`. */
  function GetChildAt(n: OctreeNode, i: int): int
    requires 0 <= i < |n.children|
  {
    n.children[i]
  }

  /** The children `Subdivide` creates: eight consecutive fresh indices. */
  function ChildRange(base: int): seq<int> {
    [base, base + 1, base + 2, base + 3, base + 4, base + 5, base + 6, base + 7]
  }

  /** The eight empty leaves `Subdivide` appends, in octant order. */
  function Octants(b: AABB): (r: seq<OctreeNode>)
    ensures |r| == 8
    ensures forall k :: 0 <= k < 8 ==> r[k] == NewNode(ChildBox(b, k))
  {
    [NewNode(ChildAABB(b, false, false, false)), NewNode(ChildAABB(b, true, false, false)),
     NewNode(ChildAABB(b, false, true, false)), NewNode(ChildAABB(b, true, true, false)),
     NewNode(ChildAABB(b, false, false, true)), NewNode(ChildAABB(b, true, false, true)),
     NewNode(ChildAABB(b, false, true, true)), NewNode(ChildAABB(b, true, true, true))]
  }

  /** A leaf after taking one more point whose buffer entry goes at `next`. */
  function Accept(n: OctreeNode, next: int): OctreeNode {
    n.(pointStartIndex := if n.pointStartIndex == -1 then next else n.pointStartIndex,
       pointCount := n.pointCount + 1)
  }

  /** What a node holds: a count of 0..8, a start of -1 exactly when the count is 0, a slice of the buffer. */
  ghost predicate HeldOk(n: OctreeNode, bufLen: int) {
    && 0 <= n.pointCount <= MaxPointsPerNode
    && (n.pointStartIndex == -1 <==> n.pointCount == 0)
    && (n.pointCount > 0 ==> 0 <= n.pointStartIndex && n.pointStartIndex + n.pointCount <= bufLen)
  }

  /** A node's children: none, or eight consecutive later nodes holding the eight octant boxes. */
  ghost predicate ChildrenOk(nodes: seq<OctreeNode>, i: int)
    requires 0 <= i < |nodes|
  {
    var n := nodes[i];
    && |n.children| == 8
    && (IsLeaf(n)
        || (&& i < n.children[0] && n.children[0] + 8 <= |nodes|
            && n.children == ChildRange(n.children[0])
            && forall k :: 0 <= k < 8 ==> nodes[n.children[0] + k].bounds == ChildBox(n.bounds, k)))
  }

  ghost predicate ArenaOk(nodes: seq<OctreeNode>, buffer: seq<int>, pointsLen: int) {
    && |nodes| >= 1
    && (forall j :: 0 <= j < |buffer| ==> 0 <= buffer[j] < pointsLen)
    && (forall i :: 0 <= i < |nodes| ==> HeldOk(nodes[i], |buffer|) && ChildrenOk(nodes, i))
  }

  /** Nothing already there is lost: the tree only grows, boxes stay, subdivided nodes keep their children. */
  ghost predicate Grows(nodes0: seq<OctreeNode>, nodes: seq<OctreeNode>, buffer0: seq<int>, buffer: seq<int>) {
    && |nodes0| <= |nodes| && |buffer0| <= |buffer| && buffer[..|buffer0|] == buffer0
    && forall i :: 0 <= i < |nodes0| ==>
         nodes[i].bounds == nodes0[i].bounds && (!IsLeaf(nodes0[i]) ==> nodes[i].children == nodes0[i].children)
  }

  lemma GrowsTrans(n0: seq<OctreeNode>, n1: seq<OctreeNode>, n2: seq<OctreeNode>, b0: seq<int>, b1: seq<int>, b2: seq<int>)
    requires Grows(n0, n1, b0, b1) && Grows(n1, n2, b1, b2)
    ensures Grows(n0, n2, b0, b2)
  {
    assert b2[..|b0|] == b2[..|b1|][..|b0|];
  }

  /** The point indices a node's slice names: none when it holds no points. */
  ghost function Held(n: OctreeNode, buffer: seq<int>): (ids: seq<int>)
    requires HeldOk(n, |buffer|)
    ensures |ids| == n.pointCount
  {
    if n.pointCount == 0 then [] else buffer[n.pointStartIndex..n.pointStartIndex + n.pointCount]
  }

  /** Every point of `ids` that lies in the box `b` has an entry appended to the buffer since `buffer0`. */
  ghost predicate Recorded(points: seq<PointData>, b: AABB, ids: seq<int>, buffer0: seq<int>, buffer: seq<int>) {
    && |buffer0| <= |buffer|
    && forall j :: 0 <= j < |ids| && 0 <= ids[j] < |points| && Contains(b, points[ids[j]].position) ==>
         ids[j] in buffer[|buffer0|..]
  }

  /** An entry appended after `b1` is also appended after any earlier `b0`. */
  lemma LaterEntry(b0: seq<int>, b1: seq<int>, b: seq<int>, x: int)
    requires |b0| <= |b1| <= |b| && b[..|b1|] == b1 && x in b[|b1|..]
    ensures x in b[|b0|..]
  {
    var j :| 0 <= j < |b[|b1|..]| && b[|b1|..][j] == x;
    assert b[|b0|..][|b1| - |b0| + j] == x;
  }

  /** Entries appended after `b0` stay in the buffer as it grows. */
  lemma KeptEntry(b0: seq<int>, b1: seq<int>, b: seq<int>, x: int)
    requires |b0| <= |b1| <= |b| && b[..|b1|] == b1 && x in b1[|b0|..]
    ensures x in b[|b0|..]
  {
    var j :| 0 <= j < |b1[|b0|..]| && b1[|b0|..][j] == x;
    assert b[|b0|..][j] == b1[|b0| + j];
  }

  /** What is recorded stays recorded as the buffer grows. */
  lemma RecordedGrows(points: seq<PointData>, b: AABB, ids: seq<int>, b0: seq<int>, b1: seq<int>, buffer: seq<int>)
    requires Recorded(points, b, ids, b0, b1) && |b1| <= |buffer| && buffer[..|b1|] == b1
    ensures Recorded(points, b, ids, b0, buffer)
  {
    forall j | 0 <= j < |ids| && 0 <= ids[j] < |points| && Contains(b, points[ids[j]].position)
      ensures ids[j] in buffer[|b0|..]
    {
      KeptEntry(b0, b1, buffer, ids[j]);
    }
  }

  /** One more point of `ids` recorded, the earlier ones kept as the buffer grows. */
  lemma RecordedSnoc(points: seq<PointData>, b: AABB, ids: seq<int>, i: int, b0: seq<int>, b1: seq<int>, buffer: seq<int>)
    requires 0 <= i < |ids| && Recorded(points, b, ids[..i], b0, b1)
    requires |b1| <= |buffer| && buffer[..|b1|] == b1
    requires 0 <= ids[i] < |points| && Contains(b, points[ids[i]].position) ==> ids[i] in buffer[|b0|..]
    ensures Recorded(points, b, ids[..i + 1], b0, buffer)
  {
    RecordedGrows(points, b, ids[..i], b0, b1, buffer);
    forall j | 0 <= j < i + 1 ensures ids[..i + 1][j] == (if j < i then ids[..i][j] else ids[i]) {
    }
  }

  /** One point of a split node's slice entered again below it: the loop's state one step on. */
  lemma Reinserted(points: seq<PointData>, b: AABB, childBox: AABB, ids: seq<int>, i: int,
                   n0: seq<OctreeNode>, n1: seq<OctreeNode>, n: seq<OctreeNode>, b0: seq<int>, b1: seq<int>, buffer: seq<int>)
    requires Grows(n0, n1, b0, b1) && Grows(n1, n, b1, buffer)
    requires 0 <= i < |ids| && 0 <= ids[i] < |points| && Recorded(points, b, ids[..i], b0, b1)
    requires Contains(b, points[ids[i]].position) ==> Contains(childBox, points[ids[i]].position)
    requires Contains(childBox, points[ids[i]].position) ==> ids[i] in buffer[|b1|..]
    ensures Grows(n0, n, b0, buffer) && Recorded(points, b, ids[..i + 1], b0, buffer)
  {
    GrowsTrans(n0, n1, n, b0, b1, buffer);
    if Contains(b, points[ids[i]].position) {
      LaterEntry(b0, b1, buffer, ids[i]);
    }
    RecordedSnoc(points, b, ids, i, b0, b1, buffer);
  }

  /** Replacing a node's point slice keeps the arena sound. */
  lemma ReplaceKeeps(nodes: seq<OctreeNode>, buffer: seq<int>, pointsLen: int, i: int, n: OctreeNode)
    requires ArenaOk(nodes, buffer, pointsLen) && 0 <= i < |nodes|
    requires n.bounds == nodes[i].bounds && n.children == nodes[i].children && HeldOk(n, |buffer|)
    ensures ArenaOk(nodes[i := n], buffer, pointsLen)
    ensures Grows(nodes, nodes[i := n], buffer, buffer)
  {
    var nodes' := nodes[i := n];
    forall j | 0 <= j < |nodes'| ensures HeldOk(nodes'[j], |buffer|) && ChildrenOk(nodes', j) {
      assert ChildrenOk(nodes, j);
    }
    assert buffer[..|buffer|] == buffer;
  }

  /** Appending a valid point index to the buffer keeps the arena sound. */
  lemma AppendKeeps(nodes: seq<OctreeNode>, buffer: seq<int>, pointsLen: int, j: int)
    requires ArenaOk(nodes, buffer, pointsLen) && 0 <= j < pointsLen
    ensures ArenaOk(nodes, buffer + [j], pointsLen)
    ensures Grows(nodes, nodes, buffer, buffer + [j])
  {
    forall i | 0 <= i < |nodes| ensures HeldOk(nodes[i], |buffer| + 1) && ChildrenOk(nodes, i) {
      assert HeldOk(nodes[i], |buffer|) && ChildrenOk(nodes, i);
    }
    assert (buffer + [j])[..|buffer|] == buffer;
  }

  /** Subdividing a leaf keeps the arena sound. */
  lemma SubdivideKeeps(nodes: seq<OctreeNode>, buffer: seq<int>, pointsLen: int, i: int)
    requires ArenaOk(nodes, buffer, pointsLen) && 0 <= i < |nodes| && IsLeaf(nodes[i])
    ensures var nodes' := nodes[i := nodes[i].(children := ChildRange(|nodes|))] + Octants(nodes[i].bounds);
            ArenaOk(nodes', buffer, pointsLen) && Grows(nodes, nodes', buffer, buffer)
  {
    var b := nodes[i].bounds;
    var nodes' := nodes[i := nodes[i].(children := ChildRange(|nodes|))] + Octants(b);
    assert forall m :: 0 <= m < |nodes| ==> nodes'[m].bounds == nodes[m].bounds;
    forall j | 0 <= j < |nodes'| ensures HeldOk(nodes'[j], |buffer|) && ChildrenOk(nodes', j) {
      if j < |nodes| && j != i {
        assert HeldOk(nodes[j], |buffer|) && ChildrenOk(nodes, j);
        ChildrenOkExtend(nodes, nodes', j);
      } else if j == i {
        ParentOk(nodes, nodes', i);
      } else {
        assert nodes'[j] == Octants(b)[j - |nodes|];
      }
    }
    assert buffer[..|buffer|] == buffer;
  }

  /** An unchanged node keeps sound children when the list grows and no box changes. */
  lemma ChildrenOkExtend(nodes: seq<OctreeNode>, nodes': seq<OctreeNode>, j: int)
    requires 0 <= j < |nodes| <= |nodes'| && nodes'[j] == nodes[j] && ChildrenOk(nodes, j)
    requires forall m :: 0 <= m < |nodes| ==> nodes'[m].bounds == nodes[m].bounds
    ensures ChildrenOk(nodes', j)
  {
  }

  lemma ParentOk(nodes: seq<OctreeNode>, nodes': seq<OctreeNode>, i: int)
    requires 0 <= i < |nodes|
    requires nodes' == nodes[i := nodes[i].(children := ChildRange(|nodes|))] + Octants(nodes[i].bounds)
    ensures ChildrenOk(nodes', i)
  {
    var b := nodes[i].bounds;
    forall k | 0 <= k < 8 ensures nodes'[|nodes| + k].bounds == ChildBox(b, k) {
      assert nodes'[|nodes| + k] == Octants(b)[k];
    }
  }

  /** The ordering of candidate nearest points: index and squared distance. */
  datatype Best = Best(index: int, dist: real)

  /** Take point `j` when none is held yet or it is strictly closer. */
  function Improve(points: seq<PointData>, best: Option<Best>, j: int, target: Vec3): Option<Best>
    requires 0 <= j < |points|
  {
    var d := DistSq(points[j].position, target);
    if best.None? || d < best.value.dist then Some(Best(j, d)) else best
  }

  /** The leaf scan over the point indices `ids`, in buffer order. */
  function Scan(points: seq<PointData>, ids: seq<int>, target: Vec3, best: Option<Best>): Option<Best>
    requires forall j :: 0 <= j < |ids| ==> 0 <= ids[j] < |points|
  {
    if ids == [] then best else Scan(points, ids[1..], target, Improve(points, best, ids[0], target))
  }

  /** A candidate names a real point at its recorded squared distance. */
  ghost predicate Names(points: seq<PointData>, b: Option<Best>, target: Vec3) {
    b.Some? ==> 0 <= b.value.index < |points| && b.value.dist == DistSq(points[b.value.index].position, target)
  }

  /** The result only ever moves to a strictly closer point. */
  ghost predicate ImprovesOn(r: Option<Best>, best: Option<Best>) {
    r == best || (r.Some? && (best.None? || r.value.dist < best.value.dist))
  }

  /**
   * The scan ends at a point no farther than every point it saw, names a real point,
   * and replaces the incoming candidate only on a strictly smaller distance.
   */
  lemma {:induction false} ScanSpec(points: seq<PointData>, ids: seq<int>, target: Vec3, best: Option<Best>)
    requires forall j :: 0 <= j < |ids| ==> 0 <= ids[j] < |points|
    requires Names(points, best, target)
    ensures var r := Scan(points, ids, target, best);
            && Names(points, r, target)
            && ImprovesOn(r, best)
            && (ids != [] ==> r.Some?)
            && forall j :: 0 <= j < |ids| ==> r.value.dist <= DistSq(points[ids[j]].position, target)
  {
    if ids != [] {
      var b1 := Improve(points, best, ids[0], target);
      ScanSpec(points, ids[1..], target, b1);
      var r := Scan(points, ids[1..], target, b1);
      forall j | 0 <= j < |ids| ensures r.value.dist <= DistSq(points[ids[j]].position, target) {
        if j > 0 {
          assert ids[j] == ids[1..][j - 1];
        }
      }
    }
  }

  function LeafIds(nodes: seq<OctreeNode>, buffer: seq<int>, k: int): (ids: seq<int>)
    requires 0 <= k < |nodes| && HeldOk(nodes[k], |buffer|) && nodes[k].pointCount > 0
    ensures |ids| == nodes[k].pointCount
  {
    buffer[nodes[k].pointStartIndex..nodes[k].pointStartIndex + nodes[k].pointCount]
  }

  /** The pruning test with the current best distance as radius; with no candidate every box passes. */
  predicate Reaches(b: AABB, target: Vec3, best: Option<Best>) {
    best.None? || BoxDistSq(b, target) <= best.value.dist
  }

  /** With a radius `r >= 0` whose square is the best distance, the test is `IntersectsSphere`. */
  lemma ReachesIsIntersects(b: AABB, target: Vec3, best: Option<Best>, r: real)
    requires best.Some? && best.value.dist == r * r
    ensures Reaches(b, target, best) == IntersectsSphere(b, target, r)
  {
  }

  /** `FindNearestRecursive` from node `k` (-1 for none). */
  ghost function NearestFrom(nodes: seq<OctreeNode>, buffer: seq<int>, points: seq<PointData>,
                             k: int, target: Vec3, best: Option<Best>): Option<Best>
    requires ArenaOk(nodes, buffer, |points|) && -1 <= k < |nodes|
    decreases |nodes| - k, 9
  {
    if k == -1 then best
    else if IsLeaf(nodes[k]) && nodes[k].pointCount > 0 then Scan(points, LeafIds(nodes, buffer, k), target, best)
    else ChildrenFrom(nodes, buffer, points, k, 0, target, best)
  }

  /** The child loop of `FindNearestRecursive`, from child `i` on. */
  ghost function ChildrenFrom(nodes: seq<OctreeNode>, buffer: seq<int>, points: seq<PointData>,
                              k: int, i: int, target: Vec3, best: Option<Best>): Option<Best>
    requires ArenaOk(nodes, buffer, |points|) && 0 <= k < |nodes| && 0 <= i <= 8
    decreases |nodes| - k, 8 - i
  {
    assert ChildrenOk(nodes, k);
    if i == 8 then best
    else
      var child := GetChildAt(nodes[k], i);
      if child == -1 then ChildrenFrom(nodes, buffer, points, k, i + 1, target, best)
      else
        var b1 := if Reaches(nodes[child].bounds, target, best)
                  then NearestFrom(nodes, buffer, points, child, target, best) else best;
        ChildrenFrom(nodes, buffer, points, k, i + 1, target, b1)
  }

  /** The search result names a stored point and only ever improves strictly on the incoming best. */
  lemma {:induction false} NearestFromSpec(nodes: seq<OctreeNode>, buffer: seq<int>, points: seq<PointData>,
                                           k: int, target: Vec3, best: Option<Best>)
    requires ArenaOk(nodes, buffer, |points|) && -1 <= k < |nodes| && Names(points, best, target)
    ensures var r := NearestFrom(nodes, buffer, points, k, target, best);
            Names(points, r, target) && ImprovesOn(r, best)
    decreases |nodes| - k, 9
  {
    if k != -1 {
      if IsLeaf(nodes[k]) && nodes[k].pointCount > 0 {
        var ids := LeafIds(nodes, buffer, k);
        forall j | 0 <= j < |ids| ensures 0 <= ids[j] < |points| {
          assert ids[j] == buffer[nodes[k].pointStartIndex + j];
        }
        ScanSpec(points, ids, target, best);
      } else {
        ChildrenFromSpec(nodes, buffer, points, k, 0, target, best);
      }
    }
  }

  lemma {:induction false} ChildrenFromSpec(nodes: seq<OctreeNode>, buffer: seq<int>, points: seq<PointData>,
                                            k: int, i: int, target: Vec3, best: Option<Best>)
    requires ArenaOk(nodes, buffer, |points|) && 0 <= k < |nodes| && 0 <= i <= 8 && Names(points, best, target)
    ensures var r := ChildrenFrom(nodes, buffer, points, k, i, target, best);
            Names(points, r, target) && ImprovesOn(r, best)
    decreases |nodes| - k, 8 - i
  {
    assert ChildrenOk(nodes, k);
    if i < 8 {
      var child := GetChildAt(nodes[k], i);
      if child == -1 {
        ChildrenFromSpec(nodes, buffer, points, k, i + 1, target, best);
      } else {
        var b1 := if Reaches(nodes[child].bounds, target, best)
                  then NearestFrom(nodes, buffer, points, child, target, best) else best;
        if Reaches(nodes[child].bounds, target, best) {
          NearestFromSpec(nodes, buffer, points, child, target, best);
        }
        ChildrenFromSpec(nodes, buffer, points, k, i + 1, target, b1);
      }
    }
  }

  /**
   * Routing as the source intends it: the child at the point's octant. It is a later
   * node whose box holds the point whenever the parent's box does.
   */
  function RoutedChild(nodes: seq<OctreeNode>, buffer: seq<int>, pointsLen: int, i: int, p: Vec3): (r: int)
    requires ArenaOk(nodes, buffer, pointsLen) && 0 <= i < |nodes| && !IsLeaf(nodes[i])
    ensures i < r < |nodes|
    ensures Contains(nodes[i].bounds, p) ==> Contains(nodes[r].bounds, p)
  {
    assert ChildrenOk(nodes, i);
    var k := GetChildIndex(nodes[i].bounds, p);
    assert Contains(nodes[i].bounds, p) ==> Contains(ChildBox(nodes[i].bounds, k), p) by {
      if Contains(nodes[i].bounds, p) {
        ChildIndexContains(nodes[i].bounds, p);
      }
    }
    GetChildAt(nodes[i], k)
  }

  /**
   * The octant number is not a node index: once the root of a unit box is subdivided,
   * the point (0.25, 0.25, 0.25) lies in octant 0, which the source takes as node 0,
   * the root itself, while the child holding that octant is node 1.
   */
  lemma OctantIsNotChild()
    ensures var root := AABB(Vec3(0.0, 0.0, 0.0), Vec3(1.0, 1.0, 1.0));
            var nodes := [NewNode(root).(children := ChildRange(1))] + Octants(root);
            var p := Vec3(0.25, 0.25, 0.25);
            && ArenaOk(nodes, [], 0)
            && Contains(nodes[0].bounds, p) && !IsLeaf(nodes[0])
            && GetChildIndex(root, p) == 0
            && RoutedChild(nodes, [], 0, 0, p) == 1
  {
    var root := AABB(Vec3(0.0, 0.0, 0.0), Vec3(1.0, 1.0, 1.0));
    var leaf := [NewNode(root)];
    assert ArenaOk(leaf, [], 0) by {
      assert ChildrenOk(leaf, 0);
    }
    SubdivideKeeps(leaf, [], 0, 0);
  }

  /**
   * A leaf's slice is contiguous only while no other leaf takes a point in between: leaf
   * A takes point 0, leaf B point 1, then A point 2; A's slice then names B's point 1
   * and misses its own point 2.
   */
  lemma InterleavedSlice(a: AABB, b: AABB)
    ensures var buffer := [0, 1, 2];
            var nodeA := Accept(Accept(NewNode(a), 0), 2);
            var nodeB := Accept(NewNode(b), 1);
            && HeldOk(nodeA, |buffer|) && HeldOk(nodeB, |buffer|)
            && Held(nodeA, buffer) == [0, 1] && Held(nodeB, buffer) == [1]
  {
  }

  class BurstOctree {
    var nodes: seq<OctreeNode>
    var points: seq<PointData>
    /** `PointIndexBuffer`: node slices name points by index into `points`. */
    var pointIndexBuffer: seq<int>
    var pointIndexCount: int

    ghost predicate Valid()
      reads this
    {
      ArenaOk(nodes, pointIndexBuffer, |points|) && pointIndexCount == |pointIndexBuffer|
    }

    /** One root leaf with the world bounds, no points. */
    constructor (worldBounds: AABB)
      ensures Valid()
      ensures nodes == [NewNode(worldBounds)] && points == [] && pointIndexBuffer == []
    {
      nodes := [NewNode(worldBounds)];
      points := [];
      pointIndexBuffer := [];
      pointIndexCount := 0;
      new;
      assert ChildrenOk(nodes, 0);
    }

    /** Appends the point to the global list, then routes it from the root. */
    method Insert(point: PointData, fuel: nat) returns (ok: bool)
      requires Valid()
      modifies this
      ensures Valid()
      ensures points == old(points) + [point]
      ensures Grows(old(nodes), nodes, old(pointIndexBuffer), pointIndexBuffer)
      // A point inside the world box gets an entry in the index buffer.
      ensures ok && Contains(old(nodes)[0].bounds, point.position)
              ==> |old(points)| in pointIndexBuffer[|old(pointIndexBuffer)|..]
      // A point outside it is kept in the list but enters no node.
      ensures !Contains(old(nodes)[0].bounds, point.position)
              ==> ok && nodes == old(nodes) && pointIndexBuffer == old(pointIndexBuffer)
    {
      var pointIndex := |points|;
      points := points + [point];
      ok := InsertPoint(0, pointIndex, fuel);
    }

    /** Routes the point down from `nodeIndex`, through the child of its octant. */
    method InsertPoint(nodeIndex: int, pointIndex: int, fuel: nat) returns (ok: bool)
      requires Valid() && 0 <= nodeIndex < |nodes| && 0 <= pointIndex < |points|
      modifies this
      decreases fuel, 0
      ensures Valid() && points == old(points)
      ensures Grows(old(nodes), nodes, old(pointIndexBuffer), pointIndexBuffer)
      // A point outside the node's box is ignored.
      ensures !Contains(old(nodes)[nodeIndex].bounds, points[pointIndex].position)
              ==> ok && nodes == old(nodes) && pointIndexBuffer == old(pointIndexBuffer)
      // A leaf with room takes the point into its slice.
      ensures && Contains(old(nodes)[nodeIndex].bounds, points[pointIndex].position)
              && IsLeaf(old(nodes)[nodeIndex]) && old(nodes)[nodeIndex].pointCount < MaxPointsPerNode
              ==> && ok
                  && nodes == old(nodes)[nodeIndex := Accept(old(nodes)[nodeIndex], |old(pointIndexBuffer)|)]
                  && pointIndexBuffer == old(pointIndexBuffer) + [pointIndex]
      // Wherever it goes, a point inside the box gets an entry in the index buffer.
      ensures ok && Contains(old(nodes)[nodeIndex].bounds, points[pointIndex].position)
              ==> pointIndex in pointIndexBuffer[|old(pointIndexBuffer)|..]
      // A full leaf splits, and every point of its slice inside its box gets a new entry.
      ensures && ok && Contains(old(nodes)[nodeIndex].bounds, points[pointIndex].position)
              && IsLeaf(old(nodes)[nodeIndex]) && old(nodes)[nodeIndex].pointCount >= MaxPointsPerNode
              ==> && !IsLeaf(nodes[nodeIndex])
                  && Recorded(points, old(nodes)[nodeIndex].bounds, Held(old(nodes)[nodeIndex], old(pointIndexBuffer)),
                              old(pointIndexBuffer), pointIndexBuffer)
    {
      var node := nodes[nodeIndex];
      if !Contains(node.bounds, points[pointIndex].position) {
        assert pointIndexBuffer[..|pointIndexBuffer|] == pointIndexBuffer;
        return true;
      }
      if IsLeaf(node) && node.pointCount < MaxPointsPerNode {
        AddToLeaf(nodeIndex, pointIndex);
        assert pointIndexBuffer[|old(pointIndexBuffer)|..] == [pointIndex];
        return true;
      }
      if fuel == 0 {
        assert pointIndexBuffer[..|pointIndexBuffer|] == pointIndexBuffer;
        return false;
      }
      if IsLeaf(node) {
        Subdivide(nodeIndex);
        assert nodes[nodeIndex].children[0] == |old(nodes)|;
        ghost var nodes1, buffer1 := nodes, pointIndexBuffer;
        assert Held(nodes1[nodeIndex], buffer1) == Held(node, old(pointIndexBuffer));
        ok := RedistributePoints(nodeIndex, fuel - 1);
        GrowsTrans(old(nodes), nodes1, nodes, old(pointIndexBuffer), buffer1, pointIndexBuffer);
        if !ok {
          return;
        }
        assert nodes[nodeIndex].children == nodes1[nodeIndex].children;
        node := nodes[nodeIndex];
      } else {
        assert pointIndexBuffer[..|pointIndexBuffer|] == pointIndexBuffer;
      }
      ghost var nodes2, buffer2 := nodes, pointIndexBuffer;
      var childIndex := RoutedChild(nodes, pointIndexBuffer, |points|, nodeIndex, points[pointIndex].position);
      ok := InsertPoint(childIndex, pointIndex, fuel - 1);
      GrowsTrans(old(nodes), nodes2, nodes, old(pointIndexBuffer), buffer2, pointIndexBuffer);
      if ok {
        LaterEntry(old(pointIndexBuffer), buffer2, pointIndexBuffer, pointIndex);
        if IsLeaf(old(nodes)[nodeIndex]) {
          RecordedGrows(points, node.bounds, Held(old(nodes)[nodeIndex], old(pointIndexBuffer)),
                        old(pointIndexBuffer), buffer2, pointIndexBuffer);
        }
      }
    }

    /** The leaf branch of `InsertPoint`: the point's index goes at the end of the buffer and the leaf's count grows. */
    method AddToLeaf(nodeIndex: int, pointIndex: int)
      requires Valid() && 0 <= nodeIndex < |nodes| && 0 <= pointIndex < |points|
      requires IsLeaf(nodes[nodeIndex]) && nodes[nodeIndex].pointCount < MaxPointsPerNode
      modifies this
      ensures Valid() && points == old(points)
      ensures Grows(old(nodes), nodes, old(pointIndexBuffer), pointIndexBuffer)
      ensures nodes == old(nodes)[nodeIndex := Accept(old(nodes)[nodeIndex], |old(pointIndexBuffer)|)]
      ensures pointIndexBuffer == old(pointIndexBuffer) + [pointIndex]
    {
      var node := nodes[nodeIndex];
      if node.pointStartIndex == -1 {
        node := node.(pointStartIndex := pointIndexCount);
      }
      AppendKeeps(nodes, pointIndexBuffer, |points|, pointIndex);
      pointIndexBuffer := pointIndexBuffer + [pointIndex];
      node := node.(pointCount := node.pointCount + 1);
      pointIndexCount := pointIndexCount + 1;
      ghost var nodes1 := nodes;
      ReplaceKeeps(nodes, pointIndexBuffer, |points|, nodeIndex, node);
      nodes := nodes[nodeIndex := node];
      GrowsTrans(old(nodes), nodes1, nodes, old(pointIndexBuffer), pointIndexBuffer, pointIndexBuffer);
    }

    /** Gives a leaf eight empty children, one per octant, appended to the node list. */
    method Subdivide(nodeIndex: int)
      requires Valid() && 0 <= nodeIndex < |nodes| && IsLeaf(nodes[nodeIndex])
      modifies this
      ensures Valid() && points == old(points) && pointIndexBuffer == old(pointIndexBuffer)
      ensures Grows(old(nodes), nodes, old(pointIndexBuffer), pointIndexBuffer)
      ensures nodes == old(nodes)[nodeIndex := old(nodes)[nodeIndex].(children := ChildRange(|old(nodes)|))]
                       + Octants(old(nodes)[nodeIndex].bounds)
    {
      var node := nodes[nodeIndex];
      SubdivideKeeps(nodes, pointIndexBuffer, |points|, nodeIndex);
      var c0, c1, c2, c3, c4, c5, c6, c7 := CreateOctants(node.bounds);
      node := node.(children := [c0, c1, c2, c3, c4, c5, c6, c7]);
      nodes := nodes[nodeIndex := node];
      assert nodes == old(nodes)[nodeIndex := node] + Octants(node.bounds);
    }

    /** The eight `CreateNode` calls of `Subdivide`, octant by octant. */
    method CreateOctants(b: AABB) returns (c0: int, c1: int, c2: int, c3: int, c4: int, c5: int, c6: int, c7: int)
      modifies this
      ensures nodes == old(nodes) + Octants(b)
      ensures [c0, c1, c2, c3, c4, c5, c6, c7] == ChildRange(|old(nodes)|)
      ensures points == old(points) && pointIndexBuffer == old(pointIndexBuffer)
      ensures pointIndexCount == old(pointIndexCount)
    {
      c0 := CreateNode(ChildAABB(b, false, false, false));
      c1 := CreateNode(ChildAABB(b, true, false, false));
      c2 := CreateNode(ChildAABB(b, false, true, false));
      c3 := CreateNode(ChildAABB(b, true, true, false));
      c4 := CreateNode(ChildAABB(b, false, false, true));
      c5 := CreateNode(ChildAABB(b, true, false, true));
      c6 := CreateNode(ChildAABB(b, false, true, true));
      c7 := CreateNode(ChildAABB(b, true, true, true));
    }

    /** Appends an empty leaf with the given box and returns its index. */
    method CreateNode(bounds: AABB) returns (childIndex: int)
      modifies this
      ensures childIndex == |old(nodes)| && nodes == old(nodes) + [NewNode(bounds)]
      ensures points == old(points) && pointIndexBuffer == old(pointIndexBuffer)
      ensures pointIndexCount == old(pointIndexCount)
    {
      childIndex := |nodes|;
      nodes := nodes + [NewNode(bounds)];
    }

    /** Re-inserts the node's points through the children of their octants, then clears the node's slice. */
    method RedistributePoints(nodeIndex: int, fuel: nat) returns (ok: bool)
      requires Valid() && 0 <= nodeIndex < |nodes| && !IsLeaf(nodes[nodeIndex])
      modifies this
      decreases fuel, 1
      ensures Valid() && points == old(points)
      ensures Grows(old(nodes), nodes, old(pointIndexBuffer), pointIndexBuffer)
      ensures ok ==> nodes[nodeIndex].pointStartIndex == -1 && nodes[nodeIndex].pointCount == 0
      ensures ok ==> Recorded(points, old(nodes)[nodeIndex].bounds, Held(old(nodes)[nodeIndex], old(pointIndexBuffer)),
                              old(pointIndexBuffer), pointIndexBuffer)
    {
      var node := nodes[nodeIndex];
      ghost var ids := Held(node, pointIndexBuffer);
      assert pointIndexBuffer[..|pointIndexBuffer|] == pointIndexBuffer;
      var i := 0;
      while i < node.pointCount
        invariant 0 <= i <= node.pointCount
        invariant Valid() && points == old(points)
        invariant Grows(old(nodes), nodes, old(pointIndexBuffer), pointIndexBuffer)
        invariant Recorded(points, node.bounds, ids[..i], old(pointIndexBuffer), pointIndexBuffer)
      {
        assert pointIndexBuffer[node.pointStartIndex + i] == old(pointIndexBuffer)[node.pointStartIndex + i];
        var globalPointIndex := pointIndexBuffer[node.pointStartIndex + i];
        assert ids[i] == globalPointIndex;
        var p := points[globalPointIndex].position;
        ghost var nodes1, buffer1 := nodes, pointIndexBuffer;
        assert nodes1[nodeIndex].children == node.children;
        var childIndex := RoutedChild(nodes, pointIndexBuffer, |points|, nodeIndex, p);
        var r := InsertPoint(childIndex, globalPointIndex, fuel);
        if !r {
          GrowsTrans(old(nodes), nodes1, nodes, old(pointIndexBuffer), buffer1, pointIndexBuffer);
          return false;
        }
        Reinserted(points, node.bounds, nodes1[childIndex].bounds, ids, i,
                   old(nodes), nodes1, nodes, old(pointIndexBuffer), buffer1, pointIndexBuffer);
        i := i + 1;
      }
      assert ids[..i] == ids;
      ghost var nodes2 := nodes;
      ReplaceKeeps(nodes, pointIndexBuffer, |points|, nodeIndex, node.(pointStartIndex := -1, pointCount := 0));
      nodes := nodes[nodeIndex := node.(pointStartIndex := -1, pointCount := 0)];
      GrowsTrans(old(nodes), nodes2, nodes, old(pointIndexBuffer), pointIndexBuffer, pointIndexBuffer);
      return true;
    }

    /**
     * Insertion as written: below a subdivided node the point goes to the node whose
     * index is its octant number (0-7), not to the child of that octant.
     */
    method WrittenInsert(point: PointData, fuel: nat) returns (ok: bool)
      requires Valid()
      modifies this
      ensures Valid()
      ensures points == old(points) + [point]
      ensures Grows(old(nodes), nodes, old(pointIndexBuffer), pointIndexBuffer)
      // A point in octant 0 of a subdivided root re-enters the root without end.
      ensures && !IsLeaf(old(nodes)[0]) && Contains(old(nodes)[0].bounds, point.position)
              && GetChildIndex(old(nodes)[0].bounds, point.position) == 0
              ==> !ok
      // A point in octant k of a subdivided root goes to node k; if that box misses it, nothing is stored.
      ensures && fuel > 0 && !IsLeaf(old(nodes)[0]) && Contains(old(nodes)[0].bounds, point.position)
              && !Contains(old(nodes)[GetChildIndex(old(nodes)[0].bounds, point.position)].bounds, point.position)
              ==> ok && nodes == old(nodes) && pointIndexBuffer == old(pointIndexBuffer)
    {
      var pointIndex := |points|;
      points := points + [point];
      ok := WrittenInsertPoint(0, pointIndex, fuel);
    }

    /** `InsertPoint` as written, with the octant number used as the next node index. */
    method WrittenInsertPoint(nodeIndex: int, pointIndex: int, fuel: nat) returns (ok: bool)
      requires Valid() && 0 <= nodeIndex < |nodes| && 0 <= pointIndex < |points|
      modifies this
      decreases fuel, 0
      ensures Valid() && points == old(points)
      ensures Grows(old(nodes), nodes, old(pointIndexBuffer), pointIndexBuffer)
      ensures !Contains(old(nodes)[nodeIndex].bounds, points[pointIndex].position)
              ==> ok && nodes == old(nodes) && pointIndexBuffer == old(pointIndexBuffer)
      ensures && Contains(old(nodes)[nodeIndex].bounds, points[pointIndex].position)
              && IsLeaf(old(nodes)[nodeIndex]) && old(nodes)[nodeIndex].pointCount < MaxPointsPerNode
              ==> && ok
                  && nodes == old(nodes)[nodeIndex := Accept(old(nodes)[nodeIndex], |old(pointIndexBuffer)|)]
                  && pointIndexBuffer == old(pointIndexBuffer) + [pointIndex]
      ensures && nodeIndex == 0 && !IsLeaf(old(nodes)[0]) && Contains(old(nodes)[0].bounds, points[pointIndex].position)
              && GetChildIndex(old(nodes)[0].bounds, points[pointIndex].position) == 0
              ==> !ok
      ensures && fuel > 0 && !IsLeaf(old(nodes)[nodeIndex]) && Contains(old(nodes)[nodeIndex].bounds, points[pointIndex].position)
              && !Contains(old(nodes)[GetChildIndex(old(nodes)[nodeIndex].bounds, points[pointIndex].position)].bounds,
                           points[pointIndex].position)
              ==> ok && nodes == old(nodes) && pointIndexBuffer == old(pointIndexBuffer)
    {
      var node := nodes[nodeIndex];
      if !Contains(node.bounds, points[pointIndex].position) {
        assert pointIndexBuffer[..|pointIndexBuffer|] == pointIndexBuffer;
        return true;
      }
      if IsLeaf(node) && node.pointCount < MaxPointsPerNode {
        AddToLeaf(nodeIndex, pointIndex);
        return true;
      }
      if fuel == 0 {
        assert pointIndexBuffer[..|pointIndexBuffer|] == pointIndexBuffer;
        return false;
      }
      if IsLeaf(node) {
        Subdivide(nodeIndex);
        assert nodes[nodeIndex].children[0] == |old(nodes)|;
        ghost var nodes1, buffer1 := nodes, pointIndexBuffer;
        ok := WrittenRedistributePoints(nodeIndex, fuel - 1);
        GrowsTrans(old(nodes), nodes1, nodes, old(pointIndexBuffer), buffer1, pointIndexBuffer);
        if !ok {
          return;
        }
        node := nodes[nodeIndex];
      } else {
        assert ChildrenOk(nodes, nodeIndex);
        assert pointIndexBuffer[..|pointIndexBuffer|] == pointIndexBuffer;
      }
      ghost var nodes2, buffer2 := nodes, pointIndexBuffer;
      var childIndex := GetChildIndex(node.bounds, points[pointIndex].position);
      ok := WrittenInsertPoint(childIndex, pointIndex, fuel - 1);
      GrowsTrans(old(nodes), nodes2, nodes, old(pointIndexBuffer), buffer2, pointIndexBuffer);
    }

    /** `RedistributePoints` as written, routing each point by its octant number. */
    method WrittenRedistributePoints(nodeIndex: int, fuel: nat) returns (ok: bool)
      requires Valid() && 0 <= nodeIndex < |nodes| && !IsLeaf(nodes[nodeIndex])
      modifies this
      decreases fuel, 1
      ensures Valid() && points == old(points)
      ensures Grows(old(nodes), nodes, old(pointIndexBuffer), pointIndexBuffer)
      ensures ok ==> nodes[nodeIndex].pointStartIndex == -1 && nodes[nodeIndex].pointCount == 0
    {
      var node := nodes[nodeIndex];
      assert ChildrenOk(nodes, nodeIndex);
      assert pointIndexBuffer[..|pointIndexBuffer|] == pointIndexBuffer;
      var i := 0;
      while i < node.pointCount
        invariant 0 <= i <= node.pointCount
        invariant Valid() && points == old(points)
        invariant Grows(old(nodes), nodes, old(pointIndexBuffer), pointIndexBuffer)
      {
        var globalPointIndex := pointIndexBuffer[node.pointStartIndex + i];
        var p := points[globalPointIndex].position;
        ghost var nodes1, buffer1 := nodes, pointIndexBuffer;
        var childIndex := GetChildIndex(node.bounds, p);
        var r := WrittenInsertPoint(childIndex, globalPointIndex, fuel);
        GrowsTrans(old(nodes), nodes1, nodes, old(pointIndexBuffer), buffer1, pointIndexBuffer);
        if !r {
          return false;
        }
        i := i + 1;
      }
      ghost var nodes2 := nodes;
      ReplaceKeeps(nodes, pointIndexBuffer, |points|, nodeIndex, node.(pointStartIndex := -1, pointCount := 0));
      nodes := nodes[nodeIndex := node.(pointStartIndex := -1, pointCount := 0)];
      GrowsTrans(old(nodes), nodes2, nodes, old(pointIndexBuffer), pointIndexBuffer, pointIndexBuffer);
      return true;
    }

    /** The index of the nearest point the search reaches, or -1. */
    method FindNearest(target: Vec3) returns (r: int)
      requires Valid()
      ensures var best := NearestFrom(nodes, pointIndexBuffer, points, 0, target, None);
              r == if best.None? then -1 else best.value.index
      ensures r == -1 || (0 <= r < |points|)
    {
      var best := FindNearestRecursive(0, target, None);
      NearestFromSpec(nodes, pointIndexBuffer, points, 0, target, None);
      r := if best.None? then -1 else best.value.index;
    }

    method FindNearestRecursive(nodeIndex: int, target: Vec3, best: Option<Best>) returns (r: Option<Best>)
      requires Valid() && -1 <= nodeIndex < |nodes|
      ensures r == NearestFrom(nodes, pointIndexBuffer, points, nodeIndex, target, best)
      decreases |nodes| - nodeIndex, 1
    {
      if nodeIndex == -1 {
        return best;
      }
      var node := nodes[nodeIndex];
      if IsLeaf(node) && node.pointCount > 0 {
        r := ScanLeaf(nodeIndex, target, best);
      } else {
        r := VisitChildren(nodeIndex, target, best);
      }
    }

    /** Checks every point of a leaf, replacing the best only on a strictly smaller distance. */
    method ScanLeaf(nodeIndex: int, target: Vec3, best: Option<Best>) returns (r: Option<Best>)
      requires Valid() && 0 <= nodeIndex < |nodes| && IsLeaf(nodes[nodeIndex]) && nodes[nodeIndex].pointCount > 0
      ensures r == Scan(points, LeafIds(nodes, pointIndexBuffer, nodeIndex), target, best)
    {
      var node := nodes[nodeIndex];
      ghost var ids := LeafIds(nodes, pointIndexBuffer, nodeIndex);
      r := best;
      var i := 0;
      while i < node.pointCount
        invariant 0 <= i <= node.pointCount
        invariant forall j :: 0 <= j < |ids| ==> 0 <= ids[j] < |points|
        invariant Scan(points, ids[i..], target, r) == Scan(points, ids, target, best)
      {
        var pIndex := pointIndexBuffer[node.pointStartIndex + i];
        assert ids[i..][0] == pIndex && ids[i..][1..] == ids[i + 1..];
        var d := DistSq(points[pIndex].position, target);
        if r.None? || d < r.value.dist {
          r := Some(Best(pIndex, d));
        }
        i := i + 1;
      }
    }

    /** Visits the children in order, pruning those whose box misses the current best sphere. */
    method VisitChildren(nodeIndex: int, target: Vec3, best: Option<Best>) returns (r: Option<Best>)
      requires Valid() && 0 <= nodeIndex < |nodes|
      ensures r == ChildrenFrom(nodes, pointIndexBuffer, points, nodeIndex, 0, target, best)
      decreases |nodes| - nodeIndex, 0
    {
      var node := nodes[nodeIndex];
      assert ChildrenOk(nodes, nodeIndex);
      r := best;
      var i := 0;
      while i < 8
        invariant 0 <= i <= 8
        invariant ChildrenFrom(nodes, pointIndexBuffer, points, nodeIndex, i, target, r)
               == ChildrenFrom(nodes, pointIndexBuffer, points, nodeIndex, 0, target, best)
      {
        var child := GetChildAt(node, i);
        if child != -1 && Reaches(nodes[child].bounds, target, r) {
          r := FindNearestRecursive(child, target, r);
        }
        i := i + 1;
      }
    }
  }

  /**
   * The as-written insertion on a unit root that has been subdivided: a point in octant 0
   * never comes back, whatever the fuel.
   */
  method ReentryExample(fuel: nat) returns (ok: bool)
    ensures !ok
  {
    var root := AABB(Vec3(0.0, 0.0, 0.0), Vec3(1.0, 1.0, 1.0));
    var tree := new BurstOctree(root);
    tree.Subdivide(0);
    assert tree.nodes[0].children[0] == 1;
    ok := tree.WrittenInsert(PointData(Vec3(0.25, 0.25, 0.25), Vec3(0.0, 0.0, 0.0), 0.0), fuel);
  }

  /**
   * The same tree and a point strictly inside octant 1: it is sent to node 1, whose box is
   * octant 0, and is dropped; the insertion reports success with the index buffer still empty.
   */
  method DropExample(fuel: nat) returns (ok: bool, entries: int)
    requires fuel > 0
    ensures ok && entries == 0
  {
    var root := AABB(Vec3(0.0, 0.0, 0.0), Vec3(1.0, 1.0, 1.0));
    var tree := new BurstOctree(root);
    tree.Subdivide(0);
    assert tree.nodes[0].children[0] == 1;
    assert tree.nodes[1].bounds == ChildBox(root, 0);
    ok := tree.WrittenInsert(PointData(Vec3(0.75, 0.25, 0.25), Vec3(0.0, 0.0, 0.0), 0.0), fuel);
    entries := |tree.pointIndexBuffer|;
  }
}
