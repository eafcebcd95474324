/**
 * `BurstKdTree`: the arena KD-tree over two growable lists. The same class models the
 * `KdTree` the jobs operate on, which has the same fields and operations.
 */
module KdTree {
  import opened Geometry
  import opened Points
  import opened KdArena

  /** A value snapshot of a tree: its node and point lists. */
  datatype TreeState = TreeState(nodes: seq<KdNode>, points: seq<PointData>)

  ghost predicate ValidState(s: TreeState) {
    KdArena.Valid(s.nodes, Positions(s.points))
  }

  /** `tree.Insert(p)` on a snapshot. */
  ghost function InsertState(s: TreeState, p: PointData): (r: TreeState)
    requires ValidState(s)
    ensures ValidState(r)
    ensures r.points == s.points + [p]
    ensures |r.nodes| == |s.nodes| + 1
  {
    InsertValid(s.nodes, Positions(s.points), p.position);
    PositionsAppend(s.points, p);
    TreeState(KdArena.Insert(s.nodes, Positions(s.points), p.position), s.points + [p])
  }

  /** The tree built by inserting `ps` one after another into an empty tree. */
  ghost function BuildState(ps: seq<PointData>): (r: TreeState)
    ensures ValidState(r) && r.points == ps
  {
    TreeState(Build(Positions(ps)), ps)
  }

  lemma BuildStateSnoc(ps: seq<PointData>, p: PointData)
    ensures BuildState(ps + [p]) == InsertState(BuildState(ps), p)
  {
    PositionsAppend(ps, p);
    BuildSnoc(Positions(ps), p.position);
  }

  class BurstKdTree {
    var nodes: seq<KdNode>
    var points: seq<PointData>

    /** One node per point, node k holding point k, KD-ordered and fully linked. */
    ghost predicate Valid()
      reads this
    {
      KdArena.Valid(nodes, Positions(points))
    }

    ghost function State(): TreeState
      reads this
    {
      TreeState(nodes, points)
    }

    constructor ()
      ensures Valid() && nodes == [] && points == []
    {
      nodes := [];
      points := [];
      new;
      assert Positions(points) == [];
    }

    /**
     * Append the point, then create the root or walk down from it: strictly smaller
     * on axis `depth % 3` goes left, otherwise right, until an absent child is found.
     */
    method Insert(point: PointData)
      requires Valid()
      modifies this
      ensures Valid()
      ensures points == old(points) + [point]
      ensures nodes == KdArena.Insert(old(nodes), Positions(old(points)), point.position)
      ensures State() == InsertState(old(State()), point)
    {
      ghost var ps := Positions(points);
      var pointIndex := |points|;
      points := points + [point];
      PositionsAppend(old(points), point);
      if |nodes| == 0 {
        nodes := nodes + [NewNode(pointIndex)];
      } else {
        var nodeIndex := 0;
        var depth: nat := 0;
        while true
          invariant 0 <= nodeIndex < |nodes|
          invariant nodes == old(nodes) && points == old(points) + [point]
          invariant AttachPoint(nodes, ps, nodeIndex, depth, point.position)
                    == AttachPoint(nodes, ps, 0, 0, point.position)
          decreases |nodes| - nodeIndex
        {
          var node := nodes[nodeIndex];
          assert ChildLink(nodes, nodeIndex, node.left) && ChildLink(nodes, nodeIndex, node.right);
          var nodePoint := points[node.pointIndex];
          assert nodePoint.position == NodePos(nodes, ps, nodeIndex);
          var newPoint := points[pointIndex];
          var axis := AxisOf(depth);
          if ComparePoints(newPoint.position, nodePoint.position, axis) < 0 {
            if node.left == -1 {
              assert AttachPoint(nodes, ps, nodeIndex, depth, point.position) == (nodeIndex, true);
              node := node.(left := |nodes|);
              nodes := nodes[nodeIndex := node];
              nodes := nodes + [NewNode(pointIndex)];
            } else {
              nodeIndex := node.left;
              depth := depth + 1;
              continue;
            }
          } else {
            if node.right == -1 {
              assert AttachPoint(nodes, ps, nodeIndex, depth, point.position) == (nodeIndex, false);
              node := node.(right := |nodes|);
              nodes := nodes[nodeIndex := node];
              nodes := nodes + [NewNode(pointIndex)];
            } else {
              nodeIndex := node.right;
              depth := depth + 1;
              continue;
            }
          }
          break;
        }
      }
      InsertValid(old(nodes), ps, point.position);
      assert Positions(points) == ps + [point.position];
      assert nodes == KdArena.Insert(old(nodes), ps, point.position);
    }

    /** `FindNearest(target)`: -1 exactly when the tree is empty, else a closest point. */
    function FindNearest(target: Vec3): (r: int)
      reads this
      requires Valid()
      ensures r == -1 <==> |points| == 0
      ensures r != -1 ==>
        && 0 <= r < |points|
        && forall i :: 0 <= i < |points| ==> DistSq(target, points[r].position) <= DistSq(target, points[i].position)
    {
      KdArena.FindNearest(nodes, Positions(points), target)
    }

    /** `points.Clear(); nodes.Clear();` */
    method Clear()
      modifies this
      ensures Valid() && nodes == [] && points == []
    {
      nodes := [];
      points := [];
      assert Positions(points) == [];
    }
  }
}
