/**
 * `SimpleKdTree`: the arena KD-tree over `SimplePointData`, with an explicit-stack
 * pre-order traversal and depth statistics. Its insert and search are the arena
 * algorithms of `KdArena`, so the tree invariant is the same.
 */
module SimpleKdTree {
  import opened Geometry
  import opened Arith
  import opened KdArena

  datatype SimplePointData = SimplePointData(position: Vec3, data: real)

  function SimplePositions(ps: seq<SimplePointData>): (r: seq<Vec3>)
    ensures |r| == |ps|
    ensures forall i :: 0 <= i < |ps| ==> r[i] == ps[i].position
  {
    seq(|ps|, i requires 0 <= i < |ps| => ps[i].position)
  }

  lemma SimplePositionsAppend(ps: seq<SimplePointData>, p: SimplePointData)
    ensures SimplePositions(ps + [p]) == SimplePositions(ps) + [p.position]
  {
  }

  /** The node indices of the subtree at `k` in pre-order: node, left subtree, right subtree. */
  ghost function PreOrder(nodes: seq<KdNode>, k: int): (r: seq<int>)
    requires Links(nodes) && -1 <= k < |nodes|
    ensures forall i :: 0 <= i < |r| ==> k <= r[i] < |nodes|
    decreases if k == -1 then 0 else |nodes| - k
  {
    if k == -1 then [] else [k] + PreOrder(nodes, nodes[k].left) + PreOrder(nodes, nodes[k].right)
  }

  /** What is still to be emitted for a stack whose top is its last element. */
  ghost function Pending(nodes: seq<KdNode>, stack: seq<int>): (r: seq<int>)
    requires Links(nodes) && forall i :: 0 <= i < |stack| ==> -1 <= stack[i] < |nodes|
  {
    if stack == [] then []
    else PreOrder(nodes, stack[|stack| - 1]) + Pending(nodes, stack[..|stack| - 1])
  }

  /** The pre-order visits exactly the subtree's nodes. */
  lemma {:induction false} PreOrderMembers(nodes: seq<KdNode>, k: int)
    requires Links(nodes) && -1 <= k < |nodes|
    ensures forall m :: m in PreOrder(nodes, k) <==> m in Reach(nodes, k)
    decreases if k == -1 then 0 else |nodes| - k
  {
    if k != -1 {
      PreOrderMembers(nodes, nodes[k].left);
      PreOrderMembers(nodes, nodes[k].right);
    }
  }

  /** On an ordered subtree the pre-order visits each node once. */
  lemma {:induction false} PreOrderSize(nodes: seq<KdNode>, ps: seq<Vec3>, k: int, depth: nat)
    requires Shaped(nodes, ps) && -1 <= k < |nodes| && Ordered(nodes, ps, k, depth)
    ensures |PreOrder(nodes, k)| == |Reach(nodes, k)|
    decreases if k == -1 then 0 else |nodes| - k
  {
    if k != -1 {
      var nd := nodes[k];
      PreOrderSize(nodes, ps, nd.left, depth + 1);
      PreOrderSize(nodes, ps, nd.right, depth + 1);
      OrderedSplits(nodes, ps, k, depth);
      SizeStep(nodes, k);
    }
  }

  /** Disjoint subtrees below a node add up, with the node itself, to the subtree's count. */
  lemma SizeStep(nodes: seq<KdNode>, k: int)
    requires Links(nodes) && 0 <= k < |nodes|
    requires var l, r := nodes[k].left, nodes[k].right;
             && |PreOrder(nodes, l)| == |Reach(nodes, l)| && |PreOrder(nodes, r)| == |Reach(nodes, r)|
             && Reach(nodes, l) !! Reach(nodes, r) && k !in Reach(nodes, l) + Reach(nodes, r)
    ensures |PreOrder(nodes, k)| == |Reach(nodes, k)|
  {
    var l, r := nodes[k].left, nodes[k].right;
    var a, b := Reach(nodes, l), Reach(nodes, r);
    assert |PreOrder(nodes, k)| == 1 + |PreOrder(nodes, l)| + |PreOrder(nodes, r)|;
    assert Reach(nodes, k) == {k} + a + b;
    DisjointCard(k, a, b);
  }

  lemma DisjointCard(k: int, a: set<int>, b: set<int>)
    requires a !! b && k !in a + b
    ensures |{k} + a + b| == 1 + |a| + |b|
  {
    assert |a + b| == |a| + |b|;
    assert {k} + a + b == {k} + (a + b);
  }

  lemma {:induction false} IndicesSize(n: nat)
    ensures |Indices(n)| == n
  {
    if n > 0 {
      IndicesSize(n - 1);
      assert Indices(n) == Indices(n - 1) + {n - 1};
      CardAddFresh(Indices(n - 1), n - 1);
    }
  }

  lemma CardAddFresh(s: set<int>, x: int)
    requires forall i :: i in s ==> i < x
    ensures |s + {x}| == |s| + 1
  {
    assert x !in s;
  }

  /** On a valid tree the pre-order from the root lists every node once. */
  lemma PreOrderCovers(nodes: seq<KdNode>, ps: seq<Vec3>)
    requires Valid(nodes, ps) && |nodes| > 0
    ensures |PreOrder(nodes, 0)| == |nodes|
    ensures forall i :: 0 <= i < |nodes| ==> i in PreOrder(nodes, 0)
  {
    PreOrderMembers(nodes, 0);
    PreOrderSize(nodes, ps, 0, 0);
    IndicesSize(|nodes|);
  }

  /** `GetMaxDepth(nodeIndex)`: 0 at -1, otherwise one more than the deeper child. */
  ghost function MaxDepth(nodes: seq<KdNode>, k: int): nat
    requires Links(nodes) && -1 <= k < |nodes|
    decreases if k == -1 then 0 else |nodes| - k
  {
    if k == -1 then 0
    else
      var l, r := MaxDepth(nodes, nodes[k].left), MaxDepth(nodes, nodes[k].right);
      1 + (if l >= r then l else r)
  }

  lemma {:induction false} MaxDepthBounds(nodes: seq<KdNode>, k: int)
    requires Links(nodes) && -1 <= k < |nodes|
    ensures MaxDepth(nodes, k) <= |PreOrder(nodes, k)|
    ensures MaxDepth(nodes, k) == 0 <==> k == -1
    decreases if k == -1 then 0 else |nodes| - k
  {
    if k != -1 {
      MaxDepthBounds(nodes, nodes[k].left);
      MaxDepthBounds(nodes, nodes[k].right);
    }
  }

  /** The sum of the depths of the subtree's nodes when its root is at depth `d`. */
  ghost function SumDepths(nodes: seq<KdNode>, k: int, d: int): int
    requires Links(nodes) && -1 <= k < |nodes|
    decreases if k == -1 then 0 else |nodes| - k
  {
    if k == -1 then 0
    else d + SumDepths(nodes, nodes[k].left, d + 1) + SumDepths(nodes, nodes[k].right, d + 1)
  }

  lemma {:induction false} SumDepthsBound(nodes: seq<KdNode>, k: int, d: nat)
    requires Links(nodes) && -1 <= k < |nodes|
    ensures 0 <= SumDepths(nodes, k, d) <= |PreOrder(nodes, k)| * (d + MaxDepth(nodes, k) - 1)
    decreases if k == -1 then 0 else |nodes| - k
  {
    if k != -1 {
      var l, r := nodes[k].left, nodes[k].right;
      SumDepthsBound(nodes, l, d + 1);
      SumDepthsBound(nodes, r, d + 1);
      LevelStep(d, |PreOrder(nodes, l)|, |PreOrder(nodes, r)|, MaxDepth(nodes, l), MaxDepth(nodes, r),
                MaxDepth(nodes, k), SumDepths(nodes, l, d + 1), SumDepths(nodes, r, d + 1));
    }
  }

  /** The average depth, root at depth 0: 0 for an empty tree. */
  ghost function AverageDepth(nodes: seq<KdNode>): (avg: real)
    requires Links(nodes)
    ensures |nodes| > 0 ==> 0.0 <= avg <= (MaxDepth(nodes, 0) - 1) as real
  {
    if |nodes| == 0 then 0.0
    else
      SumDepthsBound(nodes, 0, 0);
      MaxDepthBounds(nodes, 0);
      DivBound(SumDepths(nodes, 0, 0), |PreOrder(nodes, 0)|, MaxDepth(nodes, 0) - 1);
      SumDepths(nodes, 0, 0) as real / |PreOrder(nodes, 0)| as real
  }

  /**
   * The walk of `Insert` from the root: the axis starts at 0 and advances `(axis + 1) % 3`
   * per level, going left when the new point compares below the node, until the side to
   * go to has no child. Returns that node and whether the side is the left one.
   */
  method Descend(nodes: seq<KdNode>, points: seq<SimplePointData>, point: SimplePointData)
    returns (nodeIndex: int, goLeft: bool)
    requires Shaped(nodes, SimplePositions(points)) && |nodes| > 0
    ensures 0 <= nodeIndex < |nodes|
    ensures (if goLeft then nodes[nodeIndex].left else nodes[nodeIndex].right) == -1
    ensures (nodeIndex, goLeft) == AttachPoint(nodes, SimplePositions(points), 0, 0, point.position)
  {
    ghost var ps := SimplePositions(points);
    nodeIndex := 0;
    var axis: Axis := 0;
    ghost var depth: nat := 0;
    while true
      invariant 0 <= nodeIndex < |nodes|
      invariant axis == AxisOf(depth)
      invariant AttachPoint(nodes, ps, nodeIndex, depth, point.position) == AttachPoint(nodes, ps, 0, 0, point.position)
      decreases |nodes| - nodeIndex
    {
      var node := nodes[nodeIndex];
      assert ChildLink(nodes, nodeIndex, node.left) && ChildLink(nodes, nodeIndex, node.right);
      var nodePoint := points[node.pointIndex];
      assert nodePoint.position == NodePos(nodes, ps, nodeIndex);
      if ComparePoints(point.position, nodePoint.position, axis) < 0 {
        if node.left == -1 {
          goLeft := true;
          return;
        }
        nodeIndex := node.left;
      } else {
        if node.right == -1 {
          goLeft := false;
          return;
        }
        nodeIndex := node.right;
      }
      AxisStep(depth);
      axis := (axis + 1) % 3;
      depth := depth + 1;
    }
  }

  class SimpleKdTree {
    var nodes: seq<KdNode>
    var points: seq<SimplePointData>

    ghost predicate Valid()
      reads this
    {
      KdArena.Valid(nodes, SimplePositions(points))
    }

    /** The initial capacity only sizes the native lists and is not modelled. */
    constructor (initialCapacity: int)
      ensures Valid() && nodes == [] && points == []
    {
      nodes := [];
      points := [];
      new;
      assert SimplePositions(points) == [];
    }

    /**
     * Append the point, then create the root or walk down from it, the axis starting
     * at 0 and advancing `(axis + 1) % 3` per level, until an absent child is found.
     */
    method Insert(point: SimplePointData)
      requires Valid()
      modifies this
      ensures Valid()
      ensures points == old(points) + [point]
      ensures nodes == KdArena.Insert(old(nodes), SimplePositions(old(points)), point.position)
    {
      ghost var ps := SimplePositions(points);
      var pointIndex := |points|;
      SimplePositionsAppend(points, point);
      if |nodes| == 0 {
        nodes := nodes + [NewNode(pointIndex)];
      } else {
        var nodeIndex, goLeft := Descend(nodes, points, point);
        var node := nodes[nodeIndex];
        if goLeft {
          node := node.(left := |nodes|);
        } else {
          node := node.(right := |nodes|);
        }
        nodes := nodes[nodeIndex := node] + [NewNode(pointIndex)];
      }
      points := points + [point];
      InsertValid(old(nodes), ps, point.position);
      assert nodes == KdArena.Insert(old(nodes), ps, point.position);
    }

    /**
     * `TraverseLeftToRightIterative`: pop a node, push its right then its left child,
     * emit its point. The result lists every point once, in pre-order.
     */
    method TraverseLeftToRightIterative() returns (data: seq<SimplePointData>)
      requires Valid()
      ensures |nodes| == 0 ==> data == []
      ensures |nodes| > 0 ==>
                && |data| == |PreOrder(nodes, 0)|
                && forall j :: 0 <= j < |data| ==> data[j] == points[PreOrder(nodes, 0)[j]]
      ensures |data| == |points|
    {
      if |nodes| == 0 {
        return [];
      }
      data := Traverse(nodes, points);
      PreOrderCovers(nodes, SimplePositions(points));
    }

    /** `FindNearest(target)`: -1 exactly when the tree is empty, else a closest point. */
    function FindNearest(target: Vec3): (r: int)
      reads this
      requires Valid()
      ensures r == -1 <==> |points| == 0
      ensures r != -1 ==>
        && 0 <= r < |points|
        && forall i :: 0 <= i < |points| ==> DistSq(target, points[r].position) <= DistSq(target, points[i].position)
    {
      KdArena.FindNearest(nodes, SimplePositions(points), target)
    }

    /** `GetMaxDepth()` starts at node 0, so the tree must not be empty. */
    function GetMaxDepth(): (r: nat)
      reads this
      requires Valid() && |nodes| > 0
      ensures 1 <= r <= |nodes|
      ensures r == MaxDepth(nodes, 0)
    {
      MaxDepthBounds(nodes, 0);
      PreOrderCovers(nodes, SimplePositions(points));
      MaxDepthOf(0)
    }

    function MaxDepthOf(k: int): (r: nat)
      reads this
      requires Links(nodes) && -1 <= k < |nodes|
      ensures r == MaxDepth(nodes, k)
      decreases if k == -1 then 0 else |nodes| - k
    {
      if k == -1 then 0
      else
        var l, r := MaxDepthOf(nodes[k].left), MaxDepthOf(nodes[k].right);
        1 + (if l >= r then l else r)
    }

    /** `GetDepths(nodeIndex, currentDepth, ref totalDepth, ref nodeCount)`. */
    method GetDepths(k: int, currentDepth: int, totalIn: int, countIn: int) returns (total: int, count: int)
      requires Links(nodes) && -1 <= k < |nodes|
      ensures total == totalIn + SumDepths(nodes, k, currentDepth)
      ensures count == countIn + |PreOrder(nodes, k)|
      decreases if k == -1 then 0 else |nodes| - k
    {
      total, count := totalIn, countIn;
      if k == -1 {
        return;
      }
      total := total + currentDepth;
      count := count + 1;
      var node := nodes[k];
      total, count := GetDepths(node.left, currentDepth + 1, total, count);
      total, count := GetDepths(node.right, currentDepth + 1, total, count);
    }

    /** `GetAverageDepth()`: 0 for an empty tree, else the mean depth with the root at 0. */
    method GetAverageDepth() returns (avg: real)
      requires Valid()
      ensures avg == AverageDepth(nodes)
      ensures |nodes| > 0 ==> 0.0 <= avg <= (MaxDepth(nodes, 0) - 1) as real
    {
      if |nodes| == 0 {
        return 0.0;
      }
      var totalDepth, nodeCount := GetDepths(0, 0, 0, 0);
      avg := totalDepth as real / nodeCount as real;
    }
  }

  /** The stack loop of `TraverseLeftToRightIterative` on a non-empty tree whose node k holds point k. */
  method Traverse(nodes: seq<KdNode>, points: seq<SimplePointData>) returns (data: seq<SimplePointData>)
    requires Links(nodes) && 0 < |nodes| == |points|
    requires forall k :: 0 <= k < |nodes| ==> nodes[k].pointIndex == k
    ensures |data| == |PreOrder(nodes, 0)|
    ensures forall j :: 0 <= j < |data| ==> data[j] == points[PreOrder(nodes, 0)[j]]
  {
    data := [];
    var stack := [0];
    ghost var visited: seq<int> := [];
    assert Pending(nodes, stack) == PreOrder(nodes, 0) + Pending(nodes, []);
    while |stack| > 0
      invariant StackOk(nodes, stack)
      invariant visited + Pending(nodes, stack) == PreOrder(nodes, 0)
      invariant Emitted(nodes, points, visited, data)
      decreases 2 * |Pending(nodes, stack)| + |stack|
    {
      stack, data, visited := PopAndVisit(nodes, points, stack, data, visited);
    }
  }

  ghost predicate StackOk(nodes: seq<KdNode>, stack: seq<int>) {
    forall i :: 0 <= i < |stack| ==> -1 <= stack[i] < |nodes|
  }

  /** `data` holds the points of the nodes in `visited`, in that order. */
  ghost predicate Emitted(nodes: seq<KdNode>, points: seq<SimplePointData>, visited: seq<int>, data: seq<SimplePointData>) {
    && |data| == |visited|
    && forall j :: 0 <= j < |visited| ==> 0 <= visited[j] < |points| && data[j] == points[visited[j]]
  }

  /** One iteration of the traversal loop: pop; skip -1; else push right, push left, emit. */
  method PopAndVisit(nodes: seq<KdNode>, points: seq<SimplePointData>, stack: seq<int>,
                     data: seq<SimplePointData>, ghost visited: seq<int>)
    returns (stack': seq<int>, data': seq<SimplePointData>, ghost visited': seq<int>)
    requires Links(nodes) && |nodes| == |points|
    requires forall k :: 0 <= k < |nodes| ==> nodes[k].pointIndex == k
    requires |stack| > 0 && StackOk(nodes, stack) && Emitted(nodes, points, visited, data)
    ensures StackOk(nodes, stack') && Emitted(nodes, points, visited', data')
    ensures visited + Pending(nodes, stack) == visited' + Pending(nodes, stack')
    ensures 2 * |Pending(nodes, stack')| + |stack'| < 2 * |Pending(nodes, stack)| + |stack|
  {
    var nodeIndex := stack[|stack| - 1];
    var rest := stack[..|stack| - 1];
    assert Pending(nodes, stack) == PreOrder(nodes, nodeIndex) + Pending(nodes, rest);
    stack' := rest;
    data' := data;
    visited' := visited;
    if nodeIndex == -1 {
      return;
    }
    var node := nodes[nodeIndex];
    visited' := PopStep(nodes, visited, rest, nodeIndex);
    stack' := stack' + [node.right];
    stack' := stack' + [node.left];
    data' := data' + [points[node.pointIndex]];
  }

  /** Emitting node `k` and pushing its children keeps "emitted, then pending" unchanged. */
  lemma PopStep(nodes: seq<KdNode>, visited: seq<int>, rest: seq<int>, k: int) returns (visited': seq<int>)
    requires Links(nodes) && forall i :: 0 <= i < |rest| ==> -1 <= rest[i] < |nodes|
    requires 0 <= k < |nodes|
    ensures visited' == visited + [k]
    ensures visited + (PreOrder(nodes, k) + Pending(nodes, rest))
            == visited' + Pending(nodes, rest + [nodes[k].right] + [nodes[k].left])
  {
    visited' := visited + [k];
    var l, r := nodes[k].left, nodes[k].right;
    assert ChildLink(nodes, k, l) && ChildLink(nodes, k, r);
    assert PreOrder(nodes, k) == [k] + PreOrder(nodes, l) + PreOrder(nodes, r);
    PendingPush(nodes, rest, r, l);
    ConcatShift(visited, k, PreOrder(nodes, l), PreOrder(nodes, r), Pending(nodes, rest));
  }

  /** Popping node `k` and pushing its right then its left child leaves its pre-order pending. */
  lemma PendingPush(nodes: seq<KdNode>, rest: seq<int>, right: int, left: int)
    requires Links(nodes) && forall i :: 0 <= i < |rest| ==> -1 <= rest[i] < |nodes|
    requires -1 <= left < |nodes| && -1 <= right < |nodes|
    ensures Pending(nodes, rest + [right] + [left])
            == PreOrder(nodes, left) + PreOrder(nodes, right) + Pending(nodes, rest)
  {
    var s1 := rest + [right];
    forall i | 0 <= i < |s1| ensures -1 <= s1[i] < |nodes| {
      if i < |rest| {
        assert s1[i] == rest[i];
      }
    }
    PendingSnoc(nodes, rest, right);
    PendingSnoc(nodes, s1, left);
    var a, b, c := PreOrder(nodes, left), PreOrder(nodes, right), Pending(nodes, rest);
    ConcatAssoc(a, b, c);
  }

  /** Pushing `x` puts its pre-order in front of what was pending. */
  lemma PendingSnoc(nodes: seq<KdNode>, stack: seq<int>, x: int)
    requires Links(nodes) && forall i :: 0 <= i < |stack| ==> -1 <= stack[i] < |nodes|
    requires -1 <= x < |nodes|
    ensures Pending(nodes, stack + [x]) == PreOrder(nodes, x) + Pending(nodes, stack)
  {
    var t := stack + [x];
    assert t[..|t| - 1] == stack;
  }
}
