/**
 * The arena KD-tree shared by `BurstKdTree` (which also stands for the `KdTree` the
 * jobs use) and `SimpleKdTree`: nodes live in one list, points in another, and a
 * child link is a node index or -1. A child is always appended after its parent,
 * so links point forward; that gives every recursion over the arena its measure.
 */
module KdArena {
  import opened Geometry

  datatype KdNode = KdNode(pointIndex: int, left: int, right: int)

  /** `new KdTreeNode(pointIndex)`: a node without children. */
  function NewNode(pointIndex: int): KdNode {
    KdNode(pointIndex, -1, -1)
  }

  predicate ChildLink(nodes: seq<KdNode>, k: int, c: int) {
    c == -1 || k < c < |nodes|
  }

  /** Every child link is -1 or the index of a node appended later. */
  ghost predicate Links(nodes: seq<KdNode>) {
    forall k :: 0 <= k < |nodes| ==>
      ChildLink(nodes, k, nodes[k].left) && ChildLink(nodes, k, nodes[k].right)
  }

  /** Every node refers to an existing point. */
  ghost predicate PointRefs(nodes: seq<KdNode>, n: int) {
    forall k :: 0 <= k < |nodes| ==> 0 <= nodes[k].pointIndex < n
  }

  ghost predicate Shaped(nodes: seq<KdNode>, ps: seq<Vec3>) {
    Links(nodes) && PointRefs(nodes, |ps|)
  }

  function NodePos(nodes: seq<KdNode>, ps: seq<Vec3>, k: int): Vec3
    requires Shaped(nodes, ps) && 0 <= k < |nodes|
  {
    ps[nodes[k].pointIndex]
  }

  ghost function Indices(n: int): (r: set<int>)
    ensures forall i :: i in r <==> 0 <= i < n
    decreases n
  {
    if n <= 0 then {} else Indices(n - 1) + {n - 1}
  }

  /** The node indices of the subtree rooted at `k` (empty for -1). */
  ghost function Reach(nodes: seq<KdNode>, k: int): (r: set<int>)
    requires Links(nodes) && -1 <= k < |nodes|
    ensures forall m :: m in r ==> k <= m < |nodes|
    ensures k != -1 ==> k in r
    decreases if k == -1 then 0 else |nodes| - k
  {
    if k == -1 then {} else {k} + Reach(nodes, nodes[k].left) + Reach(nodes, nodes[k].right)
  }

  /**
   * The KD ordering: below a node at depth `depth`, every point of the left subtree is
   * strictly smaller on axis `depth % 3`, every point of the right subtree is not.
   */
  ghost predicate Ordered(nodes: seq<KdNode>, ps: seq<Vec3>, k: int, depth: nat)
    requires Shaped(nodes, ps) && -1 <= k < |nodes|
    decreases if k == -1 then 0 else |nodes| - k
  {
    k == -1 ||
    (Separated(nodes, ps, k, depth)
     && Ordered(nodes, ps, nodes[k].left, depth + 1)
     && Ordered(nodes, ps, nodes[k].right, depth + 1))
  }

  /** The splitting plane of node `k` separates its left subtree from its right one. */
  ghost predicate Separated(nodes: seq<KdNode>, ps: seq<Vec3>, k: int, depth: nat)
    requires Shaped(nodes, ps) && 0 <= k < |nodes|
  {
    var nd := nodes[k];
    var c := Coord(NodePos(nodes, ps, k), AxisOf(depth));
    && (forall m :: m in Reach(nodes, nd.left) ==> Coord(NodePos(nodes, ps, m), AxisOf(depth)) < c)
    && (forall m :: m in Reach(nodes, nd.right) ==> Coord(NodePos(nodes, ps, m), AxisOf(depth)) >= c)
  }

  /**
   * The tree invariant both arena trees keep: one node per point, node k holding
   * point k, the KD ordering from the root, and every node reachable from the root.
   */
  ghost predicate Valid(nodes: seq<KdNode>, ps: seq<Vec3>) {
    && |nodes| == |ps|
    && Shaped(nodes, ps)
    && (forall k :: 0 <= k < |nodes| ==> nodes[k].pointIndex == k)
    && (|nodes| > 0 ==> Ordered(nodes, ps, 0, 0) && Reach(nodes, 0) == Indices(|nodes|))
  }

  /** The subtrees below an ordered node are disjoint and do not contain the node. */
  lemma OrderedSplits(nodes: seq<KdNode>, ps: seq<Vec3>, k: int, depth: nat)
    requires Shaped(nodes, ps) && 0 <= k < |nodes| && Ordered(nodes, ps, k, depth)
    ensures Reach(nodes, nodes[k].left) !! Reach(nodes, nodes[k].right)
    ensures k !in Reach(nodes, nodes[k].left) + Reach(nodes, nodes[k].right)
  {
    var nd := nodes[k];
    forall m | m in Reach(nodes, nd.left) ensures m !in Reach(nodes, nd.right) {
      assert Coord(NodePos(nodes, ps, m), AxisOf(depth)) < Coord(NodePos(nodes, ps, k), AxisOf(depth));
    }
  }

  // ---------------------------------------------------------------------------
  // Insertion

  /**
   * The walk `Insert(nodeIndex, pointIndex, depth)` performs for a point at `q`: the
   * node it attaches to and whether as left child. Strictly smaller goes left.
   */
  ghost function AttachPoint(nodes: seq<KdNode>, ps: seq<Vec3>, k: int, depth: nat, q: Vec3): (r: (int, bool))
    requires Shaped(nodes, ps) && 0 <= k < |nodes|
    ensures k <= r.0 < |nodes|
    ensures (if r.1 then nodes[r.0].left else nodes[r.0].right) == -1
    decreases if k == -1 then 0 else |nodes| - k
  {
    var nd := nodes[k];
    var goLeft := ComparePoints(q, NodePos(nodes, ps, k), AxisOf(depth)) < 0;
    var child := if goLeft then nd.left else nd.right;
    if child == -1 then (k, goLeft) else AttachPoint(nodes, ps, child, depth + 1, q)
  }

  function SetChild(nd: KdNode, left: bool, c: int): KdNode {
    if left then nd.(left := c) else nd.(right := c)
  }

  /** Link a new node for point `pointIndex` below node `p` and append it. */
  ghost function Grow(nodes: seq<KdNode>, p: int, left: bool, pointIndex: int): seq<KdNode>
    requires 0 <= p < |nodes|
  {
    nodes[p := SetChild(nodes[p], left, |nodes|)] + [NewNode(pointIndex)]
  }

  /** The node list after inserting point number |ps| at position `q`. */
  ghost function Insert(nodes: seq<KdNode>, ps: seq<Vec3>, q: Vec3): seq<KdNode>
    requires Shaped(nodes, ps)
  {
    if |nodes| == 0 then [NewNode(|ps|)]
    else
      var a := AttachPoint(nodes, ps, 0, 0, q);
      Grow(nodes, a.0, a.1, |ps|)
  }

  lemma GrowShaped(nodes: seq<KdNode>, ps: seq<Vec3>, p: int, left: bool, q: Vec3)
    requires Shaped(nodes, ps) && 0 <= p < |nodes|
    requires (if left then nodes[p].left else nodes[p].right) == -1
    ensures Shaped(Grow(nodes, p, left, |ps|), ps + [q])
  {
  }

  lemma GrowLinks(nodes: seq<KdNode>, p: int, left: bool, pointIndex: int)
    requires Links(nodes) && 0 <= p < |nodes|
    ensures Links(Grow(nodes, p, left, pointIndex))
  {
    var g := Grow(nodes, p, left, pointIndex);
    forall k | 0 <= k < |g| ensures ChildLink(g, k, g[k].left) && ChildLink(g, k, g[k].right) {
      if k < |nodes| {
        assert ChildLink(nodes, k, nodes[k].left) && ChildLink(nodes, k, nodes[k].right);
      }
    }
  }

  /** A subtree that does not contain the attach point keeps its nodes. */
  lemma {:induction false} GrowReachFrame(nodes: seq<KdNode>, p: int, left: bool, pointIndex: int, j: int)
    requires Links(nodes) && 0 <= p < |nodes| && -1 <= j < |nodes|
    requires p !in Reach(nodes, j)
    ensures Links(Grow(nodes, p, left, pointIndex))
    ensures Reach(Grow(nodes, p, left, pointIndex), j) == Reach(nodes, j)
    decreases if j == -1 then 0 else |nodes| - j
  {
    GrowLinks(nodes, p, left, pointIndex);
    if j != -1 {
      var g := Grow(nodes, p, left, pointIndex);
      assert g[j] == nodes[j];
      assert ChildLink(nodes, j, nodes[j].left) && ChildLink(nodes, j, nodes[j].right);
      GrowReachFrame(nodes, p, left, pointIndex, nodes[j].left);
      GrowReachFrame(nodes, p, left, pointIndex, nodes[j].right);
    }
  }

  /** ... and its ordering. */
  lemma {:induction false} GrowFrame(nodes: seq<KdNode>, ps: seq<Vec3>, p: int, left: bool, q: Vec3, j: int, depth: nat)
    requires Shaped(nodes, ps) && 0 <= p < |nodes| && -1 <= j < |nodes|
    requires (if left then nodes[p].left else nodes[p].right) == -1
    requires p !in Reach(nodes, j)
    ensures Shaped(Grow(nodes, p, left, |ps|), ps + [q])
    ensures Reach(Grow(nodes, p, left, |ps|), j) == Reach(nodes, j)
    ensures Ordered(nodes, ps, j, depth) ==> Ordered(Grow(nodes, p, left, |ps|), ps + [q], j, depth)
    decreases if j == -1 then 0 else |nodes| - j
  {
    var g := Grow(nodes, p, left, |ps|);
    GrowShaped(nodes, ps, p, left, q);
    GrowReachFrame(nodes, p, left, |ps|, j);
    if j != -1 {
      var l, r := nodes[j].left, nodes[j].right;
      assert g[j] == nodes[j];
      assert ChildLink(nodes, j, l) && ChildLink(nodes, j, r);
      GrowFrame(nodes, ps, p, left, q, l, depth + 1);
      GrowFrame(nodes, ps, p, left, q, r, depth + 1);
      if Ordered(nodes, ps, j, depth) {
        SeparatedFrame(nodes, ps, p, left, q, j, depth);
      }
    }
  }

  lemma SeparatedFrame(nodes: seq<KdNode>, ps: seq<Vec3>, p: int, left: bool, q: Vec3, j: int, depth: nat)
    requires Shaped(nodes, ps) && 0 <= p < |nodes| && 0 <= j < |nodes| && p != j
    requires (if left then nodes[p].left else nodes[p].right) == -1
    requires Shaped(Grow(nodes, p, left, |ps|), ps + [q])
    requires Reach(Grow(nodes, p, left, |ps|), nodes[j].left) == Reach(nodes, nodes[j].left)
    requires Reach(Grow(nodes, p, left, |ps|), nodes[j].right) == Reach(nodes, nodes[j].right)
    requires Separated(nodes, ps, j, depth)
    ensures Separated(Grow(nodes, p, left, |ps|), ps + [q], j, depth)
  {
    SamePositions(nodes, ps, p, left, q);
    var g := Grow(nodes, p, left, |ps|);
    assert g[j] == nodes[j];
  }

  lemma SamePositions(nodes: seq<KdNode>, ps: seq<Vec3>, p: int, left: bool, q: Vec3)
    requires Shaped(nodes, ps) && 0 <= p < |nodes|
    requires (if left then nodes[p].left else nodes[p].right) == -1
    ensures Shaped(Grow(nodes, p, left, |ps|), ps + [q])
    ensures forall m :: 0 <= m < |nodes| ==> NodePos(Grow(nodes, p, left, |ps|), ps + [q], m) == NodePos(nodes, ps, m)
    ensures NodePos(Grow(nodes, p, left, |ps|), ps + [q], |nodes|) == q
  {
    GrowShaped(nodes, ps, p, left, q);
    var g := Grow(nodes, p, left, |ps|);
    forall m | 0 <= m < |nodes| ensures NodePos(g, ps + [q], m) == NodePos(nodes, ps, m) {
      assert g[m].pointIndex == nodes[m].pointIndex;
      assert 0 <= nodes[m].pointIndex < |ps|;
    }
  }

  /** Node `k` stays separated when the new point joins the subtree on its own side. */
  lemma SeparatedAfterAttach(nodes: seq<KdNode>, ps: seq<Vec3>, q: Vec3, p: int, side: bool, k: int, depth: nat)
    requires Shaped(nodes, ps) && 0 <= p < |nodes| && 0 <= k < |nodes|
    requires (if side then nodes[p].left else nodes[p].right) == -1
    requires Separated(nodes, ps, k, depth)
    requires Shaped(Grow(nodes, p, side, |ps|), ps + [q])
    requires var g := Grow(nodes, p, side, |ps|);
             var goLeft := ComparePoints(q, NodePos(nodes, ps, k), AxisOf(depth)) < 0;
             && Reach(g, if goLeft then g[k].left else g[k].right)
                == Reach(nodes, if goLeft then nodes[k].left else nodes[k].right) + {|nodes|}
             && Reach(g, if goLeft then g[k].right else g[k].left)
                == Reach(nodes, if goLeft then nodes[k].right else nodes[k].left)
    ensures Separated(Grow(nodes, p, side, |ps|), ps + [q], k, depth)
  {
    SamePositions(nodes, ps, p, side, q);
  }

  /** The insertion walk stays inside the subtree it starts from. */
  lemma {:induction false} AttachInReach(nodes: seq<KdNode>, ps: seq<Vec3>, q: Vec3, k: int, depth: nat)
    requires Shaped(nodes, ps) && 0 <= k < |nodes|
    ensures AttachPoint(nodes, ps, k, depth, q).0 in Reach(nodes, k)
    decreases |nodes| - k
  {
    var nd := nodes[k];
    assert ChildLink(nodes, k, nd.left) && ChildLink(nodes, k, nd.right);
    var goLeft := ComparePoints(q, NodePos(nodes, ps, k), AxisOf(depth)) < 0;
    var child := if goLeft then nd.left else nd.right;
    if child != -1 {
      AttachInReach(nodes, ps, q, child, depth + 1);
    }
  }

  /** Along the insertion walk from `k`, the subtree gains exactly the new node. */
  lemma {:induction false} AttachReach(nodes: seq<KdNode>, ps: seq<Vec3>, q: Vec3, k: int, depth: nat)
    requires Shaped(nodes, ps) && 0 <= k < |nodes| && Ordered(nodes, ps, k, depth)
    ensures var a := AttachPoint(nodes, ps, k, depth, q);
            var g := Grow(nodes, a.0, a.1, |ps|);
            Links(g) && Reach(g, k) == Reach(nodes, k) + {|nodes|}
    decreases |nodes| - k
  {
    var nd := nodes[k];
    assert ChildLink(nodes, k, nd.left) && ChildLink(nodes, k, nd.right);
    var goLeft := ComparePoints(q, NodePos(nodes, ps, k), AxisOf(depth)) < 0;
    var child := if goLeft then nd.left else nd.right;
    if child == -1 {
      assert AttachPoint(nodes, ps, k, depth, q) == (k, goLeft);
      AttachHereReach(nodes, k, goLeft, |ps|);
    } else {
      AttachReach(nodes, ps, q, child, depth + 1);
      AttachInReach(nodes, ps, q, child, depth + 1);
      AttachBelowReach(nodes, ps, q, k, depth, goLeft);
    }
  }

  /** The step of `AttachReach` when the walk continues into a child whose subtree gains the node. */
  lemma AttachBelowReach(nodes: seq<KdNode>, ps: seq<Vec3>, q: Vec3, k: int, depth: nat, goLeft: bool)
    requires Shaped(nodes, ps) && 0 <= k < |nodes| && Ordered(nodes, ps, k, depth)
    requires goLeft <==> ComparePoints(q, NodePos(nodes, ps, k), AxisOf(depth)) < 0
    requires var child := if goLeft then nodes[k].left else nodes[k].right;
             && k < child < |nodes|
             && var a := AttachPoint(nodes, ps, child, depth + 1, q);
                var g := Grow(nodes, a.0, a.1, |ps|);
                && a.0 in Reach(nodes, child)
                && Links(g) && Reach(g, child) == Reach(nodes, child) + {|nodes|}
    ensures var a := AttachPoint(nodes, ps, k, depth, q);
            var g := Grow(nodes, a.0, a.1, |ps|);
            Links(g) && Reach(g, k) == Reach(nodes, k) + {|nodes|}
  {
    var nd := nodes[k];
    var child := if goLeft then nd.left else nd.right;
    var other := if goLeft then nd.right else nd.left;
    assert ChildLink(nodes, k, nd.left) && ChildLink(nodes, k, nd.right);
    var a := AttachPoint(nodes, ps, k, depth, q);
    assert a == AttachPoint(nodes, ps, child, depth + 1, q);
    var g := Grow(nodes, a.0, a.1, |ps|);
    OrderedSplits(nodes, ps, k, depth);
    assert g[k] == nd;
    GrowReachFrame(nodes, a.0, a.1, |ps|, other);
    ReachSplit(g, k, goLeft);
    ReachSplit(nodes, k, goLeft);
    SetShift(k, Reach(nodes, child), Reach(nodes, other), |nodes|);
  }

  lemma SetShift(k: int, a: set<int>, b: set<int>, n: int)
    ensures {k} + (a + {n}) + b == {k} + a + b + {n}
  {
  }

  /** Along the insertion walk from `k`, the subtree stays ordered. */
  lemma {:induction false} AttachKeepsOrder(nodes: seq<KdNode>, ps: seq<Vec3>, q: Vec3, k: int, depth: nat)
    requires Shaped(nodes, ps) && 0 <= k < |nodes| && Ordered(nodes, ps, k, depth)
    ensures var a := AttachPoint(nodes, ps, k, depth, q);
            var g := Grow(nodes, a.0, a.1, |ps|);
            Shaped(g, ps + [q]) && Ordered(g, ps + [q], k, depth)
    decreases |nodes| - k
  {
    var nd := nodes[k];
    assert ChildLink(nodes, k, nd.left) && ChildLink(nodes, k, nd.right);
    var goLeft := ComparePoints(q, NodePos(nodes, ps, k), AxisOf(depth)) < 0;
    var child := if goLeft then nd.left else nd.right;
    if child == -1 {
      AttachHereOrder(nodes, ps, q, k, depth, goLeft);
    } else {
      AttachKeepsOrder(nodes, ps, q, child, depth + 1);
      AttachBelowOrder(nodes, ps, q, k, depth, goLeft);
    }
  }

  /** The step of `AttachKeepsOrder` when the new node hangs directly below `k`. */
  lemma AttachHereOrder(nodes: seq<KdNode>, ps: seq<Vec3>, q: Vec3, k: int, depth: nat, goLeft: bool)
    requires Shaped(nodes, ps) && 0 <= k < |nodes| && Ordered(nodes, ps, k, depth)
    requires goLeft <==> ComparePoints(q, NodePos(nodes, ps, k), AxisOf(depth)) < 0
    requires (if goLeft then nodes[k].left else nodes[k].right) == -1
    ensures var a := AttachPoint(nodes, ps, k, depth, q);
            var g := Grow(nodes, a.0, a.1, |ps|);
            Shaped(g, ps + [q]) && Ordered(g, ps + [q], k, depth)
  {
    var nd := nodes[k];
    assert ChildLink(nodes, k, nd.left) && ChildLink(nodes, k, nd.right);
    var other := if goLeft then nd.right else nd.left;
    var a := AttachPoint(nodes, ps, k, depth, q);
    assert a == (k, goLeft);
    var g := Grow(nodes, k, goLeft, |ps|);
    GrowShaped(nodes, ps, k, goLeft, q);
    NewLeafReach(nodes, k, goLeft, |ps|);
    NewLeaf(nodes, ps, k, goLeft, q, depth + 1);
    OrderedSplits(nodes, ps, k, depth);
    assert g[k] == SetChild(nd, goLeft, |nodes|);
    GrowFrame(nodes, ps, k, goLeft, q, other, depth + 1);
    SeparatedAfterAttach(nodes, ps, q, k, goLeft, k, depth);
  }

  /** The step of `AttachKeepsOrder` when the walk continues into a child of `k`. */
  lemma AttachBelowOrder(nodes: seq<KdNode>, ps: seq<Vec3>, q: Vec3, k: int, depth: nat, goLeft: bool)
    requires Shaped(nodes, ps) && 0 <= k < |nodes| && Ordered(nodes, ps, k, depth)
    requires goLeft <==> ComparePoints(q, NodePos(nodes, ps, k), AxisOf(depth)) < 0
    requires var child := if goLeft then nodes[k].left else nodes[k].right;
             && k < child < |nodes|
             && var a := AttachPoint(nodes, ps, child, depth + 1, q);
                var g := Grow(nodes, a.0, a.1, |ps|);
                Shaped(g, ps + [q]) && Ordered(g, ps + [q], child, depth + 1)
    ensures var a := AttachPoint(nodes, ps, k, depth, q);
            var g := Grow(nodes, a.0, a.1, |ps|);
            Shaped(g, ps + [q]) && Ordered(g, ps + [q], k, depth)
  {
    var nd := nodes[k];
    assert ChildLink(nodes, k, nd.left) && ChildLink(nodes, k, nd.right);
    var child := if goLeft then nd.left else nd.right;
    var other := if goLeft then nd.right else nd.left;
    var a := AttachPoint(nodes, ps, child, depth + 1, q);
    assert a == AttachPoint(nodes, ps, k, depth, q);
    var g := Grow(nodes, a.0, a.1, |ps|);
    GrowShaped(nodes, ps, a.0, a.1, q);
    OrderedSplits(nodes, ps, k, depth);
    AttachReach(nodes, ps, q, child, depth + 1);
    AttachInReach(nodes, ps, q, child, depth + 1);
    assert g[k] == nd;
    GrowFrame(nodes, ps, a.0, a.1, q, other, depth + 1);
    SeparatedAfterAttach(nodes, ps, q, a.0, a.1, k, depth);
  }

  /** Attaching directly below `k` adds just the new node to its subtree. */
  lemma AttachHereReach(nodes: seq<KdNode>, k: int, left: bool, pointIndex: int)
    requires Links(nodes) && 0 <= k < |nodes|
    requires (if left then nodes[k].left else nodes[k].right) == -1
    ensures Links(Grow(nodes, k, left, pointIndex))
    ensures Reach(Grow(nodes, k, left, pointIndex), k) == Reach(nodes, k) + {|nodes|}
  {
    var g := Grow(nodes, k, left, pointIndex);
    var nd := nodes[k];
    var other := if left then nd.right else nd.left;
    NewLeafReach(nodes, k, left, pointIndex);
    assert ChildLink(nodes, k, nd.left) && ChildLink(nodes, k, nd.right);
    assert g[k] == SetChild(nd, left, |nodes|);
    GrowReachFrame(nodes, k, left, pointIndex, other);
    ReachSplit(g, k, left);
    ReachSplit(nodes, k, left);
  }

  lemma ReachSplit(nodes: seq<KdNode>, k: int, goLeft: bool)
    requires Links(nodes) && 0 <= k < |nodes|
    ensures ChildLink(nodes, k, nodes[k].left) && ChildLink(nodes, k, nodes[k].right)
    ensures Reach(nodes, k) == {k} + Reach(nodes, if goLeft then nodes[k].left else nodes[k].right)
                                   + Reach(nodes, if goLeft then nodes[k].right else nodes[k].left)
  {
    assert ChildLink(nodes, k, nodes[k].left) && ChildLink(nodes, k, nodes[k].right);
  }

  lemma NewLeafReach(nodes: seq<KdNode>, p: int, side: bool, pointIndex: int)
    requires Links(nodes) && 0 <= p < |nodes|
    ensures Links(Grow(nodes, p, side, pointIndex))
    ensures Reach(Grow(nodes, p, side, pointIndex), |nodes|) == {|nodes|}
  {
    GrowLinks(nodes, p, side, pointIndex);
    var g := Grow(nodes, p, side, pointIndex);
    assert g[|nodes|] == NewNode(pointIndex);
  }

  /** The appended node is a leaf. */
  lemma NewLeaf(nodes: seq<KdNode>, ps: seq<Vec3>, p: int, side: bool, q: Vec3, depth: nat)
    requires Shaped(nodes, ps) && 0 <= p < |nodes|
    requires (if side then nodes[p].left else nodes[p].right) == -1
    ensures Shaped(Grow(nodes, p, side, |ps|), ps + [q])
    ensures Reach(Grow(nodes, p, side, |ps|), |nodes|) == {|nodes|}
    ensures Ordered(Grow(nodes, p, side, |ps|), ps + [q], |nodes|, depth)
  {
    GrowShaped(nodes, ps, p, side, q);
    var g := Grow(nodes, p, side, |ps|);
    assert g[|nodes|] == NewNode(|ps|);
  }

  lemma IndicesSucc(n: nat)
    ensures Indices(n) + {n} == Indices(n + 1)
  {
  }

  /**
   * Insertion appends exactly one node, for the new point, and keeps the tree
   * invariant; every other node keeps its point and at most one link changes.
   */
  lemma InsertValid(nodes: seq<KdNode>, ps: seq<Vec3>, q: Vec3)
    requires Valid(nodes, ps)
    ensures Valid(Insert(nodes, ps, q), ps + [q])
    ensures |Insert(nodes, ps, q)| == |nodes| + 1
    ensures Insert(nodes, ps, q)[|nodes|] == NewNode(|nodes|)
  {
    var g := Insert(nodes, ps, q);
    if |nodes| == 0 {
      assert Reach(g, 0) == {0};
      assert Indices(1) == {0};
    } else {
      AttachKeepsOrder(nodes, ps, q, 0, 0);
      AttachReach(nodes, ps, q, 0, 0);
      IndicesSucc(|nodes|);
    }
  }

  /** The node list produced by inserting the points one after another into an empty tree. */
  ghost function Build(ps: seq<Vec3>): (r: seq<KdNode>)
    ensures Valid(r, ps)
    decreases |ps|
  {
    if ps == [] then []
    else
      var init := ps[..|ps| - 1];
      var prev := Build(init);
      InsertValidLast(prev, ps);
      Insert(prev, init, ps[|ps| - 1])
  }

  lemma InsertValidLast(nodes: seq<KdNode>, ps: seq<Vec3>)
    requires ps != [] && Valid(nodes, ps[..|ps| - 1])
    ensures Valid(Insert(nodes, ps[..|ps| - 1], ps[|ps| - 1]), ps)
  {
    var init, last := ps[..|ps| - 1], ps[|ps| - 1];
    assert init + [last] == ps;
    InsertValid(nodes, init, last);
  }

  lemma BuildSnoc(ps: seq<Vec3>, q: Vec3)
    ensures Build(ps + [q]) == Insert(Build(ps), ps, q)
  {
    assert (ps + [q])[..|ps|] == ps;
  }

  // ---------------------------------------------------------------------------
  // Nearest-neighbour search

  /**
   * The search compares distances to the target, and the gap between the target
   * and a splitting plane with a distance. Both are passed in as functions: `dist(p)`
   * is the squared distance from the target to `p`, `gap(p, a)` the squared distance
   * from the target to the plane through `p` across axis `a`. Comparing squares is
   * the same as comparing the non-negative distances themselves.
   */
  function DistTo(t: Vec3): Vec3 -> real {
    p => DistSq(t, p)
  }

  function GapTo(t: Vec3): (Vec3, Axis) -> real {
    (p: Vec3, a: Axis) => Sq(Coord(t, a) - Coord(p, a))
  }

  /** `m` lies across the plane through `p` (axis `a`) from the target `t`. */
  predicate FarSide(t: Vec3, p: Vec3, m: Vec3, a: Axis) {
    || (Coord(t, a) < Coord(p, a) && Coord(m, a) >= Coord(p, a))
    || (Coord(t, a) >= Coord(p, a) && Coord(m, a) < Coord(p, a))
  }

  /** A point across a plane from the target is no closer than the plane itself. */
  ghost predicate PlaneBound(t: Vec3, dist: Vec3 -> real, gap: (Vec3, Axis) -> real) {
    forall p, m, a :: FarSide(t, p, m, a) ==> gap(p, a) <= dist(m)
  }

  lemma EuclideanPlaneBound(t: Vec3)
    ensures PlaneBound(t, DistTo(t), GapTo(t))
  {
    forall p, m, a | FarSide(t, p, m, a) ensures GapTo(t)(p, a) <= DistTo(t)(m) {
      FarSideBound(t, p, m, a);
    }
  }

  /**
   * `FindNearest(nodeIndex, target, depth, bestIndex)`: visit the node, descend on the
   * target's side, and visit the other side only while the splitting plane is closer
   * than the best point so far. Returns a point index, or -1 when nothing was seen.
   */
  function NearestFrom(nodes: seq<KdNode>, ps: seq<Vec3>, k: int, t: Vec3, depth: nat, best: int,
                       dist: Vec3 -> real, gap: (Vec3, Axis) -> real): (r: int)
    requires Shaped(nodes, ps) && -1 <= k < |nodes|
    requires best == -1 || 0 <= best < |ps|
    ensures r == -1 || 0 <= r < |ps|
    ensures best != -1 || k != -1 ==> r != -1
    decreases if k == -1 then 0 else |nodes| - k
  {
    if k == -1 then best
    else
      var nd := nodes[k];
      var np := ps[nd.pointIndex];
      var nb := if best == -1 || dist(np) < dist(ps[best]) then nd.pointIndex else best;
      var ax := AxisOf(depth);
      var next := if ComparePoints(t, np, ax) < 0 then nd.left else nd.right;
      var other := if next == nd.left then nd.right else nd.left;
      var nb2 := NearestFrom(nodes, ps, next, t, depth + 1, nb, dist, gap);
      if gap(np, ax) < dist(ps[nb2])
      then NearestFrom(nodes, ps, other, t, depth + 1, nb2, dist, gap)
      else nb2
  }

  /** The search result is the incoming best or a point of the subtree. */
  lemma {:induction false} NearestFromSource(nodes: seq<KdNode>, ps: seq<Vec3>, k: int, t: Vec3, depth: nat, best: int,
                                             dist: Vec3 -> real, gap: (Vec3, Axis) -> real)
    requires Shaped(nodes, ps) && -1 <= k < |nodes|
    requires best == -1 || 0 <= best < |ps|
    ensures var r := NearestFrom(nodes, ps, k, t, depth, best, dist, gap);
            r == best || exists m :: m in Reach(nodes, k) && r == nodes[m].pointIndex
    decreases if k == -1 then 0 else |nodes| - k
  {
    if k != -1 {
      var nd := nodes[k];
      var np := ps[nd.pointIndex];
      var nb := if best == -1 || dist(np) < dist(ps[best]) then nd.pointIndex else best;
      var ax := AxisOf(depth);
      var next := if ComparePoints(t, np, ax) < 0 then nd.left else nd.right;
      var other := if next == nd.left then nd.right else nd.left;
      ReachSplit(nodes, k, next == nd.left);
      NearestFromSource(nodes, ps, next, t, depth + 1, nb, dist, gap);
      var nb2 := NearestFrom(nodes, ps, next, t, depth + 1, nb, dist, gap);
      NearestFromSource(nodes, ps, other, t, depth + 1, nb2, dist, gap);
    }
  }

  /** The search never returns a point farther than the incoming best. */
  lemma {:induction false} NearestFromNoWorse(nodes: seq<KdNode>, ps: seq<Vec3>, k: int, t: Vec3, depth: nat, best: int,
                                              dist: Vec3 -> real, gap: (Vec3, Axis) -> real)
    requires Shaped(nodes, ps) && -1 <= k < |nodes|
    requires 0 <= best < |ps|
    ensures dist(ps[NearestFrom(nodes, ps, k, t, depth, best, dist, gap)]) <= dist(ps[best])
    decreases if k == -1 then 0 else |nodes| - k
  {
    if k != -1 {
      var nd := nodes[k];
      var np := ps[nd.pointIndex];
      var nb := if dist(np) < dist(ps[best]) then nd.pointIndex else best;
      var ax := AxisOf(depth);
      var next := if ComparePoints(t, np, ax) < 0 then nd.left else nd.right;
      var other := if next == nd.left then nd.right else nd.left;
      assert ChildLink(nodes, k, nd.left) && ChildLink(nodes, k, nd.right);
      NearestFromNoWorse(nodes, ps, next, t, depth + 1, nb, dist, gap);
      var nb2 := NearestFrom(nodes, ps, next, t, depth + 1, nb, dist, gap);
      NearestFromNoWorse(nodes, ps, other, t, depth + 1, nb2, dist, gap);
    }
  }

  /**
   * When the splitting plane of node `k` is no closer to the target than the best
   * point, nothing on the far side of the plane is closer either.
   */
  lemma PruneSafe(nodes: seq<KdNode>, ps: seq<Vec3>, k: int, t: Vec3, depth: nat, best: int,
                  dist: Vec3 -> real, gap: (Vec3, Axis) -> real)
    requires Shaped(nodes, ps) && 0 <= k < |nodes| && Ordered(nodes, ps, k, depth)
    requires 0 <= best < |ps| && PlaneBound(t, dist, gap)
    requires gap(NodePos(nodes, ps, k), AxisOf(depth)) >= dist(ps[best])
    requires ChildLink(nodes, k, nodes[k].left) && ChildLink(nodes, k, nodes[k].right)
    ensures var np := NodePos(nodes, ps, k);
            var next := if ComparePoints(t, np, AxisOf(depth)) < 0 then nodes[k].left else nodes[k].right;
            var other := if next == nodes[k].left then nodes[k].right else nodes[k].left;
            forall m :: m in Reach(nodes, other) ==> dist(ps[best]) <= dist(NodePos(nodes, ps, m))
  {
    var nd := nodes[k];
    var np := NodePos(nodes, ps, k);
    var ax := AxisOf(depth);
    var next := if ComparePoints(t, np, ax) < 0 then nd.left else nd.right;
    var other := if next == nd.left then nd.right else nd.left;
    forall m | m in Reach(nodes, other)
      ensures dist(ps[best]) <= dist(NodePos(nodes, ps, m))
    {
      assert FarSide(t, np, NodePos(nodes, ps, m), ax);
    }
  }

  /** The second half of a visit: pruned or searched, the other side holds nothing closer. */
  lemma {:induction false} OtherSideBeats(nodes: seq<KdNode>, ps: seq<Vec3>, k: int, t: Vec3, depth: nat, nb2: int,
                                          dist: Vec3 -> real, gap: (Vec3, Axis) -> real)
    requires Shaped(nodes, ps) && 0 <= k < |nodes| && Ordered(nodes, ps, k, depth)
    requires 0 <= nb2 < |ps| && PlaneBound(t, dist, gap)
    ensures ChildLink(nodes, k, nodes[k].left) && ChildLink(nodes, k, nodes[k].right)
    ensures var np := NodePos(nodes, ps, k);
            var next := if ComparePoints(t, np, AxisOf(depth)) < 0 then nodes[k].left else nodes[k].right;
            var other := if next == nodes[k].left then nodes[k].right else nodes[k].left;
            var r := if gap(np, AxisOf(depth)) < dist(ps[nb2])
                     then NearestFrom(nodes, ps, other, t, depth + 1, nb2, dist, gap) else nb2;
            && dist(ps[r]) <= dist(ps[nb2])
            && forall m :: m in Reach(nodes, other) ==> dist(ps[r]) <= dist(NodePos(nodes, ps, m))
    decreases |nodes| - k, 0
  {
    var nd := nodes[k];
    assert ChildLink(nodes, k, nd.left) && ChildLink(nodes, k, nd.right);
    var np := NodePos(nodes, ps, k);
    var next := if ComparePoints(t, np, AxisOf(depth)) < 0 then nd.left else nd.right;
    var other := if next == nd.left then nd.right else nd.left;
    if gap(np, AxisOf(depth)) < dist(ps[nb2]) {
      NearestFromBeats(nodes, ps, other, t, depth + 1, nb2, dist, gap);
      NearestFromNoWorse(nodes, ps, other, t, depth + 1, nb2, dist, gap);
    } else {
      PruneSafe(nodes, ps, k, t, depth, nb2, dist, gap);
    }
  }

  /** A bound that holds at node `k` and on both of its subtrees holds on its whole subtree. */
  lemma BoundOnSubtree(nodes: seq<KdNode>, ps: seq<Vec3>, k: int, goLeft: bool, d: real, dist: Vec3 -> real)
    requires Shaped(nodes, ps) && 0 <= k < |nodes|
    requires ChildLink(nodes, k, nodes[k].left) && ChildLink(nodes, k, nodes[k].right)
    requires d <= dist(NodePos(nodes, ps, k))
    requires forall m :: m in Reach(nodes, if goLeft then nodes[k].left else nodes[k].right) ==> d <= dist(NodePos(nodes, ps, m))
    requires forall m :: m in Reach(nodes, if goLeft then nodes[k].right else nodes[k].left) ==> d <= dist(NodePos(nodes, ps, m))
    ensures forall m :: m in Reach(nodes, k) ==> d <= dist(NodePos(nodes, ps, m))
  {
    ReachSplit(nodes, k, goLeft);
  }

  /** Pruning never discards a closer point: the result beats the whole subtree. */
  lemma {:induction false} NearestFromBeats(nodes: seq<KdNode>, ps: seq<Vec3>, k: int, t: Vec3, depth: nat, best: int,
                                            dist: Vec3 -> real, gap: (Vec3, Axis) -> real)
    requires Shaped(nodes, ps) && -1 <= k < |nodes|
    requires best == -1 || 0 <= best < |ps|
    requires Ordered(nodes, ps, k, depth) && PlaneBound(t, dist, gap)
    ensures var r := NearestFrom(nodes, ps, k, t, depth, best, dist, gap);
            forall m :: m in Reach(nodes, k) ==> dist(ps[r]) <= dist(NodePos(nodes, ps, m))
    decreases if k == -1 then 0 else |nodes| - k, 1
  {
    if k != -1 {
      var nd := nodes[k];
      var np := ps[nd.pointIndex];
      var nb := if best == -1 || dist(np) < dist(ps[best]) then nd.pointIndex else best;
      var ax := AxisOf(depth);
      var goLeft := ComparePoints(t, np, ax) < 0;
      var next := if goLeft then nd.left else nd.right;
      assert ChildLink(nodes, k, nd.left) && ChildLink(nodes, k, nd.right);
      NearestFromBeats(nodes, ps, next, t, depth + 1, nb, dist, gap);
      NearestFromNoWorse(nodes, ps, next, t, depth + 1, nb, dist, gap);
      var nb2 := NearestFrom(nodes, ps, next, t, depth + 1, nb, dist, gap);
      OtherSideBeats(nodes, ps, k, t, depth, nb2, dist, gap);
      var other := if goLeft then nd.right else nd.left;
      var r := NearestFrom(nodes, ps, k, t, depth, best, dist, gap);
      assert NodePos(nodes, ps, k) == np;
      assert r == if gap(np, ax) < dist(ps[nb2]) then NearestFrom(nodes, ps, other, t, depth + 1, nb2, dist, gap) else nb2;
      var d := dist(ps[r]);
      assert d <= dist(ps[nb2]) <= dist(ps[nb]) <= dist(np);
      forall m | m in Reach(nodes, next) ensures d <= dist(NodePos(nodes, ps, m)) {
        assert dist(ps[nb2]) <= dist(NodePos(nodes, ps, m));
      }
      BoundOnSubtree(nodes, ps, k, goLeft, d, dist);
    }
  }

  /** `FindNearest(target)`: -1 exactly for an empty tree, else a closest point. */
  function FindNearest(nodes: seq<KdNode>, ps: seq<Vec3>, t: Vec3): (r: int)
    requires Valid(nodes, ps)
    ensures r == -1 <==> |ps| == 0
    ensures r != -1 ==> 0 <= r < |ps| && forall i :: 0 <= i < |ps| ==> DistSq(t, ps[r]) <= DistSq(t, ps[i])
  {
    if |nodes| == 0 then -1
    else
      EuclideanPlaneBound(t);
      NearestFromBeats(nodes, ps, 0, t, 0, -1, DistTo(t), GapTo(t));
      var r := NearestFrom(nodes, ps, 0, t, 0, -1, DistTo(t), GapTo(t));
      assert forall i :: 0 <= i < |ps| ==> i in Reach(nodes, 0) && NodePos(nodes, ps, i) == ps[i];
      r
  }
}
