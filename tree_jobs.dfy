/**
 * The two jobs declared next to `BurstKdTree`: merge-or-insert of a batch of samples,
 * and expiry followed by a rebuild.
 */
module BurstTreeJobs {
  import opened Geometry
  import opened Points
  import opened KdArena
  import opened KdTree

  // ---------------------------------------------------------------------------
  // TreeInsertJob

  /**
   * One datum: refresh the timestamp of the nearest point when it lies strictly
   * within `density`, otherwise insert the datum as a new point.
   */
  ghost function MergeStep(s: TreeState, d: PointInsertData): (r: TreeState)
    requires ValidState(s)
    ensures ValidState(r)
  {
    var near := KdArena.FindNearest(s.nodes, Positions(s.points), d.position);
    if near != -1 && DistLt(d.position, s.points[near].position, d.density) then
      PositionsIgnoreTimestamp(s.points, near, d.timestamp);
      TreeState(s.nodes, s.points[near := s.points[near].(timestamp := d.timestamp)])
    else
      InsertState(s, ToPointData(d))
  }

  /** The data applied in order, the last datum last. */
  ghost function MergeAll(s: TreeState, data: seq<PointInsertData>): (r: TreeState)
    requires ValidState(s)
    ensures ValidState(r)
    decreases |data|
  {
    if data == [] then s
    else MergeStep(MergeAll(s, data[..|data| - 1]), data[|data| - 1])
  }

  /**
   * A datum either refreshes one point that lies within its density, leaving the
   * nodes, the positions, the colours and every other point alone, or it is inserted,
   * and then no point of the tree lay within its density.
   */
  lemma MergeStepEffect(s: TreeState, d: PointInsertData)
    requires ValidState(s)
    ensures var r := MergeStep(s, d);
            || (exists i :: 0 <= i < |s.points| && DistLt(d.position, s.points[i].position, d.density)
                 && r.nodes == s.nodes
                 && r.points == s.points[i := PointData(s.points[i].position, s.points[i].color, d.timestamp)])
            || (&& r.points == s.points + [PointData(d.position, d.color, d.timestamp)]
                && forall i :: 0 <= i < |s.points| ==> !DistLt(d.position, s.points[i].position, d.density))
  {
    var near := KdArena.FindNearest(s.nodes, Positions(s.points), d.position);
    if near != -1 && DistLt(d.position, s.points[near].position, d.density) {
    } else if near != -1 {
      forall i | 0 <= i < |s.points| ensures !DistLt(d.position, s.points[i].position, d.density) {
        assert DistSq(d.position, s.points[near].position) <= DistSq(d.position, s.points[i].position);
      }
    }
  }

  /** Each datum adds at most one point and no point is ever removed. */
  lemma {:induction false} MergeAllCount(s: TreeState, data: seq<PointInsertData>)
    requires ValidState(s)
    ensures |s.points| <= |MergeAll(s, data).points| <= |s.points| + |data|
    decreases |data|
  {
    if data != [] {
      var prev := MergeAll(s, data[..|data| - 1]);
      MergeAllCount(s, data[..|data| - 1]);
      MergeStepEffect(prev, data[|data| - 1]);
    }
  }

  /** `TreeInsertJob.Execute`. */
  method TreeInsertJob(data: seq<PointInsertData>, tree: BurstKdTree)
    requires tree.Valid()
    modifies tree
    ensures tree.Valid()
    ensures tree.State() == MergeAll(old(tree.State()), data)
  {
    var i := 0;
    while i < |data|
      invariant 0 <= i <= |data|
      invariant tree.Valid()
      invariant tree.State() == MergeAll(old(tree.State()), data[..i])
    {
      assert data[..i + 1][..i] == data[..i];
      MergeOne(data[i], tree);
      i := i + 1;
    }
    assert data[..i] == data;
  }

  /** The body of the loop in `TreeInsertJob.Execute`, for one datum. */
  method MergeOne(d: PointInsertData, tree: BurstKdTree)
    requires tree.Valid()
    modifies tree
    ensures tree.Valid()
    ensures tree.State() == MergeStep(old(tree.State()), d)
  {
    var nearIndex := tree.FindNearest(d.position);
    if nearIndex != -1 && DistLt(d.position, tree.points[nearIndex].position, d.density) {
      var nearestData := tree.points[nearIndex];
      nearestData := nearestData.(timestamp := d.timestamp);
      PositionsIgnoreTimestamp(tree.points, nearIndex, d.timestamp);
      tree.points := tree.points[nearIndex := nearestData];
    } else {
      tree.Insert(PointData(d.position, d.color, d.timestamp));
    }
  }

  // ---------------------------------------------------------------------------
  // TreeCleanupJob (and the identical NaiveTreeCleanupJob)

  /**
   * Keep the points with `currentTime - timestamp < maxAge`; when any expired, the
   * tree is cleared and the survivors are reinserted in their original order.
   */
  ghost function CleanupSpec(s: TreeState, time: real, maxAge: real): TreeState
  {
    var kept := Survivors(s.points, time, maxAge);
    if |kept| == |s.points| then s else BuildState(kept)
  }

  /**
   * After cleanup the points are exactly the survivors in order, the tree is valid,
   * and it is untouched when nothing expired.
   */
  lemma CleanupKeepsSurvivors(s: TreeState, time: real, maxAge: real)
    requires ValidState(s)
    ensures CleanupSpec(s, time, maxAge).points == Survivors(s.points, time, maxAge)
    ensures ValidState(CleanupSpec(s, time, maxAge))
    ensures |CleanupSpec(s, time, maxAge).points| <= |s.points|
    ensures (forall i :: 0 <= i < |s.points| ==> Alive(s.points[i], time, maxAge))
            ==> CleanupSpec(s, time, maxAge) == s
  {
    SurvivorsAllAlive(s.points, time, maxAge);
    SurvivorsExact(s.points, time, maxAge);
  }

  /** Running the cleanup twice at the same time is the same as running it once. */
  lemma CleanupIdempotent(s: TreeState, time: real, maxAge: real)
    ensures CleanupSpec(CleanupSpec(s, time, maxAge), time, maxAge) == CleanupSpec(s, time, maxAge)
  {
    var once := CleanupSpec(s, time, maxAge);
    var kept := Survivors(s.points, time, maxAge);
    SurvivorsExact(s.points, time, maxAge);
    SurvivorsAllAlive(s.points, time, maxAge);
    if |kept| != |s.points| {
      assert forall i :: 0 <= i < |kept| ==> kept[i] in kept;
      SurvivorsAllAlive(kept, time, maxAge);
    }
  }

  /** The survivors of `ps`, gathered one point at a time. */
  method CollectSurvivors(ps: seq<PointData>, currentTime: real, maxAge: real) returns (buffer: seq<PointData>)
    ensures buffer == Survivors(ps, currentTime, maxAge)
  {
    buffer := [];
    var i := 0;
    while i < |ps|
      invariant 0 <= i <= |ps|
      invariant buffer == Survivors(ps[..i], currentTime, maxAge)
    {
      assert ps[..i + 1][..i] == ps[..i];
      if currentTime - ps[i].timestamp < maxAge {
        buffer := buffer + [ps[i]];
      }
      i := i + 1;
    }
    assert ps[..i] == ps;
  }

  /** Clear the tree and insert `buffer` in order. */
  method Rebuild(tree: BurstKdTree, buffer: seq<PointData>)
    modifies tree
    ensures tree.Valid() && tree.State() == BuildState(buffer)
  {
    tree.Clear();
    var j := 0;
    while j < |buffer|
      invariant 0 <= j <= |buffer|
      invariant tree.Valid() && tree.State() == BuildState(buffer[..j])
    {
      assert buffer[..j + 1] == buffer[..j] + [buffer[j]];
      BuildStateSnoc(buffer[..j], buffer[j]);
      tree.Insert(buffer[j]);
      j := j + 1;
    }
    assert buffer[..j] == buffer;
  }

  /** `TreeCleanupJob.Execute`. */
  method TreeCleanupJob(currentTime: real, maxAge: real, tree: BurstKdTree)
    requires tree.Valid()
    modifies tree
    ensures tree.Valid()
    ensures tree.State() == CleanupSpec(old(tree.State()), currentTime, maxAge)
  {
    var buffer := CollectSurvivors(tree.points, currentTime, maxAge);
    if |buffer| != |tree.points| {
      Rebuild(tree, buffer);
    }
  }
}
