/**
 * Phase 2 of the two-phase tree update: the classified data are applied in order,
 * refreshing timestamps for updates and inserting everything else.
 */
module TreeApply {
  import opened Geometry
  import opened Points
  import opened KdArena
  import opened KdTree

  /** Every update entry refers to one of the first `n` points. */
  predicate UpdatesInRange(data: seq<PointInsertData>, n: int) {
    forall i :: 0 <= i < |data| && data[i].isUpdate ==> 0 <= data[i].updateIndex < n
  }

  /** The number of entries that insert a point. */
  function InsertCount(data: seq<PointInsertData>): (c: nat)
    ensures c <= |data|
    decreases |data|
  {
    if data == [] then 0
    else InsertCount(data[..|data| - 1]) + (if data[|data| - 1].isUpdate then 0 else 1)
  }

  /** The points the insert entries add, in entry order. */
  function InsertedPoints(data: seq<PointInsertData>): (r: seq<PointData>)
    ensures |r| == InsertCount(data)
    decreases |data|
  {
    if data == [] then []
    else
      var d := data[|data| - 1];
      InsertedPoints(data[..|data| - 1]) + (if d.isUpdate then [] else [ToPointData(d)])
  }

  ghost function ApplyStep(s: TreeState, d: PointInsertData): (r: TreeState)
    requires ValidState(s)
    requires d.isUpdate ==> 0 <= d.updateIndex < |s.points|
    ensures ValidState(r)
  {
    if d.isUpdate then
      PositionsIgnoreTimestamp(s.points, d.updateIndex, d.timestamp);
      TreeState(s.nodes, s.points[d.updateIndex := s.points[d.updateIndex].(timestamp := d.timestamp)])
    else
      InsertState(s, ToPointData(d))
  }

  /** The entries applied in array order. */
  ghost function ApplyAll(s: TreeState, data: seq<PointInsertData>): (r: TreeState)
    requires ValidState(s) && UpdatesInRange(data, |s.points|)
    ensures ValidState(r)
    ensures |r.points| == |s.points| + InsertCount(data)
    decreases |data|
  {
    if data == [] then s
    else
      var prev := ApplyAll(s, data[..|data| - 1]);
      ApplyStep(prev, data[|data| - 1])
  }

  /**
   * Updates change only timestamps of existing points; the inserted points follow
   * the old ones in entry order, with no deduplication inside the batch.
   */
  lemma {:induction false} ApplyAllEffect(s: TreeState, data: seq<PointInsertData>)
    requires ValidState(s) && UpdatesInRange(data, |s.points|)
    ensures var r := ApplyAll(s, data);
            && (forall i :: 0 <= i < |s.points| ==>
                  r.points[i].position == s.points[i].position && r.points[i].color == s.points[i].color)
            && r.points[|s.points|..] == InsertedPoints(data)
  {
    ApplyAllKeeps(s, data);
    ApplyAllAppends(s, data);
  }

  lemma {:induction false} ApplyAllKeeps(s: TreeState, data: seq<PointInsertData>)
    requires ValidState(s) && UpdatesInRange(data, |s.points|)
    ensures var r := ApplyAll(s, data);
            forall i :: 0 <= i < |s.points| ==>
              r.points[i].position == s.points[i].position && r.points[i].color == s.points[i].color
    decreases |data|
  {
    if data != [] {
      ApplyAllKeeps(s, data[..|data| - 1]);
    }
  }

  lemma {:induction false} ApplyAllAppends(s: TreeState, data: seq<PointInsertData>)
    requires ValidState(s) && UpdatesInRange(data, |s.points|)
    ensures ApplyAll(s, data).points[|s.points|..] == InsertedPoints(data)
    decreases |data|
  {
    if data != [] {
      var init, d := data[..|data| - 1], data[|data| - 1];
      ApplyAllAppends(s, init);
      var prev := ApplyAll(s, init);
      ApplyStepPoints(prev, d);
      SuffixStep(prev.points, ApplyAll(s, data).points, |s.points|, d);
    }
  }

  /** The suffix past the first `n` points after one step: unchanged by an update, one longer by an insert. */
  lemma SuffixStep(prev: seq<PointData>, next: seq<PointData>, n: nat, d: PointInsertData)
    requires n <= |prev|
    requires d.isUpdate ==> 0 <= d.updateIndex < n
                            && next == prev[d.updateIndex := prev[d.updateIndex].(timestamp := d.timestamp)]
    requires !d.isUpdate ==> next == prev + [ToPointData(d)]
    ensures next[n..] == prev[n..] + (if d.isUpdate then [] else [ToPointData(d)])
  {
    if d.isUpdate {
      assert next[n..] == prev[n..];
    } else {
      assert next[n..] == prev[n..] + [ToPointData(d)];
    }
  }

  /** An update rewrites one timestamp in place; an insert appends the entry's point. */
  lemma ApplyStepPoints(s: TreeState, d: PointInsertData)
    requires ValidState(s)
    requires d.isUpdate ==> 0 <= d.updateIndex < |s.points|
    ensures d.isUpdate ==> ApplyStep(s, d).points
                           == s.points[d.updateIndex := s.points[d.updateIndex].(timestamp := d.timestamp)]
    ensures !d.isUpdate ==> ApplyStep(s, d).points == s.points + [ToPointData(d)]
  {
  }

  lemma UpdatesInRangeGrow(data: seq<PointInsertData>, n: int, m: int)
    requires UpdatesInRange(data, n) && n <= m
    ensures UpdatesInRange(data, m)
  {
  }

  /** `TreeInsertJob.Execute`. */
  method TreeInsertJob(data: seq<PointInsertData>, tree: BurstKdTree)
    requires tree.Valid()
    requires UpdatesInRange(data, |tree.points|)
    modifies tree
    ensures tree.Valid()
    ensures tree.State() == ApplyAll(old(tree.State()), data)
  {
    var i := 0;
    while i < |data|
      invariant 0 <= i <= |data|
      invariant tree.Valid()
      invariant UpdatesInRange(data[..i], |old(tree.points)|)
      invariant tree.State() == ApplyAll(old(tree.State()), data[..i])
    {
      assert data[..i + 1][..i] == data[..i];
      var d := data[i];
      if d.isUpdate {
        var point := tree.points[d.updateIndex];
        point := point.(timestamp := d.timestamp);
        PositionsIgnoreTimestamp(tree.points, d.updateIndex, d.timestamp);
        tree.points := tree.points[d.updateIndex := point];
      } else {
        tree.Insert(PointData(d.position, d.color, d.timestamp));
      }
      i := i + 1;
    }
    assert data[..i] == data;
  }
}
