/**
 * Phase 1 of the two-phase tree update: each pending datum is classified, against a
 * read-only tree, as a timestamp refresh of an existing point or as an insertion.
 */
module TreeFilterUpdate {
  import opened Geometry
  import opened Points
  import opened KdArena
  import opened KdTree

  /**
   * `TreeFilterUpdateJob.Execute(index)` for one datum: marked as an update of the
   * nearest point when that lies strictly within `density`, otherwise passed on
   * unchanged (an incoming `isUpdate` is not reset).
   */
  function Classify(s: TreeState, d: PointInsertData): (r: PointInsertData)
    requires ValidState(s)
    ensures r.(isUpdate := d.isUpdate, updateIndex := d.updateIndex) == d
    ensures (exists i :: 0 <= i < |s.points| && DistLt(d.position, s.points[i].position, d.density))
            ==> && r.isUpdate
                && 0 <= r.updateIndex < |s.points|
                && DistLt(d.position, s.points[r.updateIndex].position, d.density)
                && forall j :: 0 <= j < |s.points| ==>
                     DistSq(d.position, s.points[r.updateIndex].position) <= DistSq(d.position, s.points[j].position)
    ensures (forall i :: 0 <= i < |s.points| ==> !DistLt(d.position, s.points[i].position, d.density))
            ==> r == d
  {
    var nearIndex := KdArena.FindNearest(s.nodes, Positions(s.points), d.position);
    if nearIndex == -1 then d
    else if DistLt(d.position, s.points[nearIndex].position, d.density) then
      d.(isUpdate := true, updateIndex := nearIndex)
    else
      NearestFarMeansAllFar(s, d, nearIndex);
      d
  }

  lemma NearestFarMeansAllFar(s: TreeState, d: PointInsertData, near: int)
    requires 0 <= near < |s.points|
    requires forall j :: 0 <= j < |s.points| ==>
               DistSq(d.position, s.points[near].position) <= DistSq(d.position, s.points[j].position)
    requires !DistLt(d.position, s.points[near].position, d.density)
    ensures forall i :: 0 <= i < |s.points| ==> !DistLt(d.position, s.points[i].position, d.density)
  {
  }

  /** `Execute(index)`: only `insertions[index]` is written. */
  method TreeFilterUpdateJob(data: seq<PointInsertData>, insertions: array<PointInsertData>, index: int, tree: BurstKdTree)
    requires 0 <= index < |data| && index < insertions.Length
    requires tree.Valid()
    modifies insertions
    ensures insertions[..] == old(insertions[..])[index := Classify(tree.State(), data[index])]
  {
    var d := data[index];
    var nearIndex := tree.FindNearest(d.position);
    if nearIndex == -1 {
      insertions[index] := d;
      return;
    }
    var nearestData := tree.points[nearIndex];
    if DistLt(d.position, nearestData.position, d.density) {
      d := d.(isUpdate := true, updateIndex := nearIndex);
      insertions[index] := d;
      return;
    }
    insertions[index] := d;
  }

  /** The parallel-for over all indices, run as a loop. */
  method RunFilter(data: seq<PointInsertData>, insertions: array<PointInsertData>, tree: BurstKdTree)
    requires insertions.Length == |data|
    requires tree.Valid()
    modifies insertions
    ensures forall i :: 0 <= i < |data| ==> insertions[i] == Classify(tree.State(), data[i])
  {
    var index := 0;
    while index < |data|
      invariant 0 <= index <= |data|
      invariant forall i :: 0 <= i < index ==> insertions[i] == Classify(tree.State(), data[i])
    {
      TreeFilterUpdateJob(data, insertions, index, tree);
      index := index + 1;
    }
  }
}
