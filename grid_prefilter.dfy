/**
 * The two jobs that apply a batch of samples to the grid: the parallel prefilter, which
 * marks each sample as skipped, as an update of a stored point or as a new point, and
 * the sequential apply, which carries the marks out on the multimap.
 */
module GridPrefilter {
  import opened Geometry
  import opened Wrappers
  import opened Points
  import opened GridHash

  /** `PointData.GetPosition()`. */
  function PosOf(p: PointData): Vec3 { p.position }

  /**
   * `PrefilterGridData`, with the correction of its update: `stored` is the point the
   * search found, before its timestamp is refreshed into `value`.
   */
  datatype PrefilterGridData = PrefilterGridData(value: PointData, update: bool, skip: bool, stored: PointData)

  /** The zero `PointData`. */
  const ZeroPoint := PointData(Vec3(0.0, 0.0, 0.0), Vec3(0.0, 0.0, 0.0), 0.0)

  /** `new PrefilterGridData { skip = true }`: every other field at its zero value. */
  const SkipEntry := PrefilterGridData(ZeroPoint, false, true, ZeroPoint)

  /** A later sample of the batch lies strictly within this sample's density. */
  predicate LaterNear(ins: seq<PointInsertData>, index: int)
    requires 0 <= index < |ins|
  {
    exists k :: index < k < |ins| && DistLt(ins[index].position, ins[k].position, ins[index].density)
  }

  /** `GridPrefilterJob.Execute(index)` on values. */
  ghost function PrefilterSpec(ins: seq<PointInsertData>, h: seq<(Int3, PointData)>, w: real, index: int): PrefilterGridData
    requires w > 0.0 && 0 <= index < |ins|
  {
    var d := ins[index];
    if LaterNear(ins, index) then SkipEntry
    else
      match ClosestSpec(h, KeyOf(d.position, w), d.position, d.density, w, PosOf)
      case Some(v) => PrefilterGridData(v.(timestamp := d.timestamp), true, false, v)
      case None => PrefilterGridData(ToPointData(d), false, false, ToPointData(d))
  }

  /** The search a sample makes when no later sample is near it. */
  ghost function Search(ins: seq<PointInsertData>, h: seq<(Int3, PointData)>, w: real, index: int): Option<PointData>
    requires w > 0.0 && 0 <= index < |ins|
  {
    var d := ins[index];
    ClosestSpec(h, KeyOf(d.position, w), d.position, d.density, w, PosOf)
  }

  /** The cells searched around a sample. */
  function SampleKeys(d: PointInsertData, w: real): seq<Int3>
    requires w > 0.0
  {
    CheckedKeys(KeyOf(d.position, w), d.position, d.density, w)
  }

  /** A sample is skipped exactly when a later sample of the batch is near it. */
  lemma PrefilterSkip(ins: seq<PointInsertData>, h: seq<(Int3, PointData)>, w: real, index: int)
    requires w > 0.0 && 0 <= index < |ins|
    ensures PrefilterSpec(ins, h, w, index).skip <==> LaterNear(ins, index)
  {
  }

  /**
   * An update carries a stored point near the sample, from a searched cell, and its copy
   * with only the timestamp replaced by the sample's.
   */
  lemma PrefilterUpdate(ins: seq<PointInsertData>, h: seq<(Int3, PointData)>, w: real, index: int)
    requires w > 0.0 && 0 <= index < |ins|
    requires var r := PrefilterSpec(ins, h, w, index); !r.skip && r.update
    ensures var r, d, keys := PrefilterSpec(ins, h, w, index), ins[index], SampleKeys(ins[index], w);
            exists v, i :: 0 <= i < |keys| && v in Bucket(h, keys[i])
                           && DistLt(v.position, d.position, d.density)
                           && r.stored == v && r.value == v.(timestamp := d.timestamp)
  {
    var d, keys := ins[index], SampleKeys(ins[index], w);
    FirstAmongSpec(h, keys, d.position, d.density, PosOf);
    var v := Search(ins, h, w, index).value;
    var i :| 0 <= i < |keys| && v in Bucket(h, keys[i]);
    assert PosOf(v) == v.position;
  }

  /** Otherwise the sample itself is carried, and no searched cell holds a point near it. */
  lemma PrefilterInsert(ins: seq<PointInsertData>, h: seq<(Int3, PointData)>, w: real, index: int)
    requires w > 0.0 && 0 <= index < |ins|
    requires var r := PrefilterSpec(ins, h, w, index); !r.skip && !r.update
    ensures var r, d, keys := PrefilterSpec(ins, h, w, index), ins[index], SampleKeys(ins[index], w);
            && r.value == ToPointData(d)
            && forall i, v :: 0 <= i < |keys| && v in Bucket(h, keys[i]) ==> !DistLt(v.position, d.position, d.density)
  {
    var d, keys := ins[index], SampleKeys(ins[index], w);
    FirstAmongSpec(h, keys, d.position, d.density, PosOf);
    forall i, v | 0 <= i < |keys| && v in Bucket(h, keys[i]) ensures !DistLt(v.position, d.position, d.density) {
      assert !DistLt(PosOf(v), d.position, d.density);
    }
  }

  /** And a sample near a stored point in a searched cell is never inserted as new. */
  lemma PrefilterNearIsUpdate(ins: seq<PointInsertData>, h: seq<(Int3, PointData)>, w: real, index: int, i: int, v: PointData)
    requires w > 0.0 && 0 <= index < |ins| && !LaterNear(ins, index)
    requires var d, keys := ins[index], SampleKeys(ins[index], w);
             0 <= i < |keys| && v in Bucket(h, keys[i]) && DistLt(v.position, d.position, d.density)
    ensures PrefilterSpec(ins, h, w, index).update
  {
    var d, keys := ins[index], SampleKeys(ins[index], w);
    FirstAmongSpec(h, keys, d.position, d.density, PosOf);
    assert PosOf(v) == v.position;
  }

  /** Of a run of near-duplicates, the last one is never skipped. */
  lemma LastNeverSkipped(ins: seq<PointInsertData>, h: seq<(Int3, PointData)>, w: real)
    requires w > 0.0 && |ins| > 0
    ensures !PrefilterSpec(ins, h, w, |ins| - 1).skip
  {
  }

  /** `GridPrefilterJob.Execute(index)`: the scan over later samples, then the grid search. */
  method PrefilterOne(ins: seq<PointInsertData>, grid: GridHashList<PointData>, index: int) returns (r: PrefilterGridData)
    requires grid.worldSize > 0.0 && grid.position == PosOf && 0 <= index < |ins|
    ensures r == PrefilterSpec(ins, grid.hash, grid.worldSize, index)
  {
    var d := ins[index];
    var position := d.position;
    for i := index + 1 to |ins|
      invariant forall k :: index < k < i ==> !DistLt(position, ins[k].position, d.density)
    {
      var target := ins[i];
      if DistLt(position, target.position, d.density) {
        return SkipEntry;
      }
    }
    var optional := grid.ClosestValueAt(position, d.density);
    if optional.Some? {
      var v := optional.value;
      r := PrefilterGridData(v.(timestamp := d.timestamp), true, false, v);
    } else {
      var p := ToPointData(d);
      r := PrefilterGridData(p, false, false, p);
    }
  }

  /** The marks of a whole batch against one state of the grid. */
  ghost function PrefilterBatch(ins: seq<PointInsertData>, h: seq<(Int3, PointData)>, w: real): (r: seq<PrefilterGridData>)
    requires w > 0.0
    ensures |r| == |ins|
  {
    seq(|ins|, i requires 0 <= i < |ins| => PrefilterSpec(ins, h, w, i))
  }

  /** The parallel-for over the batch, as a loop; each index writes only its own slot. */
  method GridPrefilterJob(ins: seq<PointInsertData>, grid: GridHashList<PointData>) returns (data: seq<PrefilterGridData>)
    requires grid.worldSize > 0.0 && grid.position == PosOf
    ensures data == PrefilterBatch(ins, grid.hash, grid.worldSize)
  {
    data := [];
    for index := 0 to |ins|
      invariant |data| == index
      invariant forall i :: 0 <= i < index ==> data[i] == PrefilterSpec(ins, grid.hash, grid.worldSize, i)
    {
      var r := PrefilterOne(ins, grid, index);
      data := data + [r];
    }
  }

  // ---------------------------------------------------------------------------
  // Apply

  /**
   * One mark carried out, corrected: nothing when skipped, else for an update
   * `Remove(stored)`, then `Insert(value)`.
   */
  function ApplyStep(h: seq<(Int3, PointData)>, w: real, g: PrefilterGridData): seq<(Int3, PointData)>
    requires w > 0.0
  {
    if g.skip then h
    else
      (if g.update then Without(h, KeyOf(g.stored.position, w), g.stored) else h)
      + [(KeyOf(g.value.position, w), g.value)]
  }

  /** One mark as the source carries it out: an update calls `Remove(value)`, the refreshed copy. */
  function WrittenStep(h: seq<(Int3, PointData)>, w: real, g: PrefilterGridData): seq<(Int3, PointData)>
    requires w > 0.0
  {
    if g.skip then h
    else
      var key := KeyOf(g.value.position, w);
      (if g.update then Without(h, key, g.value) else h) + [(key, g.value)]
  }

  function ApplyAll(h: seq<(Int3, PointData)>, w: real, data: seq<PrefilterGridData>): seq<(Int3, PointData)>
    requires w > 0.0
  {
    if data == [] then h else ApplyStep(ApplyAll(h, w, data[..|data| - 1]), w, data[|data| - 1])
  }

  /** `GridPrefilterApplyJob.Execute`, corrected: the marks in batch order, removing the stored copy. */
  method GridPrefilterApplyJob(data: seq<PrefilterGridData>, grid: GridHashList<PointData>)
    requires grid.worldSize > 0.0 && grid.position == PosOf
    modifies grid
    ensures grid.hash == ApplyAll(old(grid.hash), grid.worldSize, data)
  {
    for i := 0 to |data|
      invariant grid.hash == ApplyAll(old(grid.hash), grid.worldSize, data[..i])
    {
      assert data[..i + 1][..i] == data[..i];
      var gridData := data[i];
      if !gridData.skip {
        var v := gridData.value;
        if gridData.update {
          grid.Remove(gridData.stored);
        }
        grid.Insert(v);
      }
    }
    assert data[..|data|] == data;
  }

  /** A new point goes into its own cell and nothing else changes. */
  lemma InsertMarkAppends(h: seq<(Int3, PointData)>, w: real, g: PrefilterGridData, k: Int3)
    requires w > 0.0 && !g.skip && !g.update
    ensures Bucket(ApplyStep(h, w, g), k) == Bucket(h, k) + (if k == KeyOf(g.value.position, w) then [g.value] else [])
  {
    BucketAppend(h, [(KeyOf(g.value.position, w), g.value)], k);
  }

  // ---------------------------------------------------------------------------
  // Updates and stale copies

  lemma {:induction false} ExceptAbsent<T>(s: seq<T>, x: T)
    requires x !in s
    ensures Except(s, x) == s
    decreases |s|
  {
    if s != [] {
      var init := s[..|s| - 1];
      forall i | 0 <= i < |init| ensures init[i] != x {
        assert init[i] == s[i];
      }
      ExceptAbsent(init, x);
    }
  }

  /** Removing a value from a bucket drops all of its copies and only those. */
  lemma {:induction false} ExceptContents<T>(s: seq<T>, x: T)
    ensures multiset(Except(s, x)) == multiset(s)[x := 0]
    decreases |s|
  {
    if s != [] {
      var init := s[..|s| - 1];
      ExceptContents(init, x);
      assert s == init + [s[|s| - 1]];
    }
  }

  /**
   * As written, an update removes the value it is about to insert, which carries the new
   * timestamp; the stored copy, with its old timestamp, is not equal to it and stays, so
   * the point is stored twice afterwards.
   */
  lemma UpdateLeavesStaleCopy(h: seq<(Int3, PointData)>, w: real, stored: PointData, t: real)
    requires w > 0.0
    requires var v, k := stored.(timestamp := t), KeyOf(stored.position, w);
             stored in Bucket(h, k) && v !in Bucket(h, k)
    ensures var v, k := stored.(timestamp := t), KeyOf(stored.position, w);
            var after := Bucket(WrittenStep(h, w, PrefilterGridData(v, true, false, stored)), k);
            && after == Bucket(h, k) + [v]
            && stored in after && v in after
  {
    var v, k := stored.(timestamp := t), KeyOf(stored.position, w);
    BucketWithout(h, k, v, k);
    ExceptAbsent(Bucket(h, k), v);
    BucketAppend(Without(h, k, v), [(k, v)], k);
  }

  /** The stale copy exists whenever the sample is newer than the point it refreshes. */
  lemma StaleCopyExample(stored: PointData, t: real)
    requires t != stored.timestamp
    ensures var grid := [(KeyOf(stored.position, 0.5), stored)];
            var after := WrittenStep(grid, 0.5, PrefilterGridData(stored.(timestamp := t), true, false, stored));
            after == grid + [(KeyOf(stored.position, 0.5), stored.(timestamp := t))]
  {
    var k := KeyOf(stored.position, 0.5);
    var v := stored.(timestamp := t);
    var grid := [(k, stored)];
    assert grid[..0] == [];
    assert (k, stored) != (k, v);
    assert Without(grid, k, v) == grid;
  }

  /**
   * The corrected update of a point stored once swaps it for its refreshed copy: the
   * old copy is gone, the new one is in, every other value of the cell is kept, and the
   * cell keeps its size.
   */
  lemma UpdateSwaps(h: seq<(Int3, PointData)>, w: real, stored: PointData, t: real)
    requires w > 0.0 && t != stored.timestamp
    requires multiset(Bucket(h, KeyOf(stored.position, w)))[stored] == 1
    ensures var k, v := KeyOf(stored.position, w), stored.(timestamp := t);
            var after := Bucket(ApplyStep(h, w, PrefilterGridData(v, true, false, stored)), k);
            && |after| == |Bucket(h, k)|
            && stored !in after && v in after
            && multiset(after) == multiset(Bucket(h, k))[stored := 0] + multiset{v}
  {
    var k, v := KeyOf(stored.position, w), stored.(timestamp := t);
    var g := PrefilterGridData(v, true, false, stored);
    assert ApplyStep(h, w, g) == Without(h, k, stored) + [(k, v)];
    var before := Bucket(h, k);
    var kept := Except(before, stored);
    BucketWithout(h, k, stored, k);
    ExceptContents(before, stored);
    BucketAppend(Without(h, k, stored), [(k, v)], k);
    var after := Bucket(ApplyStep(h, w, g), k);
    assert after == kept + [v];
    SwapCount(multiset(before), stored, v);
  }

  /**
   * Applied to the grid it was computed against, the update mark of a sample replaces
   * the point the search found (stored once, with an older timestamp) by its refreshed
   * copy, so no stale copy is left behind.
   */
  lemma UpdateMarkSwaps(ins: seq<PointInsertData>, h: seq<(Int3, PointData)>, w: real, index: int)
    requires w > 0.0 && 0 <= index < |ins|
    requires var r := PrefilterSpec(ins, h, w, index);
             && !r.skip && r.update && r.stored.timestamp != ins[index].timestamp
             && multiset(Bucket(h, KeyOf(r.stored.position, w)))[r.stored] == 1
    ensures var r := PrefilterSpec(ins, h, w, index);
            var k := KeyOf(r.value.position, w);
            var after := Bucket(ApplyStep(h, w, r), k);
            && r.stored !in after && r.value in after && |after| == |Bucket(h, k)|
  {
    PrefilterUpdate(ins, h, w, index);
    var r := PrefilterSpec(ins, h, w, index);
    UpdateSwaps(h, w, r.stored, ins[index].timestamp);
  }

  lemma SwapCount(m: multiset<PointData>, x: PointData, y: PointData)
    requires m[x] == 1 && x != y
    ensures |m[x := 0] + multiset{y}| == |m|
    ensures x !in m[x := 0] + multiset{y}
  {
    assert m == m[x := 0] + multiset{x};
  }

  /** The corrected update leaves every other cell as it was. */
  lemma UpdateElsewhere(h: seq<(Int3, PointData)>, w: real, stored: PointData, t: real, k': Int3)
    requires w > 0.0 && k' != KeyOf(stored.position, w)
    ensures Bucket(ApplyStep(h, w, PrefilterGridData(stored.(timestamp := t), true, false, stored)), k') == Bucket(h, k')
  {
    var k, v := KeyOf(stored.position, w), stored.(timestamp := t);
    BucketWithout(h, k, stored, k');
    BucketAppend(Without(h, k, stored), [(k, v)], k');
  }
}
