/**
 * `GridHashStorage`: samples queue up until an insertion pass marks and applies them on
 * the grid; a rebuild pass drops expired points, sizes the list of render entries to the
 * points left and packs the points into it.
 */
module GridStorage {
  import opened Geometry
  import opened Points
  import opened Paging
  import opened GridHash
  import opened GridPrefilter
  import opened GridCopy
  import opened MirrorTreeToVfx

  /** `LIFE_TIME`, in seconds. */
  const LifeTime: real := 10.0

  /** The grid's cell size. */
  const CellSize: real := 0.5

  predicate Expired(v: PointData, time: real) {
    time - v.timestamp > LifeTime
  }

  /** The entries that have not expired, in order. */
  function Kept(h: seq<(Int3, PointData)>, time: real): (r: seq<(Int3, PointData)>)
    ensures |r| <= |h|
  {
    if h == [] then []
    else Kept(h[..|h| - 1], time) + (if Expired(h[|h| - 1].1, time) then [] else [h[|h| - 1]])
  }

  /** The entries that have expired, in order. */
  function ExpiredEntries(h: seq<(Int3, PointData)>, time: real): seq<(Int3, PointData)> {
    if h == [] then []
    else ExpiredEntries(h[..|h| - 1], time) + (if Expired(h[|h| - 1].1, time) then [h[|h| - 1]] else [])
  }

  /** Every value is stored under the cell of its position. */
  predicate KeysConsistent(h: seq<(Int3, PointData)>, w: real)
    requires w > 0.0
  {
    forall i :: 0 <= i < |h| ==> h[i].0 == KeyOf(h[i].1.position, w)
  }

  /** The entries of `h` not in `d`, in order. */
  function Drop(h: seq<(Int3, PointData)>, d: seq<(Int3, PointData)>): seq<(Int3, PointData)> {
    if h == [] then [] else Drop(h[..|h| - 1], d) + (if h[|h| - 1] in d then [] else [h[|h| - 1]])
  }

  /** `Remove(deletion.Value)` for each deletion in turn. */
  function RemoveAll(h: seq<(Int3, PointData)>, w: real, d: seq<(Int3, PointData)>): seq<(Int3, PointData)>
    requires w > 0.0
  {
    if d == [] then h
    else var v := d[|d| - 1].1; Without(RemoveAll(h, w, d[..|d| - 1]), KeyOf(v.position, w), v)
  }

  /** An entry survives exactly when it is stored and has not expired. */
  lemma {:induction false} KeptContents(h: seq<(Int3, PointData)>, time: real, e: (Int3, PointData))
    ensures e in Kept(h, time) <==> e in h && !Expired(e.1, time)
    decreases |h|
  {
    if h != [] {
      var init := h[..|h| - 1];
      KeptContents(init, time, e);
      assert h == init + [h[|h| - 1]];
    }
  }

  lemma {:induction false} ExpiredContents(h: seq<(Int3, PointData)>, time: real, e: (Int3, PointData))
    ensures e in ExpiredEntries(h, time) <==> e in h && Expired(e.1, time)
    decreases |h|
  {
    if h != [] {
      var init := h[..|h| - 1];
      ExpiredContents(init, time, e);
      assert h == init + [h[|h| - 1]];
    }
  }

  /** Removing one more pair drops it from what is left, and nothing else. */
  lemma {:induction false} WithoutDrop(h: seq<(Int3, PointData)>, d: seq<(Int3, PointData)>, k: Int3, v: PointData)
    ensures Without(Drop(h, d), k, v) == Drop(h, d + [(k, v)])
    decreases |h|
  {
    if h != [] {
      var init, last := h[..|h| - 1], h[|h| - 1];
      WithoutDrop(init, d, k, v);
      var tail := if last in d then [] else [last];
      WithoutSnoc(Drop(init, d), tail, k, v);
    }
  }

  lemma WithoutSnoc(h: seq<(Int3, PointData)>, tail: seq<(Int3, PointData)>, k: Int3, v: PointData)
    requires |tail| <= 1
    ensures Without(h + tail, k, v) == Without(h, k, v) + (if tail != [] && tail[0] != (k, v) then tail else [])
  {
    if tail != [] {
      assert (h + tail)[..|h + tail| - 1] == h;
    } else {
      assert h + tail == h;
    }
  }

  /** With keys consistent, removing each deletion's value drops exactly the deletions. */
  lemma {:induction false} RemoveAllIsDrop(h: seq<(Int3, PointData)>, w: real, d: seq<(Int3, PointData)>)
    requires w > 0.0 && KeysConsistent(d, w)
    ensures RemoveAll(h, w, d) == Drop(h, d)
    decreases |d|
  {
    if d == [] {
      DropNothing(h);
    } else {
      var init, last := d[..|d| - 1], d[|d| - 1];
      assert KeysConsistent(init, w) by {
        forall i | 0 <= i < |init| ensures init[i].0 == KeyOf(init[i].1.position, w) {
          assert init[i] == d[i];
        }
      }
      RemoveAllIsDrop(h, w, init);
      assert last == (KeyOf(last.1.position, w), last.1);
      WithoutDrop(h, init, last.0, last.1);
      assert init + [last] == d;
    }
  }

  lemma {:induction false} DropNothing(h: seq<(Int3, PointData)>)
    ensures Drop(h, []) == h
    decreases |h|
  {
    if h != [] {
      DropNothing(h[..|h| - 1]);
    }
  }

  /** Dropping the entries that are deletions exactly when they expired keeps the rest. */
  lemma {:induction false} DropExpired(h: seq<(Int3, PointData)>, d: seq<(Int3, PointData)>, time: real)
    requires forall i :: 0 <= i < |h| ==> (h[i] in d <==> Expired(h[i].1, time))
    ensures Drop(h, d) == Kept(h, time)
    decreases |h|
  {
    if h != [] {
      var init := h[..|h| - 1];
      forall i | 0 <= i < |init| ensures init[i] in d <==> Expired(init[i].1, time) {
        assert init[i] == h[i];
      }
      DropExpired(init, d, time);
    }
  }

  lemma {:induction false} ExpiredConsistent(h: seq<(Int3, PointData)>, w: real, time: real)
    requires w > 0.0 && KeysConsistent(h, w)
    ensures KeysConsistent(ExpiredEntries(h, time), w)
    decreases |h|
  {
    if h != [] {
      var init := h[..|h| - 1];
      forall i | 0 <= i < |init| ensures init[i].0 == KeyOf(init[i].1.position, w) {
        assert init[i] == h[i];
      }
      ExpiredConsistent(init, w, time);
    }
  }

  /** `CountAndCleanupJob.Execute`: count the live points, then remove the expired ones. */
  method CountAndCleanupJob(grid: GridHashList<PointData>, time: real) returns (count: int)
    requires grid.worldSize > 0.0 && grid.position == PosOf && KeysConsistent(grid.hash, grid.worldSize)
    modifies grid
    ensures grid.hash == Kept(old(grid.hash), time) && count == |grid.hash|
  {
    ghost var h := grid.hash;
    var deletions: seq<(Int3, PointData)> := [];
    count := 0;
    var entries := grid.hash;
    for i := 0 to |entries|
      invariant deletions == ExpiredEntries(entries[..i], time)
      invariant count == |Kept(entries[..i], time)|
    {
      assert entries[..i + 1][..i] == entries[..i];
      var current := entries[i];
      if time - current.1.timestamp > LifeTime {
        deletions := deletions + [current];
      } else {
        count := count + 1;
      }
    }
    assert entries[..|entries|] == entries;
    for i := 0 to |deletions|
      invariant grid.hash == RemoveAll(h, grid.worldSize, deletions[..i])
    {
      assert deletions[..i + 1][..i] == deletions[..i];
      grid.Remove(deletions[i].1);
    }
    assert deletions[..|deletions|] == deletions;
    ExpiredConsistent(h, grid.worldSize, time);
    RemoveAllIsDrop(h, grid.worldSize, deletions);
    forall i | 0 <= i < |h| ensures h[i] in deletions <==> Expired(h[i].1, time) {
      ExpiredContents(h, time, h[i]);
    }
    DropExpired(h, deletions, time);
  }

  // ---------------------------------------------------------------------------
  // Keys stay consistent

  lemma {:induction false} WithoutConsistent(h: seq<(Int3, PointData)>, w: real, k: Int3, v: PointData)
    requires w > 0.0 && KeysConsistent(h, w)
    ensures KeysConsistent(Without(h, k, v), w)
    decreases |h|
  {
    if h != [] {
      var init := h[..|h| - 1];
      forall i | 0 <= i < |init| ensures init[i].0 == KeyOf(init[i].1.position, w) {
        assert init[i] == h[i];
      }
      WithoutConsistent(init, w, k, v);
    }
  }

  /** Applying marks keeps every value under the cell of its position. */
  lemma {:induction false} ApplyAllConsistent(h: seq<(Int3, PointData)>, w: real, data: seq<PrefilterGridData>)
    requires w > 0.0 && KeysConsistent(h, w)
    ensures KeysConsistent(ApplyAll(h, w, data), w)
    decreases |data|
  {
    if data != [] {
      var before := ApplyAll(h, w, data[..|data| - 1]);
      ApplyAllConsistent(h, w, data[..|data| - 1]);
      var g := data[|data| - 1];
      if !g.skip && g.update {
        WithoutConsistent(before, w, KeyOf(g.stored.position, w), g.stored);
      }
    }
  }

  lemma {:induction false} KeptConsistent(h: seq<(Int3, PointData)>, w: real, time: real)
    requires w > 0.0 && KeysConsistent(h, w)
    ensures KeysConsistent(Kept(h, time), w)
    decreases |h|
  {
    if h != [] {
      var init := h[..|h| - 1];
      forall i | 0 <= i < |init| ensures init[i].0 == KeyOf(init[i].1.position, w) {
        assert init[i] == h[i];
      }
      KeptConsistent(init, w, time);
    }
  }

  // ---------------------------------------------------------------------------
  // Render entries

  /** A new entry: a zeroed buffer of two columns, no points, the zero box. */
  function BlankEntry(): (e: RenderEntry)
    ensures Fits(e.data) && e.count == 0
  {
    RenderEntry(seq(2 * PageCapacity, _ => Float4(0.0, 0.0, 0.0, 0.0)), 0, DefaultBox)
  }

  /** `(int)math.ceil(count / (float)TEXTURE_2D_MAX_HEIGHT)`. */
  function RequiredEntries(count: int): int
    requires count >= 0
  {
    PageCount(count)
  }

  /** The number of entries after `EnsureVfxEntries(count)`. */
  function Ensured(len: int, count: int): int {
    if len < count then count else len
  }

  /** The number of entries after `DeleteUnusedVfxEntries(count)`: indices up to `count` stay. */
  function Trimmed(len: int, count: int): int {
    if len <= count + 1 then len else count + 1
  }

  /**
   * Sizing as written leaves exactly the required entries when there were no more
   * before, and one spare entry, which the rebuild does not refresh, when there were.
   */
  lemma SizedEntries(len: int, required: int)
    requires len >= 0 && required >= 0
    ensures var n := Trimmed(Ensured(len, required), required);
            && (len <= required ==> n == required)
            && (len > required ==> n == required + 1)
  {
  }

  /** Enough entries for the packing that stops at the last page. */
  lemma EntriesSuffice(len: int, count: int)
    requires len >= 0 && count >= 0
    ensures PageCount(count) <= Trimmed(Ensured(len, RequiredEntries(count)), RequiredEntries(count))
  {
  }

  /**
   * Not enough for the copy as written: from no entries, exactly one full page of points
   * leaves one entry, and the job reads the entry after it.
   */
  lemma CopyOverRead()
    ensures var required := RequiredEntries(PageCapacity);
            var len := Trimmed(Ensured(0, required), required);
            len == 1 && !(PageCapacity / PageCapacity < len)
  {
  }

  class GridHashStorage {
    var insertData: seq<PointInsertData>
    var renderEntries: seq<RenderEntry>
    /** The number of VFX effects, one per render entry. */
    var vfxEntries: int
    var dirty: bool
    const hashList: GridHashList<PointData>

    ghost predicate Valid()
      reads this, hashList
    {
      && vfxEntries == |renderEntries|
      && hashList.worldSize == CellSize && hashList.position == PosOf
      && KeysConsistent(hashList.hash, CellSize)
      && AllFit(renderEntries)
    }

    /** `Init`: no pending samples, no entries, an empty grid of half-unit cells. */
    constructor Init()
      ensures Valid() && fresh(hashList)
      ensures insertData == [] && renderEntries == [] && hashList.hash == [] && !dirty
    {
      insertData := [];
      renderEntries := [];
      vfxEntries := 0;
      dirty := false;
      hashList := new GridHashList<PointData>(CellSize, PosOf);
    }

    /** `Insert`: queue the sample. */
    method Insert(data: PointInsertData)
      modifies this
      ensures insertData == old(insertData) + [data]
      ensures renderEntries == old(renderEntries) && vfxEntries == old(vfxEntries) && dirty == old(dirty)
    {
      insertData := insertData + [data];
    }

    /**
     * `RunInsertionJob`: take the queue, mark it against the grid, apply the marks, and
     * flag the render entries as stale. The lock around it is not modelled.
     */
    method RunInsertionJob()
      requires Valid()
      modifies this, hashList
      ensures Valid() && insertData == [] && dirty
      ensures hashList.hash == ApplyAll(old(hashList.hash), CellSize, PrefilterBatch(old(insertData), old(hashList.hash), CellSize))
      ensures renderEntries == old(renderEntries)
    {
      var input := insertData;
      insertData := [];
      var prefiltered := GridPrefilterJob(input, hashList);
      ghost var h := hashList.hash;
      GridPrefilterApplyJob(prefiltered, hashList);
      ApplyAllConsistent(h, CellSize, prefiltered);
      dirty := true;
    }

    /**
     * `CopyAndRebuild`: drop the expired points, size the entries to the points left and
     * pack them, with the copy that starts each page's bounds at its first point. The
     * upload of each entry to its effect is not modelled.
     */
    method CopyAndRebuild(time: real)
      requires Valid()
      modifies this, hashList
      ensures Valid() && !dirty && insertData == old(insertData)
      ensures hashList.hash == Kept(old(hashList.hash), time)
      ensures var n, required := |hashList.hash|, RequiredEntries(|hashList.hash|);
              && |renderEntries| == Trimmed(Ensured(|old(renderEntries)|, required), required)
              && required <= |renderEntries|
              && (n > 0 ==> renderEntries == Mirrored(SizedList(old(renderEntries), required), Values(hashList.hash)))
              && (n == 0 ==> renderEntries == SizedList(old(renderEntries), required))
    {
      ghost var h := hashList.hash;
      var count := CountAndCleanupJob(hashList, time);
      KeptConsistent(h, CellSize, time);
      var requiredEntries := RequiredEntries(count);
      EnsureVfxEntries(requiredEntries);
      DeleteUnusedVfxEntries(requiredEntries);
      EntriesSuffice(|old(renderEntries)|, count);
      renderEntries := CopyDataCorrected(hashList, renderEntries);
      dirty := false;
    }

    /** `EnsureVfxEntries`: add blank entries until there are `count`. */
    method EnsureVfxEntries(count: int)
      requires Valid()
      modifies this
      ensures Valid() && insertData == old(insertData) && dirty == old(dirty)
      ensures renderEntries == Grown(old(renderEntries), count)
    {
      while vfxEntries < count
        invariant Valid() && insertData == old(insertData) && dirty == old(dirty)
        invariant |old(renderEntries)| <= |renderEntries| <= Ensured(|old(renderEntries)|, count)
        invariant renderEntries == old(renderEntries) + seq(|renderEntries| - |old(renderEntries)|, _ => BlankEntry())
        decreases count - vfxEntries
      {
        CreateNewVfxEntry();
      }
    }

    /** `CreateNewVfxEntry`: one more effect and one more blank entry. */
    method CreateNewVfxEntry()
      requires Valid()
      modifies this
      ensures Valid() && insertData == old(insertData) && dirty == old(dirty)
      ensures renderEntries == old(renderEntries) + [BlankEntry()]
    {
      vfxEntries := vfxEntries + 1;
      renderEntries := renderEntries + [BlankEntry()];
    }

    /** `DeleteUnusedVfxEntries`: remove entries from the end while the index is above `count`. */
    method DeleteUnusedVfxEntries(count: int)
      requires Valid() && count >= 0
      modifies this
      ensures Valid() && insertData == old(insertData) && dirty == old(dirty)
      ensures renderEntries == old(renderEntries)[..Trimmed(|old(renderEntries)|, count)]
    {
      var i := vfxEntries - 1;
      while i > count
        invariant Valid() && insertData == old(insertData) && dirty == old(dirty)
        invariant i == vfxEntries - 1 && (i >= count || i == |old(renderEntries)| - 1)
        invariant |renderEntries| <= |old(renderEntries)| && renderEntries == old(renderEntries)[..|renderEntries|]
        invariant Trimmed(|old(renderEntries)|, count) <= |renderEntries|
        decreases i
      {
        vfxEntries := vfxEntries - 1;
        renderEntries := renderEntries[..i];
        i := i - 1;
      }
    }
  }

  /** The entries after `EnsureVfxEntries(count)`. */
  function Grown(entries: seq<RenderEntry>, count: int): (r: seq<RenderEntry>)
    ensures |r| == Ensured(|entries|, count) && r[..|entries|] == entries
    ensures forall k :: |entries| <= k < |r| ==> r[k] == BlankEntry()
  {
    entries + seq(Ensured(|entries|, count) - |entries|, _ => BlankEntry())
  }

  /** Every entry has a buffer that holds a full page. */
  predicate AllFit(entries: seq<RenderEntry>) {
    forall k :: 0 <= k < |entries| ==> Fits(entries[k].data)
  }

  /** The entries after sizing them for `required` pages. */
  function SizedList(entries: seq<RenderEntry>, required: int): (r: seq<RenderEntry>)
    requires required >= 0
    ensures AllFit(entries) ==> AllFit(r)
  {
    var grown := Grown(entries, required);
    grown[..Trimmed(|grown|, required)]
  }
}
