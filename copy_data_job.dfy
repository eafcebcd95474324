/**
 * The grid storage's `CopyDataJob`: the grid's points, in enumeration order, packed into
 * the pages of the render buffer. As written, the bounds are never restarted: they begin
 * at the zero box and grow over every point so far, and a full last page reads one entry
 * past it.
 */
module GridCopy {
  import opened Geometry
  import opened Points
  import opened Paging
  import opened GridHash
  import opened MirrorTreeToVfx

  /** `new MinMaxAABB()`: both corners at the origin. */
  const DefaultBox := Box(Vec3(0.0, 0.0, 0.0), Vec3(0.0, 0.0, 0.0))

  /** The grid's values in enumeration order. */
  function Values(h: seq<(Int3, PointData)>): (r: seq<PointData>)
    ensures |r| == |h| && forall i :: 0 <= i < |h| ==> r[i] == h[i].1
  {
    seq(|h|, i requires 0 <= i < |h| => h[i].1)
  }

  /**
   * Page `k` after the job as written: a page with points gets them, their number and
   * the box grown from the origin over every point up to the page's end; a page without
   * points is left as it was, count included.
   */
  function CopyPage(e: RenderEntry, vals: seq<PointData>, k: int): RenderEntry
    requires k >= 0 && (k * PageCapacity < |vals| ==> Fits(e.data))
  {
    var page := PageSlice(vals, k);
    if page == [] then e
    else RenderEntry(Write(e.data, page), |page|, HullFrom(DefaultBox, vals[..k * PageCapacity + |page|]))
  }

  function Copied(entries: seq<RenderEntry>, vals: seq<PointData>): (r: seq<RenderEntry>)
    requires BuffersFit(entries, |vals|)
    ensures |r| == |entries|
  {
    seq(|entries|, k requires 0 <= k < |entries| => CopyPage(entries[k], vals, k))
  }

  /** `CopyDataJob.Execute` as written. */
  method CopyDataJob(grid: GridHashList<PointData>, entries: seq<RenderEntry>) returns (r: seq<RenderEntry>)
    requires |grid.hash| / PageCapacity < |entries|
    requires BuffersFit(entries, |grid.hash|)
    ensures r == Copied(entries, Values(grid.hash))
  {
    var vals := Values(grid.hash);
    var n := |vals|;
    r := entries;
    var currentEntry := r[0];
    var currentIndex := 0;
    var currentCount := 0;
    var bounds := DefaultBox;
    CopyStart(entries, vals);
    for j := 0 to n
      invariant CopyState(entries, vals, r, currentIndex, currentCount, currentEntry, bounds, j)
    {
      r, currentIndex, currentCount, currentEntry, bounds :=
        CopyStep(entries, vals, r, currentIndex, currentCount, currentEntry, bounds, j);
    }
    r := CloseLastPage(entries, vals, r, currentIndex, currentCount, currentEntry, bounds);
  }

  /**
   * The job's state after `j` points: pages before `currentIndex` are final, the rest
   * untouched in `r`; the open entry holds the open page's points, and the bounds have
   * grown from the origin over every point so far.
   */
  predicate CopyState(entries: seq<RenderEntry>, vals: seq<PointData>, r: seq<RenderEntry>, currentIndex: int,
                      currentCount: int, currentEntry: RenderEntry, bounds: Box, j: int)
  {
    && BuffersFit(entries, |vals|) && |vals| / PageCapacity < |entries| && 0 <= j <= |vals|
    && 0 <= currentIndex < |r| == |entries|
    && currentIndex * PageCapacity + currentCount == j && 0 <= currentCount < PageCapacity
    && (forall k :: 0 <= k < currentIndex ==> r[k] == CopyPage(entries[k], vals, k))
    && (forall k :: currentIndex <= k < |r| ==> r[k] == entries[k])
    && currentEntry == entries[currentIndex].(data := currentEntry.data)
    && (j < |vals| ==> Fits(entries[currentIndex].data))
    && (currentCount > 0 ==> Fits(entries[currentIndex].data))
    && (currentCount > 0 ==> currentEntry.data == Write(entries[currentIndex].data, vals[currentIndex * PageCapacity..j]))
    && (currentCount == 0 ==> currentEntry.data == entries[currentIndex].data)
    && bounds == HullFrom(DefaultBox, vals[..j])
  }

  /** Before the first point: nothing stored, the first entry open, the origin box. */
  lemma CopyStart(entries: seq<RenderEntry>, vals: seq<PointData>)
    requires BuffersFit(entries, |vals|) && |vals| / PageCapacity < |entries|
    ensures CopyState(entries, vals, entries, 0, 0, entries[0], DefaultBox, 0)
  {
    assert vals[..0] == [];
    if |vals| > 0 {
      assert 0 * PageCapacity < |vals|;
    }
  }

  /** One iteration: copy point `j`, and store the page once it is full. */
  method CopyStep(entries: seq<RenderEntry>, vals: seq<PointData>, r: seq<RenderEntry>, currentIndex: int,
                  currentCount: int, currentEntry: RenderEntry, bounds: Box, j: int)
    returns (r': seq<RenderEntry>, currentIndex': int, currentCount': int, currentEntry': RenderEntry, bounds': Box)
    requires j < |vals| && CopyState(entries, vals, r, currentIndex, currentCount, currentEntry, bounds, j)
    ensures CopyState(entries, vals, r', currentIndex', currentCount', currentEntry', bounds', j + 1)
  {
    r', currentIndex' := r, currentIndex;
    currentEntry', bounds', currentCount' := CopyPoint(entries[currentIndex].data, vals, currentIndex * PageCapacity, j,
                                                       currentEntry, bounds, currentCount);
    if currentCount' == PageCapacity {
      r', currentEntry' := StoreFullPage(entries, vals, r, currentIndex, currentEntry', bounds', j + 1);
      currentCount' := 0;
      currentIndex' := currentIndex + 1;
    }
  }

  /** After the last point: store the open page, if it has points; every later page is empty. */
  method CloseLastPage(entries: seq<RenderEntry>, vals: seq<PointData>, r: seq<RenderEntry>, currentIndex: int,
                       currentCount: int, currentEntry: RenderEntry, bounds: Box)
    returns (r': seq<RenderEntry>)
    requires CopyState(entries, vals, r, currentIndex, currentCount, currentEntry, bounds, |vals|)
    ensures r' == Copied(entries, vals)
  {
    r' := r;
    if currentCount > 0 {
      ClosedCopyPage(entries, vals, currentIndex, |vals|, currentEntry.data, bounds);
      r' := r'[currentIndex := RenderEntry(currentEntry.data, currentCount, bounds)];
    }
    LaterPagesEmpty(vals, currentIndex);
    assert r' == Copied(entries, vals);
  }

  /** A full page stored with its count and bounds; the next entry becomes the open page. */
  method StoreFullPage(entries: seq<RenderEntry>, vals: seq<PointData>, r: seq<RenderEntry>, k: int,
                       currentEntry: RenderEntry, bounds: Box, j: int)
    returns (r': seq<RenderEntry>, next: RenderEntry)
    requires BuffersFit(entries, |vals|) && 0 <= k < |r| == |entries| && |vals| / PageCapacity < |entries|
    requires j == (k + 1) * PageCapacity <= |vals|
    requires forall i :: k <= i < |r| ==> r[i] == entries[i]
    requires currentEntry == entries[k].(data := currentEntry.data)
    requires currentEntry.data == Write(entries[k].data, vals[k * PageCapacity..j])
    requires bounds == HullFrom(DefaultBox, vals[..j])
    ensures r' == r[k := CopyPage(entries[k], vals, k)]
    ensures k + 1 < |entries| && next == entries[k + 1]
  {
    var e := currentEntry.(bounds := bounds, count := PageCapacity);
    ClosedCopyPage(entries, vals, k, j, e.data, bounds);
    r' := r[k := e];
    NextPageExists(k + 1, |vals|, |entries|);
    next := r'[k + 1];
  }

  /** One point: its two slot writes, the count, and the box grown to reach it. */
  method CopyPoint(ghost d: seq<Float4>, vals: seq<PointData>, ghost base: int, j: int,
                   entry: RenderEntry, bounds: Box, cursor: int)
    returns (entry': RenderEntry, bounds': Box, cursor': int)
    requires Fits(d) && 0 <= base <= j < |vals| && j - base == cursor < PageCapacity
    requires cursor > 0 ==> entry.data == Write(d, vals[base..j])
    requires cursor == 0 ==> entry.data == d
    requires bounds == HullFrom(DefaultBox, vals[..j])
    ensures entry'.data == Write(d, vals[base..j + 1]) && entry' == entry.(data := entry'.data)
    ensures bounds' == HullFrom(DefaultBox, vals[..j + 1]) && cursor' == cursor + 1
  {
    var value := vals[j];
    assert vals[base..j + 1] == vals[base..j] + [value];
    WriteSnoc(d, vals[base..j], value);
    entry' := entry.(data := entry.data[cursor := PositionSlot(value)][cursor + PageCapacity := AttributeSlot(value)]);
    cursor' := cursor + 1;
    assert vals[..j + 1][..j] == vals[..j];
    if cursor' == 0 {
      bounds' := PointBox(value.position);
    } else {
      bounds' := Encapsulate(bounds, value.position);
    }
  }

  lemma NextPageExists(k: int, n: int, len: int)
    requires k >= 0 && k * PageCapacity <= n && n / PageCapacity < len
    ensures k < len
  {
    assert (k * PageCapacity) / PageCapacity == k;
  }

  /** A page closed when full or at the end is the job's final page `k`. */
  lemma ClosedCopyPage(entries: seq<RenderEntry>, vals: seq<PointData>, k: int, j: int, data: seq<Float4>, bounds: Box)
    requires BuffersFit(entries, |vals|) && 0 <= k < |entries| && k * PageCapacity < j <= |vals|
    requires j == |vals| || j == (k + 1) * PageCapacity
    requires j - k * PageCapacity <= PageCapacity
    requires data == Write(entries[k].data, vals[k * PageCapacity..j])
    requires bounds == HullFrom(DefaultBox, vals[..j])
    ensures entries[k].(data := data, count := j - k * PageCapacity, bounds := bounds) == CopyPage(entries[k], vals, k)
  {
    PageIsSlice(vals, k, j);
  }

  /**
   * Points, slots and counts of every page with points are the ones the tree's job
   * writes; a page without points keeps its old count, where the tree's job resets it.
   */
  lemma CopyMatchesMirror(entries: seq<RenderEntry>, vals: seq<PointData>, k: int)
    requires BuffersFit(entries, |vals|) && 0 <= k < |entries|
    ensures var c, m := Copied(entries, vals)[k], Mirrored(entries, vals)[k];
            && c.data == m.data && c.count == m.count + (if PageSlice(vals, k) == [] then entries[k].count else 0)
  {
  }

  /**
   * The bounds as written: every page's box encloses the origin and every point of this
   * page and of the pages before it.
   */
  lemma CopyBoundsLeak(entries: seq<RenderEntry>, vals: seq<PointData>, k: int)
    requires BuffersFit(entries, |vals|) && 0 <= k < |entries| && PageSlice(vals, k) != []
    ensures var b, end := Copied(entries, vals)[k].bounds, k * PageCapacity + |PageSlice(vals, k)|;
            && Encloses(b, Vec3(0.0, 0.0, 0.0))
            && forall i :: 0 <= i < end ==> Encloses(b, vals[i].position)
  {
    var end := k * PageCapacity + |PageSlice(vals, k)|;
    HullFromIsLeast(DefaultBox, vals[..end]);
    forall i | 0 <= i < end ensures Encloses(Copied(entries, vals)[k].bounds, vals[i].position) {
      assert vals[..end][i] == vals[i];
    }
  }

  /** A single point away from the origin: the job's box reaches back to the origin. */
  lemma CopyBoundsExample(e: RenderEntry)
    requires Fits(e.data)
    ensures var p := PointData(Vec3(1.0, 1.0, 1.0), Vec3(0.0, 0.0, 0.0), 0.0);
            && Copied([e], [p])[0].bounds == Box(Vec3(0.0, 0.0, 0.0), Vec3(1.0, 1.0, 1.0))
            && Mirrored([e], [p])[0].bounds == Box(Vec3(1.0, 1.0, 1.0), Vec3(1.0, 1.0, 1.0))
  {
    var p := PointData(Vec3(1.0, 1.0, 1.0), Vec3(0.0, 0.0, 0.0), 0.0);
    assert PageSlice([p], 0) == [p];
    assert [p][..1] == [p] && [p][..0] == [];
    assert [p][1..] == [];
  }

  /**
   * The copy as intended: the tree's packing, each page's box starting at its first
   * point, reading no entry past the last page.
   */
  method CopyDataCorrected(grid: GridHashList<PointData>, entries: seq<RenderEntry>) returns (r: seq<RenderEntry>)
    requires |grid.hash| == 0 || PageCount(|grid.hash|) <= |entries|
    requires BuffersFit(entries, |grid.hash|)
    ensures |grid.hash| == 0 ==> r == entries
    ensures |grid.hash| > 0 ==> r == Mirrored(entries, Values(grid.hash))
  {
    var vals := Values(grid.hash);
    var a := new RenderEntry[|entries|](i requires 0 <= i < |entries| => entries[i]);
    assert a[..] == entries;
    MirrorPoints(vals, a);
    r := a[..];
  }
}
