/**
 * `MirrorTreeToVfxJob`: pack a tree's points, in list order, into the fixed-capacity
 * pages of the render buffer, each page with its count and the bounds of its points.
 */
module MirrorTreeToVfx {
  import opened Geometry
  import opened Points
  import opened Paging
  import opened KdTree

  /** Every page that receives points has a buffer big enough for a full page. */
  predicate BuffersFit(entries: seq<RenderEntry>, n: int) {
    forall k :: 0 <= k < |entries| && k * PageCapacity < n ==> Fits(entries[k].data)
  }

  /**
   * Page `k` after the job: its slice of the points written into its buffer, with their
   * number and their bounds; a page past the points only has its count reset to 0.
   */
  function MirrorPage(e: RenderEntry, vals: seq<PointData>, k: int): RenderEntry
    requires k >= 0 && (k * PageCapacity < |vals| ==> Fits(e.data))
  {
    var page := PageSlice(vals, k);
    if page == [] then e.(count := 0)
    else RenderEntry(Write(e.data, page), |page|, Hull(page))
  }

  /** All entries after the job on a non-empty tree. */
  function Mirrored(entries: seq<RenderEntry>, vals: seq<PointData>): (r: seq<RenderEntry>)
    requires BuffersFit(entries, |vals|)
    ensures |r| == |entries|
  {
    seq(|entries|, k requires 0 <= k < |entries| => MirrorPage(entries[k], vals, k))
  }

  /** Point `j` ends in page `j / PageCapacity`: its position at slot `j % PageCapacity`, its colour and timestamp `PageCapacity` slots on. */
  lemma MirrorSlots(entries: seq<RenderEntry>, vals: seq<PointData>, j: int)
    requires BuffersFit(entries, |vals|) && 0 <= j < |vals| && j / PageCapacity < |entries|
    ensures var e, s := Mirrored(entries, vals)[j / PageCapacity], j % PageCapacity;
            s + PageCapacity < |e.data|
            && e.data[s] == PositionSlot(vals[j])
            && e.data[s + PageCapacity] == AttributeSlot(vals[j])
  {
    var k, s := j / PageCapacity, j % PageCapacity;
    PageOfIndex(vals, j);
    var page := PageSlice(vals, k);
    assert k * PageCapacity <= j;
    WriteContents(entries[k].data, page, s);
    WriteContents(entries[k].data, page, s + PageCapacity);
  }

  /** Counts: full pages hold `PageCapacity`, the last page the remainder, later pages 0. */
  lemma MirrorCounts(entries: seq<RenderEntry>, vals: seq<PointData>, k: int)
    requires BuffersFit(entries, |vals|) && 0 <= k < |entries|
    ensures var c, count := PageCount(|vals|), Mirrored(entries, vals)[k].count;
            && (k < c - 1 ==> count == PageCapacity)
            && (k == c - 1 ==> count == |vals| - PageCapacity * (c - 1))
            && (k >= c ==> count == 0)
  {
    PageSizes(vals, k);
  }

  /**
   * The bounds of a page with points enclose each of them and are the least box that
   * does; a page without points keeps its buffer and bounds.
   */
  lemma MirrorBounds(entries: seq<RenderEntry>, vals: seq<PointData>, k: int)
    requires BuffersFit(entries, |vals|) && 0 <= k < |entries|
    ensures var e, page := Mirrored(entries, vals)[k], PageSlice(vals, k);
            && (page != [] ==> forall i :: 0 <= i < |page| ==> Encloses(e.bounds, page[i].position))
            && (page != [] ==> forall c: Box :: (forall i :: 0 <= i < |page| ==> Encloses(c, page[i].position))
                                 ==> Covers(c, e.bounds))
            && (page == [] ==> e.data == entries[k].data && e.bounds == entries[k].bounds)
  {
    var page := PageSlice(vals, k);
    if page != [] {
      HullIsLeast(page);
    }
  }

  /** Slots past a page's count keep their old content. */
  lemma MirrorKeepsRest(entries: seq<RenderEntry>, vals: seq<PointData>, k: int, s: int)
    requires BuffersFit(entries, |vals|) && 0 <= k < |entries|
    requires 0 <= s < |entries[k].data|
    requires var c := |PageSlice(vals, k)|; (c <= s < PageCapacity || PageCapacity + c <= s)
    ensures Mirrored(entries, vals)[k].data[s] == entries[k].data[s]
  {
    var page := PageSlice(vals, k);
    if page != [] {
      WriteContents(entries[k].data, page, s);
    }
  }

  /** Page `k` is the points from `k * PageCapacity` to `j` once `j` reaches into it. */
  lemma PageIsSlice(vals: seq<PointData>, k: int, j: int)
    requires k >= 0 && k * PageCapacity <= j <= |vals| && j - k * PageCapacity <= PageCapacity
    requires j == |vals| || j == (k + 1) * PageCapacity
    ensures PageSlice(vals, k) == vals[k * PageCapacity..j]
  {
  }

  /** `MirrorTreeToVfxJob.Execute`. */
  method MirrorTreeToVfxJob(tree: BurstKdTree, entries: array<RenderEntry>)
    requires |tree.points| == 0 || PageCount(|tree.points|) <= entries.Length
    requires BuffersFit(entries[..], |tree.points|)
    modifies entries
    ensures |tree.points| == 0 ==> entries[..] == old(entries[..])
    ensures |tree.points| > 0 ==> entries[..] == Mirrored(old(entries[..]), tree.points)
  {
    MirrorPoints(tree.points, entries);
  }

  /** The job's body on the tree's point list. */
  method MirrorPoints(points: seq<PointData>, entries: array<RenderEntry>)
    requires |points| == 0 || PageCount(|points|) <= entries.Length
    requires BuffersFit(entries[..], |points|)
    modifies entries
    ensures |points| == 0 ==> entries[..] == old(entries[..])
    ensures |points| > 0 ==> entries[..] == Mirrored(old(entries[..]), points)
  {
    var n := |points|;
    if n == 0 {
      return;
    }
    PageCountBounds(n);
    ResetCounts(entries);
    ghost var start := old(entries[..]);
    var currentIndex, currentEntry, bounds, cursor := PackPoints(points, entries, start);
    ClosedPage(start, points, currentIndex, n, currentEntry.data, bounds);
    entries[currentIndex] := RenderEntry(currentEntry.data, cursor, bounds);
    LaterPagesEmpty(points, currentIndex);
    assert entries[..] == Mirrored(start, points);
  }

  /** The `foreach` over the points, up to the last page, which is still open at the end. */
  method PackPoints(points: seq<PointData>, entries: array<RenderEntry>, ghost start: seq<RenderEntry>)
    returns (currentIndex: int, currentEntry: RenderEntry, bounds: Box, cursor: int)
    requires |points| > 0 && PageCount(|points|) <= entries.Length == |start|
    requires BuffersFit(start, |points|)
    requires forall k :: 0 <= k < entries.Length ==> entries[k] == start[k].(count := 0)
    modifies entries
    ensures 0 <= currentIndex < entries.Length && currentIndex * PageCapacity + cursor == |points|
    ensures 0 < cursor <= PageCapacity
    ensures forall k :: 0 <= k < currentIndex ==> entries[k] == Mirrored(start, points)[k]
    ensures forall k :: currentIndex <= k < entries.Length ==> entries[k] == start[k].(count := 0)
    ensures currentEntry.data == Write(start[currentIndex].data, points[currentIndex * PageCapacity..|points|])
    ensures bounds == Hull(points[currentIndex * PageCapacity..|points|])
  {
    var n := |points|;
    PageCountBounds(n);
    currentIndex := 0;
    currentEntry := entries[currentIndex];
    cursor := 0;
    bounds := Box(Vec3(0.0, 0.0, 0.0), Vec3(0.0, 0.0, 0.0));
    for j := 0 to n
      invariant 0 <= currentIndex < entries.Length && currentIndex * PageCapacity < n
      invariant currentIndex * PageCapacity + cursor == j && 0 <= cursor <= PageCapacity
      invariant j > 0 ==> cursor > 0
      invariant forall k :: 0 <= k < currentIndex ==> entries[k] == Mirrored(start, points)[k]
      invariant forall k :: currentIndex <= k < entries.Length ==> entries[k] == start[k].(count := 0)
      invariant Fits(start[currentIndex].data)
      invariant currentEntry.data == Write(start[currentIndex].data, points[currentIndex * PageCapacity..j])
      invariant cursor > 0 ==> bounds == Hull(points[currentIndex * PageCapacity..j])
    {
      var point := points[j];
      if cursor == PageCapacity {
        FlushPage(entries, currentIndex, RenderEntry(currentEntry.data, PageCapacity, bounds), start, points, j);
        PageExists(n, currentIndex + 1);
        currentIndex := currentIndex + 1;
        currentEntry := entries[currentIndex];
        cursor := 0;
      }
      ghost var base := currentIndex * PageCapacity;
      assert points[base..j + 1] == points[base..j] + [point];
      currentEntry, bounds := AddToPage(start[currentIndex].data, points[base..j], currentEntry, bounds, cursor, point);
      cursor := cursor + 1;
    }
  }

  /** `entries[currentIndex] = new PointRenderEntry { ... }` on a full page. */
  method FlushPage(entries: array<RenderEntry>, k: int, e: RenderEntry,
                   ghost start: seq<RenderEntry>, ghost vals: seq<PointData>, ghost j: int)
    requires BuffersFit(start, |vals|) && 0 <= k < entries.Length == |start|
    requires k * PageCapacity < j <= |vals| && j == (k + 1) * PageCapacity
    requires e.data == Write(start[k].data, vals[k * PageCapacity..j]) && e.count == PageCapacity
    requires e.bounds == Hull(vals[k * PageCapacity..j])
    modifies entries
    ensures entries[k] == Mirrored(start, vals)[k]
    ensures forall i :: 0 <= i < entries.Length && i != k ==> entries[i] == old(entries[i])
  {
    ClosedPage(start, vals, k, j, e.data, e.bounds);
    entries[k] := e;
  }

  /** A page closed when full or at the end is the job's final page. */
  lemma ClosedPage(start: seq<RenderEntry>, vals: seq<PointData>, k: int, j: int, data: seq<Float4>, bounds: Box)
    requires BuffersFit(start, |vals|) && 0 <= k < |start| && k * PageCapacity < j <= |vals|
    requires j == |vals| || j == (k + 1) * PageCapacity
    requires j - k * PageCapacity <= PageCapacity
    requires data == Write(start[k].data, vals[k * PageCapacity..j])
    requires bounds == Hull(vals[k * PageCapacity..j])
    ensures RenderEntry(data, j - k * PageCapacity, bounds) == Mirrored(start, vals)[k]
  {
    PageIsSlice(vals, k, j);
  }

  /** One point onto the open page: the box starts at the page's first point, then grows. */
  method AddToPage(ghost d: seq<Float4>, ghost page: seq<PointData>, entry: RenderEntry, bounds: Box,
                   cursor: int, point: PointData) returns (entry': RenderEntry, bounds': Box)
    requires Fits(d) && |page| == cursor < PageCapacity && entry.data == Write(d, page)
    requires cursor > 0 ==> bounds == Hull(page)
    ensures entry'.data == Write(d, page + [point]) && bounds' == Hull(page + [point])
  {
    if cursor == 0 {
      assert page + [point] == [point];
      bounds' := PointBox(point.position);
    } else {
      HullSnoc(page, point);
      bounds' := Encapsulate(bounds, point.position);
    }
    WriteSnoc(d, page, point);
    entry' := entry.(data := entry.data[cursor := PositionSlot(point)][cursor + PageCapacity := AttributeSlot(point)]);
  }

  /** Every entry's count set to 0, nothing else changed. */
  method ResetCounts(entries: array<RenderEntry>)
    modifies entries
    ensures forall k :: 0 <= k < entries.Length ==> entries[k] == old(entries[k]).(count := 0)
  {
    for i := 0 to entries.Length
      invariant forall k :: 0 <= k < i ==> entries[k] == old(entries[k]).(count := 0)
      invariant forall k :: i <= k < entries.Length ==> entries[k] == old(entries[k])
    {
      entries[i] := entries[i].(count := 0);
    }
  }

  /** Pages after the one holding the last point are empty. */
  lemma LaterPagesEmpty(vals: seq<PointData>, last: int)
    requires last >= 0 && |vals| <= (last + 1) * PageCapacity
    ensures forall k :: last < k ==> PageSlice(vals, k) == []
  {
    forall k | last < k ensures PageSlice(vals, k) == [] {
      assert k * PageCapacity >= (last + 1) * PageCapacity;
    }
  }
}
