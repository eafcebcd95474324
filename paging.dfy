/**
 * The paged render buffer shared by `MirrorTreeToVfxJob` and the grid storage's copy job:
 * page `k` holds points `k * PageCapacity` up to `(k + 1) * PageCapacity`, slot `s` of its
 * buffer the position with a flag of 1, slot `s + PageCapacity` the colour and timestamp.
 */
module Paging {
  import opened Geometry
  import opened Points

  /** `TEXTURE_2D_MAX_HEIGHT`: the points one page holds. */
  const PageCapacity: int := 16384

  /** `float4`. */
  datatype Float4 = Float4(x: real, y: real, z: real, w: real)

  /** `MinMaxAABB`: a box given by its two corners. */
  datatype Box = Box(min: Vec3, max: Vec3)

  /** `PointRenderEntry`: a page buffer, the number of points in it and their bounds. */
  datatype RenderEntry = RenderEntry(data: seq<Float4>, count: int, bounds: Box)

  function PositionSlot(p: PointData): Float4 {
    Float4(p.position.x, p.position.y, p.position.z, 1.0)
  }

  function AttributeSlot(p: PointData): Float4 {
    Float4(p.color.x, p.color.y, p.color.z, p.timestamp)
  }

  // ---------------------------------------------------------------------------
  // Bounds

  function MinR(a: real, b: real): real { if a <= b then a else b }
  function MaxR(a: real, b: real): real { if a >= b then a else b }

  /** `new MinMaxAABB(p, p)`. */
  function PointBox(p: Vec3): Box { Box(p, p) }

  /** `MinMaxAABB.Encapsulate(p)`: grow the box just enough to reach `p`. */
  function Encapsulate(b: Box, p: Vec3): Box {
    Box(Vec3(MinR(b.min.x, p.x), MinR(b.min.y, p.y), MinR(b.min.z, p.z)),
        Vec3(MaxR(b.max.x, p.x), MaxR(b.max.y, p.y), MaxR(b.max.z, p.z)))
  }

  predicate Encloses(b: Box, p: Vec3) {
    b.min.x <= p.x <= b.max.x && b.min.y <= p.y <= b.max.y && b.min.z <= p.z <= b.max.z
  }

  /** `outer` reaches at least as far as `inner` on every side. */
  predicate Covers(outer: Box, inner: Box) {
    && outer.min.x <= inner.min.x && outer.min.y <= inner.min.y && outer.min.z <= inner.min.z
    && inner.max.x <= outer.max.x && inner.max.y <= outer.max.y && inner.max.z <= outer.max.z
  }

  /** `b` encapsulated with every point of `ps` in turn. */
  function HullFrom(b: Box, ps: seq<PointData>): Box
    decreases |ps|
  {
    if ps == [] then b else Encapsulate(HullFrom(b, ps[..|ps| - 1]), ps[|ps| - 1].position)
  }

  /** The box a page starts at its first point and grows over the rest. */
  function Hull(ps: seq<PointData>): Box
    requires |ps| > 0
  {
    HullFrom(PointBox(ps[0].position), ps[1..])
  }

  /**
   * Encapsulating reaches the start box and every point, and nothing beyond: any box
   * that covers the start box and encloses every point covers the result.
   */
  lemma {:induction false} HullFromIsLeast(b: Box, ps: seq<PointData>)
    ensures Covers(HullFrom(b, ps), b)
    ensures forall i :: 0 <= i < |ps| ==> Encloses(HullFrom(b, ps), ps[i].position)
    ensures forall c: Box :: Covers(c, b) && (forall i :: 0 <= i < |ps| ==> Encloses(c, ps[i].position))
              ==> Covers(c, HullFrom(b, ps))
    decreases |ps|
  {
    if ps != [] {
      var init := ps[..|ps| - 1];
      HullFromIsLeast(b, init);
      forall c: Box | Covers(c, b) && (forall i :: 0 <= i < |ps| ==> Encloses(c, ps[i].position))
        ensures Covers(c, HullFrom(b, ps))
      {
        assert forall i :: 0 <= i < |init| ==> init[i] == ps[i];
      }
    }
  }

  /** The hull of a page encloses each of its points and is the least box that does. */
  lemma HullIsLeast(ps: seq<PointData>)
    requires |ps| > 0
    ensures forall i :: 0 <= i < |ps| ==> Encloses(Hull(ps), ps[i].position)
    ensures forall c: Box :: (forall i :: 0 <= i < |ps| ==> Encloses(c, ps[i].position)) ==> Covers(c, Hull(ps))
  {
    var b := PointBox(ps[0].position);
    HullFromIsLeast(b, ps[1..]);
    forall i | 0 <= i < |ps| ensures Encloses(Hull(ps), ps[i].position) {
      if i > 0 {
        assert ps[1..][i - 1] == ps[i];
      }
    }
    forall c: Box | forall i :: 0 <= i < |ps| ==> Encloses(c, ps[i].position)
      ensures Covers(c, Hull(ps))
    {
      assert Encloses(c, ps[0].position);
      forall i | 0 <= i < |ps[1..]| ensures Encloses(c, ps[1..][i].position) {
        assert ps[1..][i] == ps[i + 1];
      }
    }
  }

  lemma HullSnoc(ps: seq<PointData>, p: PointData)
    requires |ps| > 0
    ensures Hull(ps + [p]) == Encapsulate(Hull(ps), p.position)
  {
    assert (ps + [p])[1..] == ps[1..] + [p];
    assert (ps[1..] + [p])[..|ps[1..]|] == ps[1..];
  }

  // ---------------------------------------------------------------------------
  // Pages

  function MinI(a: int, b: int): int { if a <= b then a else b }

  /** The points of page `k`. */
  function PageSlice(vals: seq<PointData>, k: int): (r: seq<PointData>)
    requires k >= 0
    ensures |r| <= PageCapacity
  {
    vals[MinI(k * PageCapacity, |vals|)..MinI((k + 1) * PageCapacity, |vals|)]
  }

  /** `ceil(n / PageCapacity)`. */
  function PageCount(n: int): int
    requires n >= 0
  {
    (n + PageCapacity - 1) / PageCapacity
  }

  lemma PageCountBounds(n: int)
    requires n >= 0
    ensures var c := PageCount(n);
            && c >= 0 && (c - 1) * PageCapacity < n <= c * PageCapacity
            && (n == 0 <==> c == 0)
  {
  }

  /** Page `k` has points exactly when `k < ceil(n / PageCapacity)`. */
  lemma PageExists(n: int, k: int)
    requires n >= 0 && k >= 0
    ensures k < PageCount(n) <==> k * PageCapacity < n
  {
    PageCountBounds(n);
    if k < PageCount(n) {
      assert k * PageCapacity <= (PageCount(n) - 1) * PageCapacity;
    } else {
      assert k * PageCapacity >= PageCount(n) * PageCapacity;
    }
  }

  /**
   * Page sizes: every page before the last is full, the last holds
   * `n - PageCapacity * (pages - 1)` points and any later page none.
   */
  lemma PageSizes(vals: seq<PointData>, k: int)
    requires k >= 0
    ensures var n, c := |vals|, PageCount(|vals|);
            && (k < c - 1 ==> |PageSlice(vals, k)| == PageCapacity)
            && (k == c - 1 ==> |PageSlice(vals, k)| == n - PageCapacity * (c - 1) > 0)
            && (k >= c ==> |PageSlice(vals, k)| == 0)
  {
    var n, c := |vals|, PageCount(|vals|);
    PageCountBounds(n);
    PageExists(n, k);
    PageExists(n, k + 1);
  }

  /** Point `j` sits in page `j / PageCapacity` at slot `j % PageCapacity`. */
  lemma PageOfIndex(vals: seq<PointData>, j: int)
    requires 0 <= j < |vals|
    ensures var k, s := j / PageCapacity, j % PageCapacity;
            s < |PageSlice(vals, k)| && PageSlice(vals, k)[s] == vals[j]
  {
    var k, s := j / PageCapacity, j % PageCapacity;
    assert j == k * PageCapacity + s;
  }

  /** The pages, read in order, are the points: none is lost or repeated. */
  function Concat(vals: seq<PointData>, m: int): seq<PointData>
    requires m >= 0
  {
    if m == 0 then [] else Concat(vals, m - 1) + PageSlice(vals, m - 1)
  }

  lemma {:induction false} ConcatPrefix(vals: seq<PointData>, m: int)
    requires m >= 0
    ensures Concat(vals, m) == vals[..MinI(m * PageCapacity, |vals|)]
  {
    if m > 0 {
      ConcatPrefix(vals, m - 1);
      var a, b := MinI((m - 1) * PageCapacity, |vals|), MinI(m * PageCapacity, |vals|);
      assert vals[..a] + vals[a..b] == vals[..b];
    }
  }

  lemma PagesCoverAll(vals: seq<PointData>)
    ensures Concat(vals, PageCount(|vals|)) == vals
  {
    PageCountBounds(|vals|);
    ConcatPrefix(vals, PageCount(|vals|));
  }

  // ---------------------------------------------------------------------------
  // Page buffers

  /** A buffer big enough for `PageCapacity` positions followed by as many attributes. */
  predicate Fits(d: seq<Float4>) { |d| >= 2 * PageCapacity }

  /** The slot writes of one page: point `s` into slots `s` and `s + PageCapacity`. */
  function Write(d: seq<Float4>, ps: seq<PointData>): (r: seq<Float4>)
    requires Fits(d) && |ps| <= PageCapacity
    ensures |r| == |d|
    decreases |ps|
  {
    if ps == [] then d
    else
      var k := |ps| - 1;
      Write(d, ps[..k])[k := PositionSlot(ps[k])][k + PageCapacity := AttributeSlot(ps[k])]
  }

  /** What a page buffer holds after the writes: the page's points and, elsewhere, the old data. */
  lemma {:induction false} WriteContents(d: seq<Float4>, ps: seq<PointData>, s: int)
    requires Fits(d) && |ps| <= PageCapacity && 0 <= s < |d|
    ensures Write(d, ps)[s] ==
      (if s < |ps| then PositionSlot(ps[s])
       else if PageCapacity <= s < PageCapacity + |ps| then AttributeSlot(ps[s - PageCapacity])
       else d[s])
    decreases |ps|
  {
    if ps != [] {
      var k := |ps| - 1;
      if s != k && s != k + PageCapacity {
        WriteContents(d, ps[..k], s);
        if s < k {
          assert ps[..k][s] == ps[s];
        } else if PageCapacity <= s < PageCapacity + k {
          assert ps[..k][s - PageCapacity] == ps[s - PageCapacity];
        }
      }
    }
  }

  lemma WriteSnoc(d: seq<Float4>, ps: seq<PointData>, p: PointData)
    requires Fits(d) && |ps| < PageCapacity
    ensures Write(d, ps + [p]) == Write(d, ps)[|ps| := PositionSlot(p)][|ps| + PageCapacity := AttributeSlot(p)]
  {
    assert (ps + [p])[..|ps|] == ps;
  }
}
