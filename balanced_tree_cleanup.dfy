/**
 * `BalancedTreeCleanup`: drop expired points, draw a random sample by swap-remove,
 * build a tree from the sample level by level out of three coordinate-sorted copies,
 * then insert the points not sampled. The random draws, the clock and the library sort
 * are inputs here: `picks` holds the successive `NextInt(available.Length)` results and
 * `xyz`/`yzx`/`zxy` the sorted copies of the sample.
 */
module BalancedTreeCleanup {
  import opened Geometry
  import opened Points
  import opened KdTree

  // ---------------------------------------------------------------------------
  // Comparers

  /** `float.CompareTo`: -1, 0 or 1. */
  function CompareReal(a: real, b: real): (r: int)
    ensures r == -1 || r == 0 || r == 1
    ensures (r < 0 <==> a < b) && (r == 0 <==> a == b)
  {
    if a < b then -1 else if a == b then 0 else 1
  }

  /** The comparers look at one coordinate only, whatever their names suggest. */
  function XYZCompare(a: PointData, b: PointData): int { CompareReal(a.position.x, b.position.x) }
  function YZXCompare(a: PointData, b: PointData): int { CompareReal(a.position.y, b.position.y) }
  function ZXYCompare(a: PointData, b: PointData): int { CompareReal(a.position.z, b.position.z) }

  /** Each comparer is the comparison on one axis, and is antisymmetric. */
  lemma ComparersOrderByAxis(a: PointData, b: PointData)
    ensures XYZCompare(a, b) < 0 <==> Coord(a.position, 0) < Coord(b.position, 0)
    ensures YZXCompare(a, b) < 0 <==> Coord(a.position, 1) < Coord(b.position, 1)
    ensures ZXYCompare(a, b) < 0 <==> Coord(a.position, 2) < Coord(b.position, 2)
    ensures XYZCompare(a, b) == -XYZCompare(b, a)
    ensures YZXCompare(a, b) == -YZXCompare(b, a)
    ensures ZXYCompare(a, b) == -ZXYCompare(b, a)
  {
  }

  /** What the sort of one copy delivers: ascending on one coordinate. */
  ghost predicate SortedOn(s: seq<PointData>, axis: Axis) {
    forall i, j :: 0 <= i < j < |s| ==> Coord(s[i].position, axis) <= Coord(s[j].position, axis)
  }

  // ---------------------------------------------------------------------------
  // Filtering and sampling

  /** `CopyAndFilter.Execute`: the points with `time - timestamp < maxLifetime`, in order. */
  method CopyAndFilter(from: seq<PointData>, maxLifetime: real, time: real) returns (to: seq<PointData>)
    ensures to == Survivors(from, time, maxLifetime)
  {
    to := [];
    var i := 0;
    while i < |from|
      invariant 0 <= i <= |from|
      invariant to == Survivors(from[..i], time, maxLifetime)
    {
      assert from[..i + 1][..i] == from[..i];
      if time - from[i].timestamp < maxLifetime {
        to := to + [from[i]];
      }
      i := i + 1;
    }
    assert from[..i] == from;
  }

  /** `RemoveAtSwapBack(i)`: the last element moves into slot `i`. */
  function SwapRemove(s: seq<PointData>, i: int): (r: seq<PointData>)
    requires 0 <= i < |s|
    ensures |r| == |s| - 1
  {
    s[i := s[|s| - 1]][..|s| - 1]
  }

  lemma SwapRemoveContents(s: seq<PointData>, i: int)
    requires 0 <= i < |s|
    ensures multiset(SwapRemove(s, i)) + multiset{s[i]} == multiset(s)
  {
    var n := |s| - 1;
    if i == n {
      assert s == s[..n] + [s[n]];
      assert SwapRemove(s, i) == s[..n];
    } else {
      assert s == s[..i] + [s[i]] + s[i + 1..n] + [s[n]];
      assert SwapRemove(s, i) == s[..i] + [s[n]] + s[i + 1..n];
    }
  }

  /** The draws are usable: draw `i` is below the size of what is left by then. */
  predicate PicksValid(n: int, picks: seq<int>, count: int) {
    count <= |picks| && forall i :: 0 <= i < count ==> 0 <= picks[i] < n - i
  }

  function Min(a: int, b: int): int { if a <= b then a else b }

  /** The sampling loop on values: `count` draws, each moving one element from `av` to the sample. */
  function Sample(av: seq<PointData>, picks: seq<int>, count: int): (r: (seq<PointData>, seq<PointData>))
    requires count <= |av| && PicksValid(|av|, picks, count)
    decreases count
  {
    if count <= 0 then ([], av)
    else
      PicksTail(|av|, picks, count);
      var rest := Sample(SwapRemove(av, picks[0]), picks[1..], count - 1);
      ([av[picks[0]]] + rest.0, rest.1)
  }

  /** Sampling moves exactly `count` elements and loses none: the multiset union is preserved. */
  lemma {:induction false} SampleContents(av: seq<PointData>, picks: seq<int>, count: int)
    requires count <= |av| && PicksValid(|av|, picks, count)
    ensures var r := Sample(av, picks, count);
            && |r.0| == (if count <= 0 then 0 else count)
            && |r.1| == |av| - |r.0|
            && multiset(r.0) + multiset(r.1) == multiset(av)
    decreases count
  {
    if count > 0 {
      var av' := SwapRemove(av, picks[0]);
      PicksTail(|av|, picks, count);
      SampleContents(av', picks[1..], count - 1);
      SwapRemoveContents(av, picks[0]);
    }
  }

  /** Dropping the first draw leaves usable draws for what is left. */
  lemma PicksTail(n: int, picks: seq<int>, count: int)
    requires PicksValid(n, picks, count) && count > 0
    ensures PicksValid(n - 1, picks[1..], count - 1)
  {
    forall i | 0 <= i < count - 1 ensures 0 <= picks[1..][i] < n - 1 - i {
      assert picks[1..][i] == picks[i + 1];
    }
  }

  /** The sampling loop of `BalanceAndCleanup`. */
  method SampleLoop(available0: seq<PointData>, samples: int, picks: seq<int>)
    returns (data: seq<PointData>, available: seq<PointData>)
    requires PicksValid(|available0|, picks, Min(|available0|, samples))
    ensures (data, available) == Sample(available0, picks, Min(|available0|, samples))
  {
    var effectiveCount := Min(|available0|, samples);
    data := [];
    available := available0;
    var i := 0;
    ghost var rest := picks;
    assert data + Sample(available, rest, effectiveCount).0 == Sample(available, rest, effectiveCount).0;
    while i < effectiveCount
      invariant 0 <= i <= (if effectiveCount < 0 then 0 else effectiveCount)
      invariant |available| == |available0| - i
      invariant PicksValid(|available|, rest, effectiveCount - i)
      invariant rest == picks[i..]
      invariant var r := Sample(available, rest, effectiveCount - i);
                (data + r.0, r.1) == Sample(available0, picks, effectiveCount)
    {
      var index := picks[i];
      assert rest[0] == index;
      PicksTail(|available|, rest, effectiveCount - i);
      ghost var r := Sample(available, rest, effectiveCount - i);
      ghost var r' := Sample(SwapRemove(available, index), rest[1..], effectiveCount - i - 1);
      assert r.0 == [available[index]] + r'.0 && r.1 == r'.1;
      assert data + r.0 == (data + [available[index]]) + r'.0;
      data := data + [available[index]];
      available := SwapRemove(available, index);
      rest := rest[1..];
      i := i + 1;
    }
    assert data + Sample(available, rest, effectiveCount - i).0 == data;
  }

  // ---------------------------------------------------------------------------
  // Region splitting

  /** `AssemblyStepArgs`: the index range `[start, end)` and where the region came from. */
  datatype Region = Region(start: int, end: int, parent: int, isLeft: bool)

  /** `AssemblyStepResult`, by `type`: 0 nothing, 1 a point, 2 a point and two subregions. */
  datatype StepResult = Empty | Single(point: PointData) | Split(point: PointData, left: Region, right: Region)

  function ResultType(r: StepResult): int {
    match r
    case Empty => 0
    case Single(_) => 1
    case Split(_, _, _) => 2
  }

  function Len(r: Region): int { r.end - r.start }

  predicate InRange(r: Region, n: int) { 0 <= r.start <= r.end <= n }

  predicate AllInRange(regions: seq<Region>, n: int) {
    forall i :: 0 <= i < |regions| ==> InRange(regions[i], n)
  }

  predicate SameLength(xyz: seq<PointData>, yzx: seq<PointData>, zxy: seq<PointData>) {
    |xyz| == |yzx| == |zxy|
  }

  /** The element at index `j` of the copy sorted on `axis`. */
  function Pick(xyz: seq<PointData>, yzx: seq<PointData>, zxy: seq<PointData>, axis: Axis, j: int): PointData
    requires SameLength(xyz, yzx, zxy) && 0 <= j < |xyz|
  {
    if axis == 0 then xyz[j] else if axis == 1 then yzx[j] else zxy[j]
  }

  /**
   * `ParallelTreeAssembler.Execute(i)`: an empty region gives nothing, a single one its
   * element, a longer one the element at `mid = start + length / 2` of the copy sorted on
   * the current axis, with `[start, mid)` on the left and `[mid + 1, end)` on the right.
   */
  function Assemble(xyz: seq<PointData>, yzx: seq<PointData>, zxy: seq<PointData>,
                    regions: seq<Region>, i: int, axis: Axis): (r: StepResult)
    requires SameLength(xyz, yzx, zxy) && 0 <= i < |regions| && InRange(regions[i], |xyz|)
    ensures r.Empty? <==> Len(regions[i]) == 0
    ensures r.Single? <==> Len(regions[i]) == 1
    ensures r.Single? ==> r.point == Pick(xyz, yzx, zxy, axis, regions[i].start)
    ensures r.Split? ==>
      && r.left.start == regions[i].start && r.right.end == regions[i].end
      && r.right.start == r.left.end + 1
      && InRange(r.left, |xyz|) && InRange(r.right, |xyz|)
      && r.point == Pick(xyz, yzx, zxy, axis, r.left.end)
      && Len(r.left) + Len(r.right) == Len(regions[i]) - 1
      && Len(r.right) <= Len(r.left) <= Len(r.right) + 1
      && r.left.parent == i && r.left.isLeft && r.right.parent == i && !r.right.isLeft
  {
    var reg := regions[i];
    var length := reg.end - reg.start;
    if length == 0 then Empty
    else if length == 1 then Single(Pick(xyz, yzx, zxy, axis, reg.start))
    else
      var mid := reg.start + length / 2;
      Split(Pick(xyz, yzx, zxy, axis, mid), Region(reg.start, mid, i, true), Region(mid + 1, reg.end, i, false))
  }

  /** The results of one level, one per region (the parallel-for). */
  function Results(xyz: seq<PointData>, yzx: seq<PointData>, zxy: seq<PointData>,
                   regions: seq<Region>, axis: Axis): (res: seq<StepResult>)
    requires SameLength(xyz, yzx, zxy) && AllInRange(regions, |xyz|)
    ensures |res| == |regions|
    ensures forall i :: 0 <= i < |regions| ==> res[i] == Assemble(xyz, yzx, zxy, regions, i, axis)
  {
    seq(|regions|, i requires 0 <= i < |regions| => Assemble(xyz, yzx, zxy, regions, i, axis))
  }

  /** What one result adds to the level's points: its point, if any. */
  function EmitOf(r: StepResult): seq<PointData> {
    match r
    case Empty => []
    case Single(p) => [p]
    case Split(p, _, _) => [p]
  }

  /** What one result adds to the next level: left then right of a split. */
  function SplitOf(r: StepResult): seq<Region> {
    match r
    case Split(_, left, right) => [left, right]
    case _ => []
  }

  /** The points a level inserts, in region order. */
  function Emitted(res: seq<StepResult>): seq<PointData> {
    if res == [] then [] else Emitted(res[..|res| - 1]) + EmitOf(res[|res| - 1])
  }

  /** The regions of the next level, in region order. */
  function NextRegions(res: seq<StepResult>): seq<Region> {
    if res == [] then [] else NextRegions(res[..|res| - 1]) + SplitOf(res[|res| - 1])
  }

  lemma PrefixStep(res: seq<StepResult>, i: int)
    requires 0 <= i < |res|
    ensures Emitted(res[..i + 1]) == Emitted(res[..i]) + EmitOf(res[i])
    ensures NextRegions(res[..i + 1]) == NextRegions(res[..i]) + SplitOf(res[i])
  {
    assert res[..i + 1][..i] == res[..i];
  }

  function SumLen(regions: seq<Region>): int {
    if regions == [] then 0 else SumLen(regions[..|regions| - 1]) + Len(regions[|regions| - 1])
  }

  lemma {:induction false} SumLenAppend(a: seq<Region>, b: seq<Region>)
    ensures SumLen(a + b) == SumLen(a) + SumLen(b)
    decreases |b|
  {
    if b == [] {
      assert a + b == a;
    } else {
      assert (a + b)[..|a + b| - 1] == a + b[..|b| - 1];
      SumLenAppend(a, b[..|b| - 1]);
    }
  }

  lemma SumLenPair(l: Region, r: Region)
    ensures SumLen([l, r]) == Len(l) + Len(r)
  {
    assert [l, r][..1] == [l];
    assert [l][..0] == [];
    assert SumLen([l]) == SumLen([]) + Len(l);
    assert SumLen([l, r]) == SumLen([l]) + Len(r);
  }

  lemma {:induction false} SumLenNonNegative(regions: seq<Region>, n: int)
    requires AllInRange(regions, n)
    ensures SumLen(regions) >= 0
    ensures SumLen(regions) > 0 ==> exists i :: 0 <= i < |regions| && Len(regions[i]) > 0
  {
    if regions != [] {
      var init := regions[..|regions| - 1];
      SumLenNonNegative(init, n);
      if SumLen(init) > 0 {
        var i :| 0 <= i < |init| && Len(init[i]) > 0;
        assert regions[i] == init[i];
      }
    }
  }

  /**
   * The counting of one level: every non-empty region emits one point and hands on its
   * length minus one, so emitted points plus the next level's total length is this
   * level's total length, and the next level's regions stay in range.
   */
  lemma {:induction false} LevelCount(xyz: seq<PointData>, yzx: seq<PointData>, zxy: seq<PointData>,
                                      regions: seq<Region>, axis: Axis)
    requires SameLength(xyz, yzx, zxy) && AllInRange(regions, |xyz|)
    ensures var res := Results(xyz, yzx, zxy, regions, axis);
            && |Emitted(res)| + SumLen(NextRegions(res)) == SumLen(regions)
            && AllInRange(NextRegions(res), |xyz|)
    decreases |regions|
  {
    if regions != [] {
      var init := regions[..|regions| - 1];
      var res := Results(xyz, yzx, zxy, regions, axis);
      var resInit := Results(xyz, yzx, zxy, init, axis);
      ResultsPrefix(xyz, yzx, zxy, regions, axis);
      LevelCount(xyz, yzx, zxy, init, axis);
      var last := res[|res| - 1];
      var tail := SplitOf(last);
      assert Emitted(res) == Emitted(resInit) + EmitOf(last);
      assert NextRegions(res) == NextRegions(resInit) + tail;
      SumLenAppend(NextRegions(resInit), tail);
      LastCount(xyz, yzx, zxy, regions, |regions| - 1, axis);
      assert SumLen(regions) == SumLen(init) + Len(regions[|regions| - 1]);
      AllInRangeAppend(NextRegions(resInit), tail, |xyz|);
    }
  }

  /** The results of all regions but the last are the results of the shorter list. */
  lemma ResultsPrefix(xyz: seq<PointData>, yzx: seq<PointData>, zxy: seq<PointData>, regions: seq<Region>, axis: Axis)
    requires SameLength(xyz, yzx, zxy) && AllInRange(regions, |xyz|) && regions != []
    ensures Results(xyz, yzx, zxy, regions, axis)[..|regions| - 1] == Results(xyz, yzx, zxy, regions[..|regions| - 1], axis)
  {
    var init := regions[..|regions| - 1];
    var res := Results(xyz, yzx, zxy, regions, axis);
    var resInit := Results(xyz, yzx, zxy, init, axis);
    forall i | 0 <= i < |init| ensures resInit[i] == res[i] {
      assert Assemble(xyz, yzx, zxy, init, i, axis) == Assemble(xyz, yzx, zxy, regions, i, axis);
    }
  }

  /** One region's result places its length: a point for each point emitted or still in a subregion. */
  lemma LastCount(xyz: seq<PointData>, yzx: seq<PointData>, zxy: seq<PointData>, regions: seq<Region>, i: int, axis: Axis)
    requires SameLength(xyz, yzx, zxy) && 0 <= i < |regions| && InRange(regions[i], |xyz|)
    ensures var r := Assemble(xyz, yzx, zxy, regions, i, axis);
            && |EmitOf(r)| + SumLen(SplitOf(r)) == Len(regions[i])
            && AllInRange(SplitOf(r), |xyz|)
  {
    var r := Assemble(xyz, yzx, zxy, regions, i, axis);
    if r.Split? {
      SumLenPair(r.left, r.right);
    }
  }

  lemma AllInRangeAppend(a: seq<Region>, b: seq<Region>, n: int)
    requires AllInRange(a, n) && AllInRange(b, n)
    ensures AllInRange(a + b, n)
  {
  }

  /** A level with anything left to place emits at least one point. */
  lemma {:induction false} LevelProgress(xyz: seq<PointData>, yzx: seq<PointData>, zxy: seq<PointData>,
                                         regions: seq<Region>, axis: Axis)
    requires SameLength(xyz, yzx, zxy) && AllInRange(regions, |xyz|) && SumLen(regions) > 0
    ensures |Emitted(Results(xyz, yzx, zxy, regions, axis))| > 0
  {
    SumLenNonNegative(regions, |xyz|);
    var i :| 0 <= i < |regions| && Len(regions[i]) > 0;
    EmittedAt(Results(xyz, yzx, zxy, regions, axis), i);
  }

  lemma {:induction false} EmittedAt(res: seq<StepResult>, i: int)
    requires 0 <= i < |res| && !res[i].Empty?
    ensures |Emitted(res)| > 0
    decreases |res|
  {
    if i < |res| - 1 {
      EmittedAt(res[..|res| - 1], i);
    }
  }

  /** The axis after `a` in the cycle x, y, z. */
  function NextAxis(a: Axis): Axis { (a + 1) % 3 }

  /** The whole level loop: the points inserted, level after level, until nothing is left. */
  ghost function BalancedOrder(xyz: seq<PointData>, yzx: seq<PointData>, zxy: seq<PointData>,
                               regions: seq<Region>, axis: Axis): seq<PointData>
    requires SameLength(xyz, yzx, zxy) && AllInRange(regions, |xyz|)
    decreases SumLen(regions) + 1
  {
    if SumLen(regions) <= 0 then []
    else
      var res := Results(xyz, yzx, zxy, regions, axis);
      LevelCount(xyz, yzx, zxy, regions, axis);
      LevelProgress(xyz, yzx, zxy, regions, axis);
      SumLenNonNegative(NextRegions(res), |xyz|);
      Emitted(res) + BalancedOrder(xyz, yzx, zxy, NextRegions(res), NextAxis(axis))
  }

  /** The loop places exactly as many points as the regions span. */
  lemma {:induction false} BalancedOrderLength(xyz: seq<PointData>, yzx: seq<PointData>, zxy: seq<PointData>,
                                               regions: seq<Region>, axis: Axis)
    requires SameLength(xyz, yzx, zxy) && AllInRange(regions, |xyz|)
    ensures |BalancedOrder(xyz, yzx, zxy, regions, axis)| == SumLen(regions)
    decreases SumLen(regions) + 1
  {
    SumLenNonNegative(regions, |xyz|);
    if SumLen(regions) > 0 {
      var res := Results(xyz, yzx, zxy, regions, axis);
      LevelCount(xyz, yzx, zxy, regions, axis);
      LevelProgress(xyz, yzx, zxy, regions, axis);
      SumLenNonNegative(NextRegions(res), |xyz|);
      BalancedOrderLength(xyz, yzx, zxy, NextRegions(res), NextAxis(axis));
    }
  }

  function Whole(n: int): seq<Region> { [Region(0, n, -1, false)] }

  /** The order in which `ConstructBalancedTree` inserts the sample. */
  ghost function BalancedBuild(points: seq<PointData>, xyz: seq<PointData>, yzx: seq<PointData>, zxy: seq<PointData>)
    : seq<PointData>
    requires SameLength(xyz, yzx, zxy) && |xyz| == |points|
  {
    if |points| < 3 then points else BalancedOrder(xyz, yzx, zxy, Whole(|xyz|), 0)
  }

  /** Whichever path is taken, the tree receives exactly as many points as the sample holds. */
  lemma BalancedBuildLength(points: seq<PointData>, xyz: seq<PointData>, yzx: seq<PointData>, zxy: seq<PointData>)
    requires SameLength(xyz, yzx, zxy) && |xyz| == |points|
    ensures |BalancedBuild(points, xyz, yzx, zxy)| == |points|
  {
    if |points| >= 3 {
      BalancedOrderLength(xyz, yzx, zxy, Whole(|xyz|), 0);
      assert Whole(|xyz|)[..0] == [];
    }
  }

  /**
   * The split ranges are shared by copies sorted on different axes, so the tree need not
   * receive the sample as a permutation: for A = (0, 1, 0), B = (1, 2, 0), C = (2, 0, 0)
   * the levels insert B, then C and B again, and A never.
   */
  lemma NotAPermutation()
    ensures var a, b, c := ExampleA, ExampleB, ExampleC;
            && SortedOn([a, b, c], 0) && SortedOn([c, a, b], 1) && SortedOn([a, b, c], 2)
            && BalancedBuild([a, b, c], [a, b, c], [c, a, b], [a, b, c]) == [b, c, b]
  {
    var a, b, c := ExampleA, ExampleB, ExampleC;
    var xyz, yzx, zxy := [a, b, c], [c, a, b], [a, b, c];
    var r1 := [Region(0, 1, 0, true), Region(2, 3, 0, false)];
    ExampleSorted();
    ExampleFirstLevel();
    ExampleSecondLevel();
    assert SumLen([]) == 0;
    BalancedOrderDone(xyz, yzx, zxy, [], 2);
    BalancedOrderStep(xyz, yzx, zxy, r1, 1);
    BalancedOrderStep(xyz, yzx, zxy, Whole(3), 0);
    assert [b] + ([c, b] + []) == [b, c, b];
  }

  const ExampleA := PointData(Vec3(0.0, 1.0, 0.0), Vec3(0.0, 0.0, 0.0), 0.0)
  const ExampleB := PointData(Vec3(1.0, 2.0, 0.0), Vec3(0.0, 0.0, 0.0), 0.0)
  const ExampleC := PointData(Vec3(2.0, 0.0, 0.0), Vec3(0.0, 0.0, 0.0), 0.0)

  /** The example's copies are sorted on x, y and z. */
  lemma ExampleSorted()
    ensures var a, b, c := ExampleA, ExampleB, ExampleC;
            SortedOn([a, b, c], 0) && SortedOn([c, a, b], 1) && SortedOn([a, b, c], 2)
  {
  }

  /** The first level of the example: the whole range splits at B. */
  lemma ExampleFirstLevel()
    ensures var a, b, c := ExampleA, ExampleB, ExampleC;
            var res := Results([a, b, c], [c, a, b], [a, b, c], Whole(3), 0);
            && SumLen(Whole(3)) == 3
            && Emitted(res) == [b]
            && NextRegions(res) == [Region(0, 1, 0, true), Region(2, 3, 0, false)]
  {
    var a, b, c := ExampleA, ExampleB, ExampleC;
    var r0 := Whole(3);
    assert r0[..0] == [];
    var res0 := Results([a, b, c], [c, a, b], [a, b, c], r0, 0);
    assert res0 == [Split(b, Region(0, 1, 0, true), Region(2, 3, 0, false))];
    assert res0[..0] == [];
    assert NextRegions([]) == [];
  }

  /** The second level of the example: both halves hold one point, C and B. */
  lemma ExampleSecondLevel()
    ensures var a, b, c := ExampleA, ExampleB, ExampleC;
            var r1 := [Region(0, 1, 0, true), Region(2, 3, 0, false)];
            var res := Results([a, b, c], [c, a, b], [a, b, c], r1, 1);
            && AllInRange(r1, 3) && SumLen(r1) == 2
            && Emitted(res) == [c, b]
            && NextRegions(res) == []
  {
    var a, b, c := ExampleA, ExampleB, ExampleC;
    var r1 := [Region(0, 1, 0, true), Region(2, 3, 0, false)];
    var res1 := Results([a, b, c], [c, a, b], [a, b, c], r1, 1);
    assert res1 == [Single(c), Single(b)];
    assert res1[..1] == [Single(c)] && res1[..1][..0] == [];
    assert Emitted(res1[..1]) == [c];
    assert Emitted(res1) == [c, b];
    assert NextRegions(res1[..1]) == [];
    assert NextRegions(res1) == [];
    assert r1[..1] == [Region(0, 1, 0, true)] && r1[..1][..0] == [];
  }

  // ---------------------------------------------------------------------------
  // Construction

  /** One turn of the level loop, on values. */
  lemma BalancedOrderStep(xyz: seq<PointData>, yzx: seq<PointData>, zxy: seq<PointData>,
                          regions: seq<Region>, axis: Axis)
    requires SameLength(xyz, yzx, zxy) && AllInRange(regions, |xyz|) && SumLen(regions) > 0
    ensures var res := Results(xyz, yzx, zxy, regions, axis);
            && AllInRange(NextRegions(res), |xyz|)
            && |Emitted(res)| + SumLen(NextRegions(res)) == SumLen(regions)
            && BalancedOrder(xyz, yzx, zxy, regions, axis)
               == Emitted(res) + BalancedOrder(xyz, yzx, zxy, NextRegions(res), NextAxis(axis))
  {
    LevelCount(xyz, yzx, zxy, regions, axis);
  }

  /** When the regions span nothing, the loop has nothing left to place. */
  lemma BalancedOrderDone(xyz: seq<PointData>, yzx: seq<PointData>, zxy: seq<PointData>,
                          regions: seq<Region>, axis: Axis)
    requires SameLength(xyz, yzx, zxy) && AllInRange(regions, |xyz|) && SumLen(regions) <= 0
    ensures BalancedOrder(xyz, yzx, zxy, regions, axis) == []
  {
  }

  /** `ConstructBalancedTree`: sequential inserts below three points, else the level loop. */
  method ConstructBalancedTree(points: seq<PointData>, xyz: seq<PointData>, yzx: seq<PointData>, zxy: seq<PointData>)
    returns (tree: BurstKdTree)
    requires SameLength(xyz, yzx, zxy) && |xyz| == |points|
    requires multiset(xyz) == multiset(points) && SortedOn(xyz, 0)
    requires multiset(yzx) == multiset(points) && SortedOn(yzx, 1)
    requires multiset(zxy) == multiset(points) && SortedOn(zxy, 2)
    ensures fresh(tree) && tree.Valid()
    ensures tree.State() == BuildState(BalancedBuild(points, xyz, yzx, zxy))
    ensures |tree.points| == |points|
  {
    BalancedBuildLength(points, xyz, yzx, zxy);
    tree := new BurstKdTree();
    assert tree.State() == BuildState([]) by {
      assert Positions([]) == [];
    }
    if |points| < 3 {
      InsertEach(tree, points, []);
      assert [] + points == points;
    } else {
      LevelLoop(tree, xyz, yzx, zxy);
    }
  }

  /** The `while (tree.Count < n)` loop over levels, starting from one region spanning all. */
  method LevelLoop(tree: BurstKdTree, xyz: seq<PointData>, yzx: seq<PointData>, zxy: seq<PointData>)
    requires SameLength(xyz, yzx, zxy)
    requires tree.Valid() && tree.State() == BuildState([])
    modifies tree
    ensures tree.Valid() && tree.State() == BuildState(BalancedOrder(xyz, yzx, zxy, Whole(|xyz|), 0))
  {
    var regions := Whole(|xyz|);
    assert regions[..0] == [];
    var axis: Axis := 0;
    ghost var target := BalancedOrder(xyz, yzx, zxy, regions, axis);
    ghost var todo := target;
    ghost var placed: seq<PointData> := [];
    assert placed + todo == target;
    while |tree.points| < |xyz|
      invariant tree.Valid()
      invariant AllInRange(regions, |xyz|)
      invariant tree.State() == BuildState(placed)
      invariant todo == BalancedOrder(xyz, yzx, zxy, regions, axis)
      invariant placed + todo == target
      invariant |tree.points| + SumLen(regions) == |xyz|
      decreases |xyz| - |tree.points|
    {
      BalancedOrderStep(xyz, yzx, zxy, regions, axis);
      LevelProgress(xyz, yzx, zxy, regions, axis);
      ghost var results := Results(xyz, yzx, zxy, regions, axis);
      ghost var todo' := BalancedOrder(xyz, yzx, zxy, NextRegions(results), NextAxis(axis));
      AppendAssoc(placed, Emitted(results), todo');
      regions := LevelTurn(tree, xyz, yzx, zxy, regions, axis, placed);
      placed := placed + Emitted(results);
      todo := todo';
      axis := NextAxis(axis);
    }
    BalancedOrderDone(xyz, yzx, zxy, regions, axis);
    assert placed + todo == placed;
  }

  /** One level: assemble every region, then consume the results in order. */
  method LevelTurn(tree: BurstKdTree, xyz: seq<PointData>, yzx: seq<PointData>, zxy: seq<PointData>,
                   regions: seq<Region>, axis: Axis, ghost placed: seq<PointData>) returns (next: seq<Region>)
    requires SameLength(xyz, yzx, zxy) && AllInRange(regions, |xyz|)
    requires tree.Valid() && tree.State() == BuildState(placed)
    modifies tree
    ensures tree.Valid() && tree.State() == BuildState(placed + Emitted(Results(xyz, yzx, zxy, regions, axis)))
    ensures next == NextRegions(Results(xyz, yzx, zxy, regions, axis))
  {
    var results := AssembleLevel(xyz, yzx, zxy, regions, axis);
    next := ApplyLevel(tree, results, placed);
  }

  /** The parallel-for over the regions, as a loop. */
  method AssembleLevel(xyz: seq<PointData>, yzx: seq<PointData>, zxy: seq<PointData>,
                       regions: seq<Region>, axis: Axis) returns (results: seq<StepResult>)
    requires SameLength(xyz, yzx, zxy) && AllInRange(regions, |xyz|)
    ensures results == Results(xyz, yzx, zxy, regions, axis)
  {
    results := [];
    var i := 0;
    while i < |regions|
      invariant 0 <= i <= |regions| && |results| == i
      invariant forall j :: 0 <= j < i ==> results[j] == Assemble(xyz, yzx, zxy, regions, j, axis)
    {
      results := results + [Assemble(xyz, yzx, zxy, regions, i, axis)];
      i := i + 1;
    }
  }

  /** Consumes one level's results in order: insert each point, enqueue left then right. */
  method ApplyLevel(tree: BurstKdTree, results: seq<StepResult>, ghost placed: seq<PointData>)
    returns (regions: seq<Region>)
    requires tree.Valid() && tree.State() == BuildState(placed)
    modifies tree
    ensures tree.Valid() && tree.State() == BuildState(placed + Emitted(results))
    ensures regions == NextRegions(results)
  {
    regions := [];
    var i := 0;
    ghost var em: seq<PointData> := [];
    assert results[..0] == [];
    assert placed + em == placed;
    while i < |results|
      invariant 0 <= i <= |results|
      invariant em == Emitted(results[..i]) && regions == NextRegions(results[..i])
      invariant tree.Valid() && tree.State() == BuildState(placed + em)
    {
      PrefixStep(results, i);
      var split := ApplyOne(tree, results[i], placed + em);
      AppendAssoc(placed, em, EmitOf(results[i]));
      regions := regions + split;
      em := em + EmitOf(results[i]);
      i := i + 1;
    }
    assert results[..i] == results;
  }

  lemma AppendAssoc(a: seq<PointData>, b: seq<PointData>, c: seq<PointData>)
    ensures (a + b) + c == a + (b + c)
  {
  }

  /** One result: insert its point, if any, and hand back its subregions. */
  method ApplyOne(tree: BurstKdTree, r: StepResult, ghost done: seq<PointData>) returns (split: seq<Region>)
    requires tree.Valid() && tree.State() == BuildState(done)
    modifies tree
    ensures tree.Valid() && tree.State() == BuildState(done + EmitOf(r))
    ensures split == SplitOf(r)
  {
    match r {
      case Empty =>
        split := [];
        assert done + EmitOf(r) == done;
      case Single(p) =>
        BuildStateSnoc(done, p);
        tree.Insert(p);
        split := [];
      case Split(p, left, right) =>
        BuildStateSnoc(done, p);
        tree.Insert(p);
        split := [left, right];
    }
  }

  /** `foreach (var point in points) tree.Insert(point)`: the small-tree path and `InsertJob`. */
  method InsertEach(tree: BurstKdTree, ps: seq<PointData>, ghost pre: seq<PointData>)
    requires tree.Valid() && tree.State() == BuildState(pre)
    modifies tree
    ensures tree.Valid() && tree.State() == BuildState(pre + ps)
  {
    var i := 0;
    ghost var done := pre;
    assert pre + ps[..0] == pre;
    while i < |ps|
      invariant 0 <= i <= |ps| && done == pre + ps[..i]
      invariant tree.Valid() && tree.State() == BuildState(done)
    {
      BuildStateSnoc(done, ps[i]);
      tree.Insert(ps[i]);
      SnocSlice(pre, ps, i);
      done := done + [ps[i]];
      i := i + 1;
    }
    assert ps[..i] == ps;
  }

  lemma SnocSlice(pre: seq<PointData>, ps: seq<PointData>, i: int)
    requires 0 <= i < |ps|
    ensures pre + ps[..i + 1] == (pre + ps[..i]) + [ps[i]]
  {
    assert ps[..i + 1] == ps[..i] + [ps[i]];
  }

  /**
   * `BalanceAndCleanup`: filter, sample `min(|available|, samples)` points, build the
   * balanced part from the sample, then insert what was not sampled.
   */
  method BalanceAndCleanup(points: seq<PointData>, samples: int, maxLifetime: real, time: real,
                           picks: seq<int>, xyz: seq<PointData>, yzx: seq<PointData>, zxy: seq<PointData>)
    returns (tree: BurstKdTree)
    requires var live := Survivors(points, time, maxLifetime);
             PicksValid(|live|, picks, Min(|live|, samples))
    requires var live := Survivors(points, time, maxLifetime);
             var data := Sample(live, picks, Min(|live|, samples)).0;
             && SameLength(xyz, yzx, zxy) && |xyz| == |data|
             && multiset(xyz) == multiset(data) && SortedOn(xyz, 0)
             && multiset(yzx) == multiset(data) && SortedOn(yzx, 1)
             && multiset(zxy) == multiset(data) && SortedOn(zxy, 2)
    ensures fresh(tree) && tree.Valid()
    ensures var live := Survivors(points, time, maxLifetime);
            var split := Sample(live, picks, Min(|live|, samples));
            tree.State() == BuildState(BalancedBuild(split.0, xyz, yzx, zxy) + split.1)
    ensures |tree.points| == |Survivors(points, time, maxLifetime)|
  {
    var available := CopyAndFilter(points, maxLifetime, time);
    var data;
    data, available := SampleLoop(available, samples, picks);
    SampleContents(Survivors(points, time, maxLifetime), picks, Min(|Survivors(points, time, maxLifetime)|, samples));
    tree := ConstructBalancedTree(data, xyz, yzx, zxy);
    InsertEach(tree, available, BalancedBuild(data, xyz, yzx, zxy));
  }
}
