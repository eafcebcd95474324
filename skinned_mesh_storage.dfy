/**
 * `SkinnedMeshStorage`: the vertices of a mesh thinned out by a minimum spacing into a
 * kd-tree of at most one texture column, the texture layout built from the tree, and the
 * timestamp stamp that an insert makes on one chosen vertex.
 */
module SkinnedMeshStorage {
  import opened Geometry
  import opened SimpleKdTree

  /** `TEXTURE_2D_MAX_HEIGHT`. */
  const MaxVertices: int := 16384

  /** The `w` written into the attribute column of every vertex. */
  const NeverStamped: real := -999.0

  /** `Color`: four floats. */
  datatype Color = Color(r: real, g: real, b: real, a: real)

  function MinInt(a: int, b: int): int { if a <= b then a else b }

  lemma DistSqSymmetric(a: Vec3, b: Vec3)
    ensures DistSq(a, b) == DistSq(b, a)
  {
    assert Sq(a.x - b.x) == Sq(b.x - a.x);
    assert Sq(a.y - b.y) == Sq(b.y - a.y);
    assert Sq(a.z - b.z) == Sq(b.z - a.z);
  }

  // ---------------------------------------------------------------------------
  // Sampling

  /** `v` is farther than `density` from every stored point. */
  predicate Admits(ps: seq<SimplePointData>, v: Vec3, density: real) {
    forall k :: 0 <= k < |ps| ==> DistGt(ps[k].position, v, density)
  }

  /**
   * The points after `SampleSkinJob` has taken vertices `i..` in order: stop once
   * `cap` points are stored, otherwise add the vertex, tagged with its index, when it is
   * farther than `density` from every point so far.
   */
  function SampleFrom(ps: seq<SimplePointData>, vertices: seq<Vec3>, i: int, cap: int, density: real): seq<SimplePointData>
    requires 0 <= i <= |vertices|
    decreases |vertices| - i
  {
    if i == |vertices| || |ps| >= cap then ps
    else
      var next := if Admits(ps, vertices[i], density) then ps + [SimplePointData(vertices[i], i as real)] else ps;
      SampleFrom(next, vertices, i + 1, cap, density)
  }

  /** The stored points are kept, in front. */
  lemma {:induction false} SampleExtends(ps: seq<SimplePointData>, vertices: seq<Vec3>, i: int, cap: int, density: real)
    requires 0 <= i <= |vertices|
    ensures var r := SampleFrom(ps, vertices, i, cap, density);
            |ps| <= |r| && r[..|ps|] == ps
    decreases |vertices| - i
  {
    if i < |vertices| && |ps| < cap {
      var next := if Admits(ps, vertices[i], density) then ps + [SimplePointData(vertices[i], i as real)] else ps;
      SampleExtends(next, vertices, i + 1, cap, density);
      assert next[..|ps|] == ps;
    }
  }

  /** Sampling never grows the tree past the cap: a tree that starts below it ends within it. */
  lemma {:induction false} SampleBound(ps: seq<SimplePointData>, vertices: seq<Vec3>, i: int, cap: int, density: real)
    requires 0 <= i <= |vertices| && |ps| <= cap
    ensures |SampleFrom(ps, vertices, i, cap, density)| <= cap
    decreases |vertices| - i
  {
    if i < |vertices| && |ps| < cap {
      var next := if Admits(ps, vertices[i], density) then ps + [SimplePointData(vertices[i], i as real)] else ps;
      SampleBound(next, vertices, i + 1, cap, density);
    }
  }

  /** Every two stored points are farther apart than `density`. */
  predicate Spread(ps: seq<SimplePointData>, density: real) {
    forall j, k :: 0 <= j < k < |ps| ==> DistGt(ps[j].position, ps[k].position, density)
  }

  lemma {:induction false} SampleSpread(ps: seq<SimplePointData>, vertices: seq<Vec3>, i: int, cap: int, density: real)
    requires 0 <= i <= |vertices| && Spread(ps, density)
    ensures Spread(SampleFrom(ps, vertices, i, cap, density), density)
    decreases |vertices| - i
  {
    if i < |vertices| && |ps| < cap {
      var p := SimplePointData(vertices[i], i as real);
      if Admits(ps, vertices[i], density) {
        assert Spread(ps + [p], density) by {
          forall j, k | 0 <= j < k < |ps + [p]| ensures DistGt((ps + [p])[j].position, (ps + [p])[k].position, density) {
            if k == |ps| {
              assert (ps + [p])[j] == ps[j];
            } else {
              assert (ps + [p])[j] == ps[j] && (ps + [p])[k] == ps[k];
            }
          }
        }
        SampleSpread(ps + [p], vertices, i + 1, cap, density);
      } else {
        SampleSpread(ps, vertices, i + 1, cap, density);
      }
    }
  }

  /**
   * Each added point is the vertex whose index it carries, taken from `i` on, and the
   * added points come in increasing vertex order.
   */
  lemma {:induction false} SampleOrder(ps: seq<SimplePointData>, vertices: seq<Vec3>, i: int, cap: int, density: real)
    requires 0 <= i <= |vertices|
    ensures var r := SampleFrom(ps, vertices, i, cap, density);
            && (forall k :: |ps| <= k < |r| ==>
                  exists j :: i <= j < |vertices| && r[k] == SimplePointData(vertices[j], j as real))
            && (forall k, k' :: |ps| <= k < k' < |r| ==> r[k].data < r[k'].data)
    decreases |vertices| - i
  {
    if i < |vertices| && |ps| < cap {
      var p := SimplePointData(vertices[i], i as real);
      if Admits(ps, vertices[i], density) {
        assert SampleFrom(ps, vertices, i, cap, density) == SampleFrom(ps + [p], vertices, i + 1, cap, density);
        SampleOrder(ps + [p], vertices, i + 1, cap, density);
        var r := SampleFrom(ps + [p], vertices, i + 1, cap, density);
        SampleExtends(ps + [p], vertices, i + 1, cap, density);
        assert r[|ps|] == (ps + [p])[|ps|];
        forall k, k' | |ps| <= k < k' < |r| ensures r[k].data < r[k'].data {
          if k == |ps| {
            var j :| i + 1 <= j < |vertices| && r[k'] == SimplePointData(vertices[j], j as real);
          }
        }
      } else {
        assert SampleFrom(ps, vertices, i, cap, density) == SampleFrom(ps, vertices, i + 1, cap, density);
        SampleOrder(ps, vertices, i + 1, cap, density);
      }
    }
  }

  /**
   * When sampling ends below the cap, every vertex taken is within `density` of a
   * stored point: it was stored itself or a stored point was near enough.
   */
  lemma {:induction false} SampleCovers(ps: seq<SimplePointData>, vertices: seq<Vec3>, i: int, cap: int, density: real, j: int)
    requires 0 <= i <= j < |vertices| && density >= 0.0
    requires |SampleFrom(ps, vertices, i, cap, density)| < cap
    ensures var r := SampleFrom(ps, vertices, i, cap, density);
            exists k :: 0 <= k < |r| && !DistGt(r[k].position, vertices[j], density)
    decreases |vertices| - i
  {
    var p := SimplePointData(vertices[i], i as real);
    var next := if Admits(ps, vertices[i], density) then ps + [p] else ps;
    SampleExtends(ps, vertices, i, cap, density);
    var r := SampleFrom(ps, vertices, i, cap, density);
    assert |ps| < cap;
    if j == i {
      SampleExtends(next, vertices, i + 1, cap, density);
      if Admits(ps, vertices[i], density) {
        assert r[|ps|] == next[|ps|] == p;
        assert DistSq(p.position, vertices[j]) == 0.0;
      } else {
        var k :| 0 <= k < |ps| && !DistGt(ps[k].position, vertices[i], density);
        assert r[k] == ps[k];
      }
    } else {
      SampleCovers(next, vertices, i + 1, cap, density, j);
    }
  }

  /** The nearest point decides admission: it is far enough exactly when all points are. */
  lemma NearestDecides(ps: seq<SimplePointData>, v: Vec3, density: real, r: int)
    requires 0 <= r < |ps|
    requires forall i :: 0 <= i < |ps| ==> DistSq(v, ps[r].position) <= DistSq(v, ps[i].position)
    ensures DistGt(ps[r].position, v, density) <==> Admits(ps, v, density)
  {
    DistSqSymmetric(ps[r].position, v);
    forall k | 0 <= k < |ps| ensures DistGt(ps[r].position, v, density) ==> DistGt(ps[k].position, v, density) {
      DistSqSymmetric(ps[k].position, v);
    }
  }

  /** `SampleSkinJob.Execute`. */
  method SampleSkinJob(vertices: seq<Vec3>, actualVertexCount: int, density: real, simpleTree: SimpleKdTree)
    requires simpleTree.Valid()
    modifies simpleTree
    ensures simpleTree.Valid()
    ensures simpleTree.points == SampleFrom(old(simpleTree.points), vertices, 0, actualVertexCount, density)
  {
    for i := 0 to |vertices|
      invariant simpleTree.Valid()
      invariant SampleFrom(simpleTree.points, vertices, i, actualVertexCount, density)
             == SampleFrom(old(simpleTree.points), vertices, 0, actualVertexCount, density)
    {
      if |simpleTree.points| >= actualVertexCount {
        break;
      }
      var vertex := vertices[i];
      var found := simpleTree.FindNearest(vertex);
      if found == -1 {
        simpleTree.Insert(SimplePointData(vertex, i as real));
      } else {
        var point := simpleTree.points[found];
        NearestDecides(simpleTree.points, vertex, density, found);
        if DistGt(point.position, vertex, density) {
          simpleTree.Insert(SimplePointData(vertex, i as real));
        }
      }
    }
  }

  // ---------------------------------------------------------------------------
  // Texture layout

  /** `(uint)x` for the non-negative values it is applied to: truncation toward zero. */
  function Truncate(x: real): real {
    if x >= 0.0 then x.Floor as real else -((-x).Floor as real)
  }

  /** Column 0 holds each point's position flag and vertex index, column 1 the stamp, unset. */
  predicate Layout(slots: seq<Color>, ps: seq<SimplePointData>, count: int)
    requires 0 <= count <= |ps| && |slots| == 2 * count
  {
    && (forall i :: 0 <= i < count ==> slots[i] == Color(4.0, 0.0, 0.0, Truncate(ps[i].data)))
    && (forall s :: count <= s < 2 * count ==> slots[s] == Color(0.0, 0.0, 0.0, NeverStamped))
  }

  /** `CreateVertexPositions.Execute`. */
  method CreateVertexPositions(tree: SimpleKdTree, vertexPositions: array<Color>, actualVertexCount: int)
    requires 0 <= actualVertexCount <= |tree.points| && vertexPositions.Length == 2 * actualVertexCount
    modifies vertexPositions
    ensures Layout(vertexPositions[..], tree.points, actualVertexCount)
  {
    for i := 0 to actualVertexCount
      invariant forall k :: 0 <= k < i ==> vertexPositions[k] == Color(4.0, 0.0, 0.0, Truncate(tree.points[k].data))
      invariant forall s :: actualVertexCount <= s < actualVertexCount + i ==>
        vertexPositions[s] == Color(0.0, 0.0, 0.0, NeverStamped)
    {
      var index := Truncate(tree.points[i].data);
      vertexPositions[i] := Color(4.0, 0.0, 0.0, index);
      vertexPositions[i + actualVertexCount] := Color(0.0, 0.0, 0.0, NeverStamped);
    }
  }

  /** A sampled point's index is written exactly: it is a whole non-negative number. */
  lemma SampledIndexExact(vertices: seq<Vec3>, cap: int, density: real, k: int)
    requires 0 <= k < |SampleFrom([], vertices, 0, cap, density)|
    ensures var p := SampleFrom([], vertices, 0, cap, density)[k];
            Truncate(p.data) == p.data && exists j :: 0 <= j < |vertices| && p.data == j as real && p.position == vertices[j]
  {
    SampleOrder([], vertices, 0, cap, density);
    var p := SampleFrom([], vertices, 0, cap, density)[k];
    var j :| 0 <= j < |vertices| && p == SimplePointData(vertices[j], j as real);
    assert (j as real).Floor == j;
  }

  /** The thinned-out mesh and its texture data. */
  class SkinnedMeshStorage {
    var actualVertexCount: int
    var vertexPositions: array<Color>

    ghost predicate Valid()
      reads this
    {
      actualVertexCount >= 0 && vertexPositions.Length == 2 * actualVertexCount
    }

    /**
     * `Awake`: sample at most a texture column of mesh vertices, then lay out the
     * texture for the points kept. The stopwatch and the texture object are not modelled.
     */
    constructor Awake(vertices: seq<Vec3>, density: real)
      ensures Valid() && fresh(vertexPositions)
      ensures var sampled := SampleFrom([], vertices, 0, MinInt(|vertices|, MaxVertices), density);
              && actualVertexCount == |sampled| <= MaxVertices
              && Layout(vertexPositions[..], sampled, actualVertexCount)
    {
      var cap := MinInt(|vertices|, MaxVertices);
      var tree := new SimpleKdTree(|vertices|);
      SampleSkinJob(vertices, cap, density, tree);
      SampleBound([], vertices, 0, cap, density);
      var count := |tree.points|;
      var slots := new Color[2 * count](_ => Color(0.0, 0.0, 0.0, 0.0));
      CreateVertexPositions(tree, slots, count);
      actualVertexCount := count;
      vertexPositions := slots;
    }

    /** `Insert`: stamp the time on vertex `i`, the one picked at random. */
    method Insert(i: int, time: real)
      requires Valid() && 0 <= i < actualVertexCount
      modifies vertexPositions
      ensures Valid()
      ensures vertexPositions[..] == Stamped(old(vertexPositions[..]), actualVertexCount, i, time)
    {
      var p := vertexPositions[i + actualVertexCount];
      p := p.(a := time);
      vertexPositions[i + actualVertexCount] := p;
    }
  }

  /** The slots after stamping vertex `i`: only the alpha of its attribute slot changes. */
  function Stamped(slots: seq<Color>, count: int, i: int, time: real): seq<Color>
    requires 0 <= i < count && |slots| == 2 * count
  {
    slots[i + count := slots[i + count].(a := time)]
  }

  /** A stamp changes one alpha and keeps every position slot and every other slot. */
  lemma StampChangesOneAlpha(slots: seq<Color>, count: int, i: int, time: real, s: int)
    requires 0 <= i < count && |slots| == 2 * count && 0 <= s < |slots|
    ensures var r := Stamped(slots, count, i, time);
            && |r| == |slots|
            && (s != i + count ==> r[s] == slots[s])
            && r[i + count].a == time
            && r[i + count] == Color(slots[i + count].r, slots[i + count].g, slots[i + count].b, time)
  {
  }
}
