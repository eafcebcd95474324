/**
 * `GridHashList<T>`: a uniform grid over space, keyed by the integer cell
 * `floor(pos / worldSize)`, storing values in a multimap from cell to values. The
 * multimap is a sequence of (cell, value) pairs in enumeration order.
 */
module GridHash {
  import opened Geometry
  import opened Wrappers

  datatype Int3 = Int3(x: int, y: int, z: int)

  function Offset(k: Int3, dx: int, dy: int, dz: int): Int3 {
    Int3(k.x + dx, k.y + dy, k.z + dz)
  }

  /** `GetKey(position)`: the cell `floor(position / worldSize)`, componentwise. */
  function KeyOf(p: Vec3, w: real): Int3
    requires w > 0.0
  {
    Int3((p.x / w).Floor, (p.y / w).Floor, (p.z / w).Floor)
  }

  /** `KeyToPosition(key)`: the cell's lowest corner, `key * worldSize`. */
  function KeyToPosition(k: Int3, w: real): Vec3 {
    Vec3(k.x as real * w, k.y as real * w, k.z as real * w)
  }

  lemma FloorCell(x: real, w: real)
    requires w > 0.0
    ensures var f := (x / w).Floor as real; f * w <= x < f * w + w
  {
    CellBounds(x, w, x / w, (x / w).Floor as real);
  }

  lemma CellBounds(x: real, w: real, q: real, f: real)
    requires w > 0.0 && q * w == x && f <= q < f + 1.0
    ensures f * w <= x < f * w + w
  {
    var below, above := q - f, f + 1.0 - q;
    ProductSign(below, w);
    SubTimes(q, f, w);
    assert below * w == x - f * w;
    ProductSign(above, w);
    SubTimes(f + 1.0, q, w);
    AddOneTimes(f, w);
    assert above * w == f * w + w - x;
  }

  lemma SubTimes(a: real, b: real, w: real)
    ensures (a - b) * w == a * w - b * w
  {
  }

  lemma AddOneTimes(f: real, w: real)
    ensures (f + 1.0) * w == f * w + w
  {
  }

  lemma ProductSign(d: real, w: real)
    requires w > 0.0
    ensures d >= 0.0 ==> d * w >= 0.0
    ensures d > 0.0 ==> d * w > 0.0
  {
  }

  /** A position lies in the cell of its key: corner <= position < corner + worldSize. */
  lemma KeyCell(p: Vec3, w: real)
    requires w > 0.0
    ensures var lo := KeyToPosition(KeyOf(p, w), w);
            && lo.x <= p.x < lo.x + w
            && lo.y <= p.y < lo.y + w
            && lo.z <= p.z < lo.z + w
  {
    var lo := KeyToPosition(KeyOf(p, w), w);
    FloorCell(p.x, w);
    assert lo.x == (p.x / w).Floor as real * w;
    FloorCell(p.y, w);
    assert lo.y == (p.y / w).Floor as real * w;
    FloorCell(p.z, w);
    assert lo.z == (p.z / w).Floor as real * w;
  }

  /** The values stored under `key`, in enumeration order. */
  function Bucket<T>(h: seq<(Int3, T)>, key: Int3): (r: seq<T>)
    ensures |r| <= |h|
  {
    if h == [] then []
    else Bucket(h[..|h| - 1], key) + (if h[|h| - 1].0 == key then [h[|h| - 1].1] else [])
  }

  /** The first value under `key` strictly closer than `dist` to `pos`, in enumeration order. */
  function FirstWithin<T>(h: seq<(Int3, T)>, key: Int3, pos: Vec3, dist: real, position: T -> Vec3): Option<T>
  {
    if h == [] then None
    else
      var r := FirstWithin(h[..|h| - 1], key, pos, dist, position);
      var last := h[|h| - 1];
      if r.Some? then r
      else if last.0 == key && DistLt(position(last.1), pos, dist) then Some(last.1)
      else None
  }

  /** `KeyDistanceCheck` finds a value within the distance exactly when its bucket holds one. */
  lemma {:induction false} FirstWithinSpec<T>(h: seq<(Int3, T)>, key: Int3, pos: Vec3, dist: real, position: T -> Vec3)
    ensures var r := FirstWithin(h, key, pos, dist, position);
            && (r.Some? ==> r.value in Bucket(h, key) && DistLt(position(r.value), pos, dist))
            && (r.None? <==> forall v :: v in Bucket(h, key) ==> !DistLt(position(v), pos, dist))
  {
    if h != [] {
      FirstWithinSpec(h[..|h| - 1], key, pos, dist, position);
    }
  }

  /**
   * The cells `ClosestValue` looks in: the query's own cell, then on each axis the lower
   * neighbour when the sphere crosses the cell's lower face, else the upper neighbour
   * when it crosses the upper face. Edge and corner neighbours are never included.
   */
  function CheckedKeys(key: Int3, pos: Vec3, size: real, w: real): (r: seq<Int3>)
    ensures 1 <= |r| <= 4 && r[0] == key
  {
    var lo := KeyToPosition(key, w);
    var hi := Add(lo, Vec3(w, w, w));
    [key]
    + AxisKeys(pos.x - size < lo.x, pos.x + size > hi.x, Offset(key, -1, 0, 0), Offset(key, 1, 0, 0))
    + AxisKeys(pos.y - size < lo.y, pos.y + size > hi.y, Offset(key, 0, -1, 0), Offset(key, 0, 1, 0))
    + AxisKeys(pos.z - size < lo.z, pos.z + size > hi.z, Offset(key, 0, 0, -1), Offset(key, 0, 0, 1))
  }

  /** The neighbour one axis contributes: the lower one when crossing below, else the upper one. */
  function AxisKeys(below: bool, above: bool, lowKey: Int3, highKey: Int3): seq<Int3> {
    if below then [lowKey] else if above then [highKey] else []
  }

  /** Every checked cell other than the own one is a face neighbour of it. */
  lemma CheckedKeysAreFaces(key: Int3, pos: Vec3, size: real, w: real)
    ensures var ks := CheckedKeys(key, pos, size, w);
            forall i :: 1 <= i < |ks| ==> FaceNeighbour(key, ks[i])
  {
  }

  predicate FaceNeighbour(a: Int3, b: Int3) {
    var dx, dy, dz := b.x - a.x, b.y - a.y, b.z - a.z;
    || ((dx == 1 || dx == -1) && dy == 0 && dz == 0)
    || (dx == 0 && (dy == 1 || dy == -1) && dz == 0)
    || (dx == 0 && dy == 0 && (dz == 1 || dz == -1))
  }

  /** The first hit over a list of cells, each searched as by `KeyDistanceCheck`. */
  function FirstAmong<T>(h: seq<(Int3, T)>, keys: seq<Int3>, pos: Vec3, size: real, position: T -> Vec3): Option<T>
  {
    if keys == [] then None
    else
      var r := FirstWithin(h, keys[0], pos, size, position);
      if r.Some? then r else FirstAmong(h, keys[1..], pos, size, position)
  }

  /** What `ClosestValue(key, position, size)` returns. */
  function ClosestSpec<T>(h: seq<(Int3, T)>, key: Int3, pos: Vec3, size: real, w: real, position: T -> Vec3): Option<T>
  {
    FirstAmong(h, CheckedKeys(key, pos, size, w), pos, size, position)
  }

  /** A hit is strictly within `size` of the query and stored in one of the checked cells. */
  lemma {:induction false} FirstAmongSpec<T>(h: seq<(Int3, T)>, keys: seq<Int3>, pos: Vec3, size: real, position: T -> Vec3)
    ensures var r := FirstAmong(h, keys, pos, size, position);
            && (r.Some? ==> DistLt(position(r.value), pos, size)
                            && exists i :: 0 <= i < |keys| && r.value in Bucket(h, keys[i]))
            && (r.None? <==> forall i, v :: 0 <= i < |keys| && v in Bucket(h, keys[i]) ==> !DistLt(position(v), pos, size))
  {
    if keys != [] {
      FirstWithinSpec(h, keys[0], pos, size, position);
      FirstAmongSpec(h, keys[1..], pos, size, position);
      var r := FirstWithin(h, keys[0], pos, size, position);
      var rest := FirstAmong(h, keys[1..], pos, size, position);
      if r.Some? {
        assert r.value in Bucket(h, keys[0]);
      } else if rest.None? {
        forall i, v | 0 <= i < |keys| && v in Bucket(h, keys[i]) ensures !DistLt(position(v), pos, size) {
          if i > 0 {
            assert keys[i] == keys[1..][i - 1];
          }
        }
      } else {
        var j :| 0 <= j < |keys[1..]| && rest.value in Bucket(h, keys[1..][j]);
        assert keys[1..][j] == keys[j + 1];
      }
    }
  }

  function Identity(p: Vec3): Vec3 { p }

  /**
   * The grid misses close values in edge and corner cells: with cells of size 1, a
   * value at (1.05, 1.05, 0.5) is about 0.21 from the query (0.9, 0.9, 0.5), well within
   * 0.3, yet `ClosestValue` reports nothing because cell (1, 1, 0) is never searched.
   */
  lemma DiagonalMiss()
    ensures var v := Vec3(1.05, 1.05, 0.5);
            var q := Vec3(0.9, 0.9, 0.5);
            && DistLt(v, q, 0.3)
            && ClosestSpec([(KeyOf(v, 1.0), v)], KeyOf(q, 1.0), q, 0.3, 1.0, Identity) == None
  {
    var v := Vec3(1.05, 1.05, 0.5);
    var q := Vec3(0.9, 0.9, 0.5);
    DiagonalCells();
    DiagonalChecked();
    DiagonalSearch();
    var h := [(Int3(1, 1, 0), v)];
    assert [(KeyOf(v, 1.0), v)] == h;
    assert ClosestSpec(h, Int3(0, 0, 0), q, 0.3, 1.0, Identity) == None;
    DiagonalClose();
  }

  lemma DiagonalClose()
    ensures DistLt(Vec3(1.05, 1.05, 0.5), Vec3(0.9, 0.9, 0.5), 0.3)
  {
    assert Sq(1.05 - 0.9) == 0.0225 && Sq(0.5 - 0.5) == 0.0;
  }

  lemma DiagonalCells()
    ensures KeyOf(Vec3(1.05, 1.05, 0.5), 1.0) == Int3(1, 1, 0)
    ensures KeyOf(Vec3(0.9, 0.9, 0.5), 1.0) == Int3(0, 0, 0)
  {
  }

  lemma DiagonalChecked()
    ensures CheckedKeys(Int3(0, 0, 0), Vec3(0.9, 0.9, 0.5), 0.3, 1.0) == [Int3(0, 0, 0), Int3(1, 0, 0), Int3(0, 1, 0)]
  {
    var key, pos, size := Int3(0, 0, 0), Vec3(0.9, 0.9, 0.5), 0.3;
    var lo := KeyToPosition(key, 1.0);
    var hi := Add(lo, Vec3(1.0, 1.0, 1.0));
    assert lo == Vec3(0.0, 0.0, 0.0) && hi == Vec3(1.0, 1.0, 1.0);
    var ax := AxisKeys(pos.x - size < lo.x, pos.x + size > hi.x, Offset(key, -1, 0, 0), Offset(key, 1, 0, 0));
    var ay := AxisKeys(pos.y - size < lo.y, pos.y + size > hi.y, Offset(key, 0, -1, 0), Offset(key, 0, 1, 0));
    var az := AxisKeys(pos.z - size < lo.z, pos.z + size > hi.z, Offset(key, 0, 0, -1), Offset(key, 0, 0, 1));
    assert ax == [Int3(1, 0, 0)] && ay == [Int3(0, 1, 0)] && az == [];
    assert CheckedKeys(key, pos, size, 1.0) == [key] + ax + ay + az;
    ThreeCells(key, Int3(1, 0, 0), Int3(0, 1, 0));
  }

  lemma ThreeCells(a: Int3, b: Int3, c: Int3)
    ensures [a] + [b] + [c] + [] == [a, b, c]
  {
  }

  lemma DiagonalSearch()
    ensures FirstAmong([(Int3(1, 1, 0), Vec3(1.05, 1.05, 0.5))], [Int3(0, 0, 0), Int3(1, 0, 0), Int3(0, 1, 0)],
                       Vec3(0.9, 0.9, 0.5), 0.3, Identity) == None
  {
    var h := [(Int3(1, 1, 0), Vec3(1.05, 1.05, 0.5))];
    var ks := [Int3(0, 0, 0), Int3(1, 0, 0), Int3(0, 1, 0)];
    var q := Vec3(0.9, 0.9, 0.5);
    assert h[..0] == [];
    assert FirstWithin(h, ks[0], q, 0.3, Identity) == None;
    assert FirstWithin(h, ks[1], q, 0.3, Identity) == None;
    assert FirstWithin(h, ks[2], q, 0.3, Identity) == None;
    assert ks[2..][1..] == [];
    assert FirstAmong(h, ks[2..], q, 0.3, Identity) == None;
    assert ks[1..][1..] == ks[2..];
    assert FirstAmong(h, ks[1..], q, 0.3, Identity) == None;
  }

  /** The multimap without every (key, value) pair, as `Remove(key, value)` leaves it. */
  function Without<T(==)>(h: seq<(Int3, T)>, key: Int3, value: T): (r: seq<(Int3, T)>)
    ensures |r| <= |h|
  {
    if h == [] then []
    else Without(h[..|h| - 1], key, value) + (if h[|h| - 1] == (key, value) then [] else [h[|h| - 1]])
  }

  /** The values of a bucket other than `value`, in order. */
  function Except<T(==)>(s: seq<T>, value: T): seq<T> {
    if s == [] then [] else Except(s[..|s| - 1], value) + (if s[|s| - 1] == value then [] else [s[|s| - 1]])
  }

  /** Removing touches only the value's own bucket, and there drops exactly the equal values. */
  lemma {:induction false} BucketWithout<T>(h: seq<(Int3, T)>, key: Int3, value: T, k: Int3)
    ensures Bucket(Without(h, key, value), k) == if k == key then Except(Bucket(h, k), value) else Bucket(h, k)
  {
    if h != [] {
      var init := h[..|h| - 1];
      BucketWithout(init, key, value, k);
      var w := Without(init, key, value);
      var last := h[|h| - 1];
      var tail := if last == (key, value) then [] else [last];
      assert Without(h, key, value) == w + tail;
      BucketAppend(w, tail, k);
      assert Bucket(h, k) == Bucket(init, k) + (if last.0 == k then [last.1] else []);
      assert last == (key, value) <==> last.0 == key && last.1 == value;
      if k == key && last.0 == k {
        ExceptSnoc(Bucket(init, k), last.1, value);
      } else if last.0 == k {
        assert tail == [last];
        assert Bucket(w + tail, k) == Bucket(w, k) + [last.1];
      } else {
        assert Bucket(w + tail, k) == Bucket(w, k);
        assert Bucket(h, k) == Bucket(init, k);
      }
    }
  }

  lemma ExceptSnoc<T>(s: seq<T>, x: T, value: T)
    ensures Except(s + [x], value) == Except(s, value) + (if x == value then [] else [x])
  {
    assert (s + [x])[..|s|] == s;
  }

  lemma BucketAppend<T>(h: seq<(Int3, T)>, tail: seq<(Int3, T)>, k: Int3)
    requires |tail| <= 1
    ensures Bucket(h + tail, k) == Bucket(h, k) + (if tail != [] && tail[0].0 == k then [tail[0].1] else [])
  {
    if tail != [] {
      assert (h + tail)[..|h + tail| - 1] == h;
    } else {
      assert h + tail == h;
    }
  }

  class GridHashList<T(==)> {
    const worldSize: real
    /** `IHasPosition.GetPosition()`. */
    const position: T -> Vec3
    var hash: seq<(Int3, T)>

    constructor (worldSize: real, position: T -> Vec3)
      ensures this.worldSize == worldSize && this.position == position && hash == []
    {
      this.worldSize := worldSize;
      this.position := position;
      hash := [];
    }

    function GetKey(p: Vec3): Int3
      requires worldSize > 0.0
    {
      KeyOf(p, worldSize)
    }

    /** `GetValues(key)`: the values under `key`, collected from the enumerator. */
    method GetValues(key: Int3) returns (list: seq<T>)
      ensures list == Bucket(hash, key)
    {
      list := [];
      var i := 0;
      while i < |hash|
        invariant 0 <= i <= |hash|
        invariant list == Bucket(hash[..i], key)
      {
        assert hash[..i + 1][..i] == hash[..i];
        if hash[i].0 == key {
          list := list + [hash[i].1];
        }
        i := i + 1;
      }
      assert hash[..i] == hash;
    }

    /** `KeyDistanceCheck(key, pos, dist)`: the first value under `key` closer than `dist`. */
    method KeyDistanceCheck(key: Int3, pos: Vec3, dist: real) returns (r: Option<T>)
      ensures r == FirstWithin(hash, key, pos, dist, position)
    {
      var i := 0;
      while i < |hash|
        invariant 0 <= i <= |hash|
        invariant FirstWithin(hash[..i], key, pos, dist, position) == None
      {
        assert hash[..i + 1][..i] == hash[..i];
        if hash[i].0 == key && DistLt(position(hash[i].1), pos, dist) {
          FirstWithinPrefix(hash, i, key, pos, dist, position);
          return Some(hash[i].1);
        }
        i := i + 1;
      }
      assert hash[..i] == hash;
      return None;
    }

    /** `ClosestValue(key, position, size)`: the own cell, then at most one face neighbour per axis. */
    method ClosestValue(key: Int3, pos: Vec3, size: real) returns (r: Option<T>)
      ensures r == ClosestSpec(hash, key, pos, size, worldSize, position)
    {
      ghost var ks := CheckedKeys(key, pos, size, worldSize);
      r := KeyDistanceCheck(key, pos, size);
      if r.Some? {
        return;
      }
      var lo := KeyToPosition(key, worldSize);
      var hi := Add(lo, Vec3(worldSize, worldSize, worldSize));
      var xb, xa := pos.x - size < lo.x, pos.x + size > hi.x;
      var yb, ya := pos.y - size < lo.y, pos.y + size > hi.y;
      var zb, za := pos.z - size < lo.z, pos.z + size > hi.z;
      ghost var xs := AxisKeys(xb, xa, Offset(key, -1, 0, 0), Offset(key, 1, 0, 0));
      ghost var ys := AxisKeys(yb, ya, Offset(key, 0, -1, 0), Offset(key, 0, 1, 0));
      ghost var zs := AxisKeys(zb, za, Offset(key, 0, 0, -1), Offset(key, 0, 0, 1));
      assert ks == [key] + xs + ys + zs;
      r := AxisCheck([key], xb, xa, Offset(key, -1, 0, 0), Offset(key, 1, 0, 0), pos, size);
      if r.Some? {
        FirstAmongPrefix(hash, [key] + xs, ys + zs, pos, size, position);
        assert ks == [key] + xs + (ys + zs);
        return;
      }
      r := AxisCheck([key] + xs, yb, ya, Offset(key, 0, -1, 0), Offset(key, 0, 1, 0), pos, size);
      if r.Some? {
        FirstAmongPrefix(hash, [key] + xs + ys, zs, pos, size, position);
        return;
      }
      r := AxisCheck([key] + xs + ys, zb, za, Offset(key, 0, 0, -1), Offset(key, 0, 0, 1), pos, size);
    }

    /** `ClosestValue(position, size)`: the search starting at the position's own cell. */
    method ClosestValueAt(pos: Vec3, size: real) returns (r: Option<T>)
      requires worldSize > 0.0
      ensures r == ClosestSpec(hash, GetKey(pos), pos, size, worldSize, position)
    {
      r := ClosestValue(GetKey(pos), pos, size);
    }

    /** `Insert(value, size)`: adds the value only when nothing lies within `size` of it. */
    method InsertIfFree(value: T, size: real) returns (added: bool)
      requires worldSize > 0.0
      modifies this
      ensures var key := GetKey(position(value));
              && (added <==> ClosestSpec(old(hash), key, position(value), size, worldSize, position) == None)
              && hash == if added then old(hash) + [(key, value)] else old(hash)
    {
      var pos := position(value);
      var key := GetKey(pos);
      var found := ClosestValue(key, pos, size);
      if found.Some? {
        return false;
      }
      hash := hash + [(key, value)];
      return true;
    }

    /** `Insert(value)`: always adds the value under its own cell. */
    method Insert(value: T)
      requires worldSize > 0.0
      modifies this
      ensures hash == old(hash) + [(GetKey(position(value)), value)]
    {
      hash := hash + [(GetKey(position(value)), value)];
    }

    /** `Remove(value)`: drops every copy of the value from its own cell. */
    method Remove(value: T)
      requires worldSize > 0.0
      modifies this
      ensures hash == Without(old(hash), GetKey(position(value)), value)
    {
      hash := Without(hash, GetKey(position(value)), value);
    }

    /** One axis of `ClosestValue`: the lower neighbour, else the upper one, else nothing. */
    method AxisCheck(ghost done: seq<Int3>, below: bool, above: bool, lowKey: Int3, highKey: Int3,
                     pos: Vec3, size: real) returns (r: Option<T>)
      requires FirstAmong(hash, done, pos, size, position) == None
      ensures r == FirstAmong(hash, done + AxisKeys(below, above, lowKey, highKey), pos, size, position)
    {
      if below {
        r := KeyDistanceCheck(lowKey, pos, size);
      } else if above {
        r := KeyDistanceCheck(highKey, pos, size);
      } else {
        r := None;
      }
      FirstAmongAppend(hash, done, AxisKeys(below, above, lowKey, highKey), pos, size, position);
    }
  }

  /** Searching past a prefix of cells that all missed. */
  lemma {:induction false} FirstAmongAppend<T>(h: seq<(Int3, T)>, done: seq<Int3>, rest: seq<Int3>,
                                              pos: Vec3, size: real, position: T -> Vec3)
    requires FirstAmong(h, done, pos, size, position) == None
    ensures FirstAmong(h, done + rest, pos, size, position) == FirstAmong(h, rest, pos, size, position)
  {
    if done != [] {
      assert (done + rest)[1..] == done[1..] + rest;
      FirstAmongAppend(h, done[1..], rest, pos, size, position);
    } else {
      assert done + rest == rest;
    }
  }

  /** A hit among the first cells is the result, whatever follows. */
  lemma {:induction false} FirstAmongPrefix<T>(h: seq<(Int3, T)>, done: seq<Int3>, rest: seq<Int3>,
                                              pos: Vec3, size: real, position: T -> Vec3)
    requires FirstAmong(h, done, pos, size, position).Some?
    ensures FirstAmong(h, done + rest, pos, size, position) == FirstAmong(h, done, pos, size, position)
  {
    assert done != [];
    if FirstWithin(h, done[0], pos, size, position).None? {
      assert (done + rest)[1..] == done[1..] + rest;
      FirstAmongPrefix(h, done[1..], rest, pos, size, position);
    }
  }

  /** The search reaching element `i` finds it when it is the first hit. */
  lemma FirstWithinPrefix<T>(h: seq<(Int3, T)>, i: int, key: Int3, pos: Vec3, dist: real, position: T -> Vec3)
    requires 0 <= i < |h| && FirstWithin(h[..i], key, pos, dist, position) == None
    requires h[i].0 == key && DistLt(position(h[i].1), pos, dist)
    ensures FirstWithin(h, key, pos, dist, position) == Some(h[i].1)
  {
    assert h[..i + 1][..i] == h[..i];
    FirstWithinSticks(h, i + 1, key, pos, dist, position);
  }

  /** Once found in a prefix, later entries do not change the result. */
  lemma {:induction false} FirstWithinSticks<T>(h: seq<(Int3, T)>, n: int, key: Int3, pos: Vec3, dist: real, position: T -> Vec3)
    requires 0 <= n <= |h| && FirstWithin(h[..n], key, pos, dist, position).Some?
    ensures FirstWithin(h, key, pos, dist, position) == FirstWithin(h[..n], key, pos, dist, position)
    decreases |h| - n
  {
    if n < |h| {
      assert h[..n + 1][..n] == h[..n];
      FirstWithinSticks(h, n + 1, key, pos, dist, position);
    } else {
      assert h[..n] == h;
    }
  }
}
