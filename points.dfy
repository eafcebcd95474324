/**
 * The point records shared by the trees, the grid and the jobs, and the expiry
 * filter `time - timestamp < maxAge` used by every tree cleanup path.
 */
module Points {
  import opened Geometry

  /** A stored sample: position, colour and the time it was last seen. */
  datatype PointData = PointData(position: Vec3, color: Vec3, timestamp: real)

  /**
   * A pending sample. `isUpdate` and `updateIndex` are filled in by the phase-1
   * filter; the merge-or-insert job ignores them.
   */
  datatype PointInsertData = PointInsertData(
    position: Vec3, color: Vec3, timestamp: real, density: real,
    isUpdate: bool, updateIndex: int)

  function ToPointData(d: PointInsertData): (p: PointData)
    ensures p.position == d.position && p.color == d.color && p.timestamp == d.timestamp
  {
    PointData(d.position, d.color, d.timestamp)
  }

  function Positions(ps: seq<PointData>): (r: seq<Vec3>)
    ensures |r| == |ps|
    ensures forall i :: 0 <= i < |ps| ==> r[i] == ps[i].position
  {
    seq(|ps|, i requires 0 <= i < |ps| => ps[i].position)
  }

  /** Replacing a timestamp leaves every position where it was. */
  lemma PositionsIgnoreTimestamp(ps: seq<PointData>, i: int, t: real)
    requires 0 <= i < |ps|
    ensures Positions(ps[i := ps[i].(timestamp := t)]) == Positions(ps)
  {
  }

  lemma PositionsAppend(ps: seq<PointData>, p: PointData)
    ensures Positions(ps + [p]) == Positions(ps) + [p.position]
  {
  }

  /** The tree jobs keep a point while `time - timestamp < maxAge`. */
  predicate Alive(p: PointData, time: real, maxAge: real) {
    time - p.timestamp < maxAge
  }

  /** The points that survive expiry, in their original order. */
  function Survivors(ps: seq<PointData>, time: real, maxAge: real): seq<PointData>
  {
    if ps == [] then []
    else
      var rest := Survivors(ps[..|ps| - 1], time, maxAge);
      var last := ps[|ps| - 1];
      if Alive(last, time, maxAge) then rest + [last] else rest
  }

  /** Survivors keeps exactly the live points, each as often as it occurs. */
  lemma {:induction false} SurvivorsExact(ps: seq<PointData>, time: real, maxAge: real)
    ensures forall p :: multiset(Survivors(ps, time, maxAge))[p]
                        == if Alive(p, time, maxAge) then multiset(ps)[p] else 0
    ensures forall p :: p in Survivors(ps, time, maxAge) ==> Alive(p, time, maxAge)
    ensures |Survivors(ps, time, maxAge)| <= |ps|
  {
    if ps != [] {
      var init := ps[..|ps| - 1];
      SurvivorsExact(init, time, maxAge);
      assert ps == init + [ps[|ps| - 1]];
      assert multiset(ps) == multiset(init) + multiset{ps[|ps| - 1]};
    }
  }

  /** Survivors keeps the whole list exactly when nothing has expired. */
  lemma {:induction false} SurvivorsAllAlive(ps: seq<PointData>, time: real, maxAge: real)
    ensures |Survivors(ps, time, maxAge)| == |ps|
            <==> forall i :: 0 <= i < |ps| ==> Alive(ps[i], time, maxAge)
    ensures (forall i :: 0 <= i < |ps| ==> Alive(ps[i], time, maxAge))
            ==> Survivors(ps, time, maxAge) == ps
  {
    if ps != [] {
      var init := ps[..|ps| - 1];
      SurvivorsAllAlive(init, time, maxAge);
      SurvivorsExact(init, time, maxAge);
      assert ps == init + [ps[|ps| - 1]];
      if !Alive(ps[|ps| - 1], time, maxAge) {
        assert |Survivors(ps, time, maxAge)| < |ps|;
      }
    }
  }

  /** A point whose age is exactly the limit is removed. */
  lemma ExpiresAtLimit(p: PointData, maxAge: real)
    ensures Survivors([p], p.timestamp + maxAge, maxAge) == []
  {
    assert [p][..0] == [];
  }
}
