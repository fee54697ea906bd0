/**
  Convex polytopes, given by half-spaces with unit normals: membership, the
  exit point of a ray, and the projection of a point by Dykstra's algorithm.
 */
module Polytope {
  import opened Vectors

  /** The points x with normal * x <= offset; a row of A and the entry of b. */
  datatype Halfspace = Halfspace(normal: Vec, offset: real)

  ghost predicate UnitRows(rows: seq<Halfspace>) {
    forall i :: 0 <= i < |rows| ==> Mag2(rows[i].normal) == 1.0
  }

  /** By how much `x` violates the half-space; not positive inside. */
  function Excess(h: Halfspace, x: Vec): real {
    Dot(h.normal, x) - h.offset
  }

  ghost predicate Inside(rows: seq<Halfspace>, x: Vec) {
    Near(rows, x, 0.0)
  }

  ghost predicate Near(rows: seq<Halfspace>, x: Vec, tolerance: real) {
    forall i :: 0 <= i < |rows| ==> Excess(rows[i], x) <= tolerance
  }

  method InPolytope(v: Vec, rows: seq<Halfspace>, tolerance: real) returns (inside: bool)
    ensures inside <==> Near(rows, v, tolerance)
  {
    var i := 0;
    while i < |rows|
      invariant 0 <= i <= |rows|
      invariant forall j :: 0 <= j < i ==> Excess(rows[j], v) <= tolerance
    {
      if Dot(rows[i].normal, v) > rows[i].offset + tolerance {
        assert Excess(rows[i], v) > tolerance;
        return false;
      }
      i := i + 1;
    }
    return true;
  }

  // ---------- Projection onto one half-space ----------

  function ProjectHalfspace(x: Vec, h: Halfspace): Vec {
    var ax := Dot(h.normal, x);
    if ax <= h.offset then x else Add(x, Scale(h.offset - ax, h.normal))
  }

  /** How far the projection moves `x` against the normal. */
  function Push(x: Vec, h: Halfspace): (s: real)
    ensures s >= 0.0
  {
    if Excess(h, x) <= 0.0 then 0.0 else Excess(h, x)
  }

  lemma ProjectionPushes(x: Vec, h: Halfspace)
    requires Mag2(h.normal) == 1.0
    ensures ProjectHalfspace(x, h) == Add(x, Scale(-Push(x, h), h.normal))
    ensures Excess(h, ProjectHalfspace(x, h)) <= 0.0
    ensures Push(x, h) > 0.0 ==> Excess(h, ProjectHalfspace(x, h)) == 0.0
  {
    DotAdd(h.normal, x, Scale(-Push(x, h), h.normal));
    DotScale(h.normal, -Push(x, h), h.normal);
  }

  /** The projection is in the half-space, and every other point of the
      half-space is farther from `x`, by at least its distance from the projection. */
  lemma ProjectionIsClosest(x: Vec, h: Halfspace, y: Vec)
    requires Mag2(h.normal) == 1.0 && Excess(h, y) <= 0.0
    ensures Excess(h, ProjectHalfspace(x, h)) <= 0.0
    ensures Dist2(x, y) >= Dist2(x, ProjectHalfspace(x, h)) + Dist2(ProjectHalfspace(x, h), y)
  {
    var p, s := ProjectHalfspace(x, h), Push(x, h);
    ProjectionPushes(x, h);
    assert Sub(x, y) == Add(Sub(p, y), Scale(s, h.normal));
    assert Sub(x, p) == Scale(s, h.normal);
    PushedApart(h, s, p, y);
  }

  lemma PushedApart(h: Halfspace, s: real, p: Vec, y: Vec)
    requires s >= 0.0 && Excess(h, y) <= 0.0
    requires s > 0.0 ==> Excess(h, p) == 0.0
    ensures Mag2(Add(Sub(p, y), Scale(s, h.normal))) >= Mag2(Sub(p, y)) + Mag2(Scale(s, h.normal))
  {
    hide Dot, Add, Scale, Sub, Mag2;
    var d := Sub(p, y);
    Mag2Add(d, Scale(s, h.normal));
    DotScale(d, s, h.normal);
    DotSymmetric(d, h.normal);
    DotAdd(h.normal, p, y);
    NonNegativeProduct(s, Dot(h.normal, d));
  }

  lemma NonNegativeProduct(s: real, t: real)
    requires s >= 0.0 && (s > 0.0 ==> t >= 0.0)
    ensures s * t >= 0.0
  {
    if s > 0.0 && t > 0.0 {
      PositiveProduct(s, t);
    }
  }

  // ---------- Where a ray leaves the polytope ----------

  datatype Distance = Finite(s: real) | Infinity

  function PointAt(origin: Vec, direction: Vec, t: real): Vec {
    Add(origin, Scale(t, direction))
  }

  /** The ray goes towards the face, so that it crosses it somewhere. */
  predicate Faces(h: Halfspace, direction: Vec) {
    Dot(h.normal, direction) > 0.0
  }

  /** Where along the ray the face is crossed. */
  function Crossing(h: Halfspace, origin: Vec, direction: Vec): real
    requires Faces(h, direction)
  {
    (h.offset - Dot(h.normal, origin)) / Dot(h.normal, direction)
  }

  lemma ExcessAlongRay(h: Halfspace, origin: Vec, direction: Vec, t: real)
    ensures Excess(h, PointAt(origin, direction, t)) == Excess(h, origin) + t * Dot(h.normal, direction)
  {
    DotAdd(h.normal, origin, Scale(t, direction));
    DotScale(h.normal, t, direction);
  }

  /** A face is respected up to its crossing, and met there with equality. */
  lemma CrossingSplitsRay(h: Halfspace, origin: Vec, direction: Vec, t: real)
    requires Faces(h, direction)
    ensures Excess(h, PointAt(origin, direction, t)) <= 0.0 <==> t <= Crossing(h, origin, direction)
    ensures Excess(h, PointAt(origin, direction, t)) == 0.0 <==> t == Crossing(h, origin, direction)
  {
    hide PointAt, Dot;
    var d, s := Dot(h.normal, direction), Crossing(h, origin, direction);
    ExcessAlongRay(h, origin, direction, t);
    assert s * d == -Excess(h, origin);
    assert (t - s) * d == Excess(h, PointAt(origin, direction, t));
    if t > s {
      PositiveProduct(t - s, d);
    } else if t < s {
      PositiveProduct(s - t, d);
      assert (s - t) * d == -((t - s) * d);
    }
  }

  lemma TurnedAwayNeverLeaves(h: Halfspace, origin: Vec, direction: Vec, t: real)
    requires !Faces(h, direction) && t >= 0.0 && Excess(h, origin) <= 0.0
    ensures Excess(h, PointAt(origin, direction, t)) <= 0.0
  {
    hide PointAt, Dot;
    ExcessAlongRay(h, origin, direction, t);
    NonNegativeProduct(t, -Dot(h.normal, direction));
    assert t * -Dot(h.normal, direction) == -(t * Dot(h.normal, direction));
  }

  /** The smallest crossing of the first `n` rows, and the row it belongs to. */
  ghost predicate NearestCrossing(rows: seq<Halfspace>, n: nat, origin: Vec, direction: Vec, s: Distance, row: int)
    requires n <= |rows|
  {
    && (s == Infinity <==> row == -1)
    && (row == -1 ==> forall i :: 0 <= i < n ==> !Faces(rows[i], direction))
    && (row != -1 ==>
          && 0 <= row < n && Faces(rows[row], direction)
          && s == Finite(Crossing(rows[row], origin, direction))
          && forall i :: 0 <= i < n && Faces(rows[i], direction) ==> s.s <= Crossing(rows[i], origin, direction))
  }

  method RayIntersect(origin: Vec, direction: Vec, rows: seq<Halfspace>)
    returns (s: Distance, activeRow: int)
    ensures NearestCrossing(rows, |rows|, origin, direction, s, activeRow)
    ensures activeRow == -1 <==> s == Infinity
    ensures s.Finite? ==> 0 <= activeRow < |rows| && Excess(rows[activeRow], PointAt(origin, direction, s.s)) == 0.0
    ensures Inside(rows, origin) ==>
      && (s.Finite? ==> s.s >= 0.0)
      && forall t :: t >= 0.0 ==>
           (Inside(rows, PointAt(origin, direction, t)) <==> s == Infinity || t <= s.s)
  {
    s, activeRow := Infinity, -1;
    var i := 0;
    while i < |rows|
      invariant 0 <= i <= |rows|
      invariant NearestCrossing(rows, i, origin, direction, s, activeRow)
    {
      var aDir := Dot(rows[i].normal, direction);
      if aDir > 0.0 {
        var candidate := (rows[i].offset - Dot(rows[i].normal, origin)) / aDir;
        assert candidate == Crossing(rows[i], origin, direction);
        if s == Infinity || candidate < s.s {
          s, activeRow := Finite(candidate), i;
        }
      }
      i := i + 1;
    }
    if activeRow != -1 {
      CrossingSplitsRay(rows[activeRow], origin, direction, s.s);
    }
    if Inside(rows, origin) {
      if activeRow != -1 {
        StartsBeforeCrossing(rows[activeRow], origin, direction);
      }
      forall t | t >= 0.0
        ensures Inside(rows, PointAt(origin, direction, t)) <==> s == Infinity || t <= s.s
      {
        RayInside(rows, origin, direction, s, activeRow, t);
      }
    }
  }

  lemma StartsBeforeCrossing(h: Halfspace, origin: Vec, direction: Vec)
    requires Faces(h, direction)
    ensures Excess(h, origin) <= 0.0 <==> Crossing(h, origin, direction) >= 0.0
  {
    CrossingSplitsRay(h, origin, direction, 0.0);
    assert PointAt(origin, direction, 0.0) == origin;
  }

  lemma RayInside(rows: seq<Halfspace>, origin: Vec, direction: Vec, s: Distance, row: int, t: real)
    requires NearestCrossing(rows, |rows|, origin, direction, s, row)
    requires Inside(rows, origin) && t >= 0.0
    ensures Inside(rows, PointAt(origin, direction, t)) <==> s == Infinity || t <= s.s
  {
    hide PointAt, Crossing, Excess, Faces;
    var p := PointAt(origin, direction, t);
    if s == Infinity || t <= s.s {
      forall i | 0 <= i < |rows| ensures Excess(rows[i], p) <= 0.0 {
        if Faces(rows[i], direction) {
          CrossingSplitsRay(rows[i], origin, direction, t);
        } else {
          TurnedAwayNeverLeaves(rows[i], origin, direction, t);
        }
      }
    } else {
      CrossingSplitsRay(rows[row], origin, direction, t);
    }
  }

  /** The returned distance is negative exactly if the ray heads for a face
      that its origin has already crossed. */
  lemma NegativeDistance(rows: seq<Halfspace>, origin: Vec, direction: Vec, s: Distance, row: int)
    requires NearestCrossing(rows, |rows|, origin, direction, s, row)
    ensures s.Finite? && s.s < 0.0 <==>
      exists i :: 0 <= i < |rows| && Faces(rows[i], direction) && Excess(rows[i], origin) > 0.0
  {
    hide PointAt, Crossing, Excess, Faces;
    if s.Finite? && s.s < 0.0 {
      StartsBeforeCrossing(rows[row], origin, direction);
    }
    if i :| 0 <= i < |rows| && Faces(rows[i], direction) && Excess(rows[i], origin) > 0.0 {
      StartsBeforeCrossing(rows[i], origin, direction);
    }
  }

  /** The promise of a negative number for an empty polytope is not kept: this
      polytope has no point, but the ray runs alongside its faces. */
  lemma EmptyPolytopeMayGiveInfinity() returns (rows: seq<Halfspace>, origin: Vec, direction: Vec)
    ensures UnitRows(rows)
    ensures forall x :: !Inside(rows, x)
    ensures forall s, row :: NearestCrossing(rows, |rows|, origin, direction, s, row) ==> s == Infinity
  {
    var left := Halfspace(Vec(1.0, 0.0, 0.0), -1.0);
    var right := Halfspace(Vec(-1.0, 0.0, 0.0), -1.0);
    rows, origin, direction := [left, right], ZERO, Vec(0.0, 1.0, 0.0);
    forall x ensures !Inside(rows, x) {
      assert Excess(rows[0], x) == x.x + 1.0;
      assert Excess(rows[1], x) == -x.x + 1.0;
    }
    assert !Faces(left, direction) && !Faces(right, direction);
  }
}
