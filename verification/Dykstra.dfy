/**
  Projection of a point onto a polytope by Dykstra's algorithm: a bound on the
  number of sweeps, and how good the point is when the stopping test succeeds.
 */
module Dykstra {
  import opened Vectors
  import opened Polytope

  /** The current point, one correction vector per half-space, and the sum of
      the squared changes of the corrections in the current sweep. */
  datatype State = State(x: Vec, z: seq<Vec>, c: real)

  function Start(rows: seq<Halfspace>, v: Vec): State {
    State(v, seq(|rows|, _ => ZERO), 0.0)
  }

  /** The step of a sweep that deals with row `i`. */
  function Step(rows: seq<Halfspace>, s: State, i: nat): State
    requires i < |rows| == |s.z|
  {
    var x := ProjectHalfspace(Sub(s.x, s.z[i]), rows[i]);
    var zi := Add3(x, Neg(s.x), s.z[i]);
    State(x, s.z[i := zi], s.c + Dist2(s.z[i], zi))
  }

  /** The first `k` steps of a sweep. */
  function Steps(rows: seq<Halfspace>, s: State, k: nat): (r: State)
    requires k <= |rows| == |s.z|
    ensures |r.z| == |rows|
  {
    if k == 0 then s.(c := 0.0) else Step(rows, Steps(rows, s, k - 1), k - 1)
  }

  function Sweep(rows: seq<Halfspace>, s: State): (r: State)
    requires |s.z| == |rows|
    ensures |r.z| == |rows|
  {
    Steps(rows, s, |rows|)
  }

  function Sweeps(rows: seq<Halfspace>, v: Vec, m: nat): (r: State)
    ensures |r.z| == |rows|
  {
    if m == 0 then Start(rows, v) else Sweep(rows, Sweeps(rows, v, m - 1))
  }

  /** The residual that the stopping test of sweep `m` looks at. */
  function Residual(rows: seq<Halfspace>, v: Vec, m: nat): real {
    Sweeps(rows, v, m).c
  }

  function Threshold(n: nat, tolerance: real): real {
    n as real * (tolerance * tolerance) / 10.0
  }

  /** The threshold in numbers. */
  lemma ThresholdIs(n: nat, tolerance: real)
    ensures 10.0 * Threshold(n, tolerance) == n as real * (tolerance * tolerance)
  {
  }

  /** Stops after sweep `m`: the first one to pass the test, or the last one allowed. */
  ghost predicate StopsAfter(rows: seq<Halfspace>, v: Vec, threshold: real, maxiters: nat, m: nat) {
    && m <= maxiters
    && (forall k :: 1 <= k < m ==> Residual(rows, v, k) >= threshold)
    && (m < maxiters ==> m > 0)
    && (m > 0 ==> Residual(rows, v, m) < threshold || m == maxiters)
  }

  method ProjectPolytope(v: Vec, rows: seq<Halfspace>, work: array<Vec>, tolerance: real, maxiters: int)
    returns (x: Vec)
    requires work.Length == |rows|
    modifies work
    ensures Near(rows, v, tolerance) ==> x == v && work[..] == old(work[..])
    ensures !Near(rows, v, tolerance) ==>
      exists m :: StopsAfter(rows, v, Threshold(|rows|, tolerance), if maxiters < 0 then 0 else maxiters, m)
                  && x == Sweeps(rows, v, m).x && work[..] == Sweeps(rows, v, m).z
  {
    hide Near, Steps, Sweeps, Threshold;
    var inside := InPolytope(v, rows, tolerance);
    if inside {
      return v;
    }
    var k := 0;
    while k < work.Length
      invariant 0 <= k <= work.Length
      invariant forall j :: 0 <= j < k ==> work[j] == ZERO
    {
      work[k] := ZERO;
      k := k + 1;
    }
    var threshold := Threshold(|rows|, tolerance);
    ghost var cap := if maxiters < 0 then 0 else maxiters;
    x := v;
    var iter := 0;
    assert work[..] == Start(rows, v).z;
    SweepsStart(rows, v);
    while iter < maxiters
      invariant 0 <= iter <= cap
      invariant x == Sweeps(rows, v, iter).x && work[..] == Sweeps(rows, v, iter).z
      invariant forall k :: 1 <= k <= iter ==> Residual(rows, v, k) >= threshold
      decreases maxiters - iter
    {
      var c;
      x, c := OneSweep(rows, work, x, Sweeps(rows, v, iter));
      SweepsMore(rows, v, iter);
      if c < threshold {
        assert StopsAfter(rows, v, threshold, cap, iter + 1);
        return x;
      }
      iter := iter + 1;
    }
    assert StopsAfter(rows, v, threshold, cap, iter);
  }

  /** One sweep over all rows, with the corrections updated in place. */
  method OneSweep(rows: seq<Halfspace>, work: array<Vec>, start: Vec, ghost before: State) returns (x: Vec, c: real)
    requires work.Length == |rows| == |before.z|
    requires start == before.x && work[..] == before.z
    modifies work
    ensures State(x, work[..], c) == Steps(rows, before, |rows|)
  {
    hide ProjectHalfspace, Sub, Add3, Neg, Dist2, Steps;
    x, c := start, 0.0;
    var i := 0;
    StepsStart(rows, before);
    while i < |rows|
      invariant 0 <= i <= |rows|
      invariant State(x, work[..], c) == Steps(rows, before, i)
    {
      StepsMore(rows, before, i);
      var xOld, ziOld := x, work[i];
      x := ProjectHalfspace(Sub(xOld, ziOld), rows[i]);
      var zi := Add3(x, Neg(xOld), ziOld);
      work[i] := zi;
      c := c + Dist2(ziOld, zi);
      i := i + 1;
    }
  }

  lemma StepsStart(rows: seq<Halfspace>, s: State)
    requires |s.z| == |rows|
    ensures Steps(rows, s, 0) == State(s.x, s.z, 0.0)
  {
  }

  lemma StepsMore(rows: seq<Halfspace>, s: State, k: nat)
    requires k < |rows| == |s.z|
    ensures Steps(rows, s, k + 1) == Step(rows, Steps(rows, s, k), k)
  {
  }

  lemma SweepsStart(rows: seq<Halfspace>, v: Vec)
    ensures Sweeps(rows, v, 0) == Start(rows, v)
  {
  }

  lemma SweepsMore(rows: seq<Halfspace>, v: Vec, m: nat)
    ensures Sweeps(rows, v, m + 1) == Steps(rows, Sweeps(rows, v, m), |rows|)
  {
  }

  // ---------- The multipliers behind the corrections ----------

  /** The multiplier of row `i`: its correction is `-Multiplier * normal`. */
  function Multiplier(h: Halfspace, zi: Vec): real {
    -Dot(h.normal, zi)
  }

  ghost predicate IsMultiple(h: Halfspace, zi: Vec) {
    && Multiplier(h, zi) >= 0.0
    && zi == Scale(-Multiplier(h, zi), h.normal)
  }

  function Sum(z: seq<Vec>): Vec {
    if z == [] then ZERO else Add(Sum(z[..|z| - 1]), z[|z| - 1])
  }

  /** The point is the start plus all corrections, and every correction is a
      non-positive multiple of its row's normal. */
  ghost predicate DualFeasible(rows: seq<Halfspace>, v: Vec, s: State) {
    && |s.z| == |rows|
    && s.x == Add(v, Sum(s.z))
    && forall i :: 0 <= i < |rows| ==> IsMultiple(rows[i], s.z[i])
  }

  /** One step on one row, in terms of the multiplier before it. */
  lemma StepOnRow(h: Halfspace, x: Vec, zi: Vec)
    requires Mag2(h.normal) == 1.0 && IsMultiple(h, zi)
    ensures var l := Multiplier(h, zi);
            var x' := ProjectHalfspace(Sub(x, zi), h);
            var zi' := Add3(x', Neg(x), zi);
            var l' := Multiplier(h, zi');
            && l' == Push(Sub(x, zi), h)
            && IsMultiple(h, zi')
            && x' == Add(x, Scale(l - l', h.normal))
            && x' == Add(x, Sub(zi', zi))
            && Dist2(zi, zi') == (l - l') * (l - l')
            && Excess(h, x') <= 0.0
            && (l' > 0.0 ==> Excess(h, x') == 0.0)
            && (l' == 0.0 ==> Excess(h, x) + l <= 0.0)
            && Excess(h, x') == Excess(h, x) + (l - l')
  {
    hide Add, Sub, Scale, Dot, ProjectHalfspace, Dist2, Add3, Neg, Push;
    var a, l := h.normal, Multiplier(h, zi);
    var p := Push(Sub(x, zi), h);
    StepVectors(a, x, l, p);
    ProjectionPushes(Sub(x, zi), h);
    DotAdd(a, x, Scale(l, a));
    DotScale(a, l, a);
    DotScale(a, -p, a);
    DotAdd(a, x, Scale(l - p, a));
    DotScale(a, l - p, a);
    SquaredStep(a, l, p);
    PushIsExcess(Sub(x, zi), h);
  }

  lemma PushIsExcess(x: Vec, h: Halfspace)
    ensures Push(x, h) == 0.0 <==> Excess(h, x) <= 0.0
  {
  }

  lemma StepVectors(a: Vec, x: Vec, l: real, p: real)
    ensures var zi := Scale(-l, a);
            var w := Sub(x, zi);
            var x' := Add(w, Scale(-p, a));
            var zi' := Add3(x', Neg(x), zi);
            && w == Add(x, Scale(l, a))
            && zi' == Scale(-p, a)
            && x' == Add(x, Scale(l - p, a))
            && x' == Add(x, Sub(zi', zi))
  {
  }

  lemma SquaredStep(a: Vec, l: real, p: real)
    requires Mag2(a) == 1.0
    ensures Dist2(Scale(-l, a), Scale(-p, a)) == (l - p) * (l - p)
  {
    assert Sub(Scale(-l, a), Scale(-p, a)) == Scale(p - l, a);
    Mag2Scale(p - l, a);
    assert (p - l) * (p - l) == (l - p) * (l - p);
  }

  lemma SumUpdate(z: seq<Vec>, i: nat, zi: Vec)
    requires i < |z|
    ensures Sum(z[i := zi]) == Add(Sum(z), Sub(zi, z[i]))
  {
    var n := |z| - 1;
    if i == n {
      assert z[i := zi][..n] == z[..n];
    } else {
      SumUpdate(z[..n], i, zi);
      assert z[i := zi][..n] == z[..n][i := zi];
    }
  }

  lemma StepKeepsDual(rows: seq<Halfspace>, v: Vec, s: State, i: nat)
    requires UnitRows(rows) && i < |rows| && DualFeasible(rows, v, s)
    ensures DualFeasible(rows, v, Step(rows, s, i))
  {
    hide Add, Sub, Scale, Dot, ProjectHalfspace, Dist2, Add3, Neg, IsMultiple, Sum, Mag2, Multiplier;
    var t := Step(rows, s, i);
    StepOnRow(rows[i], s.x, s.z[i]);
    SumUpdate(s.z, i, t.z[i]);
    AddAssociative(v, Sum(s.z), Sub(t.z[i], s.z[i]));
  }

  lemma AddAssociative(a: Vec, b: Vec, c: Vec)
    ensures Add(Add(a, b), c) == Add(a, Add(b, c))
  {
  }

  lemma {:induction false} StepsKeepDual(rows: seq<Halfspace>, v: Vec, s: State, k: nat)
    requires UnitRows(rows) && k <= |rows| && DualFeasible(rows, v, s)
    ensures DualFeasible(rows, v, Steps(rows, s, k))
  {
    if k == 0 {
      StepsStart(rows, s);
    } else {
      hide IsMultiple, Sum, Step, Multiplier, Add, UnitRows;
      StepsKeepDual(rows, v, s, k - 1);
      StepsMore(rows, s, k - 1);
      StepKeepsDual(rows, v, Steps(rows, s, k - 1), k - 1);
    }
  }

  lemma {:induction false} SumOfZeros(n: nat)
    ensures Sum(seq(n, _ => ZERO)) == ZERO
  {
    if n > 0 {
      SumOfZeros(n - 1);
      assert seq(n, _ => ZERO)[..n - 1] == seq(n - 1, _ => ZERO);
    }
  }

  /** At every moment of every run the point is `v` plus the corrections, and
      the corrections are non-positive multiples of the normals. */
  lemma {:induction false} AlwaysDualFeasible(rows: seq<Halfspace>, v: Vec, m: nat)
    requires UnitRows(rows)
    ensures DualFeasible(rows, v, Sweeps(rows, v, m))
  {
    if m == 0 {
      SumOfZeros(|rows|);
      forall i | 0 <= i < |rows| ensures IsMultiple(rows[i], ZERO) {
        DotZero(rows[i].normal);
      }
    } else {
      AlwaysDualFeasible(rows, v, m - 1);
      StepsKeepDual(rows, v, Sweeps(rows, v, m - 1), |rows|);
    }
  }

  lemma DotZero(a: Vec)
    ensures Dot(a, ZERO) == 0.0 && Scale(0.0, a) == ZERO
  {
  }

  // ---------- Energy: what every step uses up ----------

  /** The multipliers, each weighted with how far `y` stays inside its half-space. */
  function Slack(rows: seq<Halfspace>, z: seq<Vec>, y: Vec): real
    requires |z| == |rows|
  {
    if z == [] then 0.0
    else
      var n := |z| - 1;
      Slack(rows[..n], z[..n], y) - Multiplier(rows[n], z[n]) * Excess(rows[n], y)
  }

  function Energy(rows: seq<Halfspace>, s: State, y: Vec): real
    requires |s.z| == |rows|
  {
    Dist2(s.x, y) + 2.0 * Slack(rows, s.z, y)
  }

  lemma {:induction false} SlackUpdate(rows: seq<Halfspace>, z: seq<Vec>, i: nat, zi: Vec, y: Vec)
    requires i < |z| == |rows|
    ensures Slack(rows, z[i := zi], y)
         == Slack(rows, z, y) + (Multiplier(rows[i], z[i]) - Multiplier(rows[i], zi)) * Excess(rows[i], y)
    decreases |z|
  {
    hide Multiplier, Excess;
    var n := |z| - 1;
    if i == n {
      assert z[i := zi][..n] == z[..n];
      Distribute(Multiplier(rows[i], z[i]), Multiplier(rows[i], zi), Excess(rows[i], y));
    } else {
      SlackUpdate(rows[..n], z[..n], i, zi, y);
      assert z[i := zi][..n] == z[..n][i := zi];
    }
  }

  lemma Distribute(a: real, b: real, c: real)
    ensures (a - b) * c == a * c - b * c
  {
  }

  lemma {:induction false} SlackNonNegative(rows: seq<Halfspace>, z: seq<Vec>, y: Vec)
    requires |z| == |rows| && Inside(rows, y)
    requires forall i :: 0 <= i < |rows| ==> IsMultiple(rows[i], z[i])
    ensures Slack(rows, z, y) >= 0.0
    decreases |z|
  {
    hide Excess, Multiplier;
    if z != [] {
      var n := |z| - 1;
      SlackNonNegative(rows[..n], z[..n], y);
      var l, e := Multiplier(rows[n], z[n]), Excess(rows[n], y);
      NonNegativeProduct(l, -e);
      assert l * -e == -(l * e);
    }
  }

  /** Moving along a unit normal: the change of the squared distance. */
  lemma MovedDistance(a: Vec, x: Vec, d: real, y: Vec)
    requires Mag2(a) == 1.0
    ensures Dist2(Add(x, Scale(d, a)), y) == Dist2(x, y) + 2.0 * (d * (Dot(a, x) - Dot(a, y))) + d * d
  {
    hide Dot, Scale, Mag2;
    assert Sub(Add(x, Scale(d, a)), y) == Add(Sub(x, y), Scale(d, a));
    MovedDifference(a, Sub(x, y), d);
    DotAdd(a, x, y);
  }

  lemma MovedDifference(a: Vec, w: Vec, d: real)
    requires Mag2(a) == 1.0
    ensures Mag2(Add(w, Scale(d, a))) == Mag2(w) + 2.0 * (d * Dot(a, w)) + d * d
  {
    hide Dot, Add, Scale, Mag2;
    Mag2Add(w, Scale(d, a));
    DotScale(w, d, a);
    DotSymmetric(w, a);
    Mag2Scale(d, a);
  }

  /** A step lowers the energy by at least the squared change of its correction. */
  lemma StepLowersEnergy(rows: seq<Halfspace>, s: State, i: nat, y: Vec)
    requires UnitRows(rows) && i < |rows| == |s.z| && IsMultiple(rows[i], s.z[i])
    ensures Energy(rows, Step(rows, s, i), y) + Step(rows, s, i).c <= Energy(rows, s, y) + s.c
  {
    hide Add, Sub, Scale, Dot, ProjectHalfspace, Dist2, Add3, Neg, Mag2, Slack, Push, Multiplier;
    var h, t := rows[i], Step(rows, s, i);
    StepOnRow(h, s.x, s.z[i]);
    var l, l' := Multiplier(h, s.z[i]), Multiplier(h, t.z[i]);
    MovedDistance(h.normal, s.x, l - l', y);
    SlackUpdate(rows, s.z, i, t.z[i], y);
    EnergyArithmetic(l, l', Excess(h, s.x), Excess(h, t.x), Excess(h, y));
  }

  lemma EnergyArithmetic(l: real, l': real, e: real, e': real, f: real)
    requires l >= 0.0 && l' >= 0.0
    requires e' == e + (l - l') && e' <= 0.0 && (l' > 0.0 ==> e' == 0.0)
    ensures 2.0 * ((l - l') * (e - f)) + (l - l') * (l - l') + 2.0 * ((l - l') * f) + (l - l') * (l - l') <= 0.0
  {
    var d := l - l';
    assert 2.0 * (d * (e - f)) + d * d + 2.0 * (d * f) + d * d == 2.0 * (d * e');
    if l' == 0.0 {
      NonNegativeProduct(d, -e');
      assert d * -e' == -(d * e');
    } else {
      assert d * e' == 0.0;
    }
  }

  lemma {:induction false} StepsLowerEnergy(rows: seq<Halfspace>, v: Vec, s: State, k: nat, y: Vec)
    requires UnitRows(rows) && k <= |rows| && DualFeasible(rows, v, s)
    ensures Energy(rows, Steps(rows, s, k), y) + Steps(rows, s, k).c <= Energy(rows, s, y)
  {
    hide Step, Slack, Dist2, IsMultiple, Sum, Add;
    if k == 0 {
      StepsStart(rows, s);
    } else {
      StepsLowerEnergy(rows, v, s, k - 1, y);
      StepsKeepDual(rows, v, s, k - 1);
      StepLowersEnergy(rows, Steps(rows, s, k - 1), k - 1, y);
    }
  }

  lemma {:induction false} SlackOfZeros(rows: seq<Halfspace>, z: seq<Vec>, y: Vec)
    requires |z| == |rows| && forall i :: 0 <= i < |z| ==> z[i] == ZERO
    ensures Slack(rows, z, y) == 0.0
    decreases |z|
  {
    if z != [] {
      var n := |z| - 1;
      SlackOfZeros(rows[..n], z[..n], y);
      DotZero(rows[n].normal);
      assert Multiplier(rows[n], z[n]) * Excess(rows[n], y) == 0.0;
    }
  }

  /** The sum of the residuals of sweeps 1 to `m`. */
  function TotalResidual(rows: seq<Halfspace>, v: Vec, m: nat): real {
    if m == 0 then 0.0 else TotalResidual(rows, v, m - 1) + Residual(rows, v, m)
  }

  lemma {:induction false} EnergyUsedUp(rows: seq<Halfspace>, v: Vec, m: nat, y: Vec)
    requires UnitRows(rows)
    ensures Energy(rows, Sweeps(rows, v, m), y) + TotalResidual(rows, v, m) <= Dist2(v, y)
  {
    hide Steps, Slack, Dist2, DualFeasible;
    if m == 0 {
      SlackOfZeros(rows, Start(rows, v).z, y);
    } else {
      EnergyUsedUp(rows, v, m - 1, y);
      AlwaysDualFeasible(rows, v, m - 1);
      SweepsMore(rows, v, m - 1);
      StepsLowerEnergy(rows, v, Sweeps(rows, v, m - 1), |rows|, y);
    }
  }

  /** All residuals together never exceed the squared distance from the start
      to any point of the polytope. */
  lemma ResidualsAreBounded(rows: seq<Halfspace>, v: Vec, m: nat, y: Vec)
    requires UnitRows(rows) && Inside(rows, y)
    ensures TotalResidual(rows, v, m) <= Dist2(v, y)
  {
    var s := Sweeps(rows, v, m);
    EnergyUsedUp(rows, v, m, y);
    AlwaysDualFeasible(rows, v, m);
    SlackNonNegative(rows, s.z, y);
    Mag2NonNegative(Sub(s.x, y));
  }

  lemma {:induction false} ManyLargeResiduals(rows: seq<Halfspace>, v: Vec, m: nat, threshold: real)
    requires forall k :: 1 <= k <= m ==> Residual(rows, v, k) >= threshold
    ensures TotalResidual(rows, v, m) >= m as real * threshold
  {
    hide Residual;
    if m > 0 {
      ManyLargeResiduals(rows, v, m - 1, threshold);
      OneMoreTerm(m - 1, threshold);
    }
  }

  lemma OneMoreTerm(m: nat, t: real)
    ensures (m + 1) as real * t == m as real * t + t
  {
  }

  /** With enough sweeps allowed for the distance to be covered, the algorithm
      leaves through the stopping test, never through the cap. */
  lemma StopsByResidual(rows: seq<Halfspace>, v: Vec, threshold: real, maxiters: nat, m: nat, y: Vec)
    requires UnitRows(rows) && Inside(rows, y)
    requires StopsAfter(rows, v, threshold, maxiters, m)
    requires maxiters as real * threshold > Dist2(v, y)
    ensures m > 0 && Residual(rows, v, m) < threshold
  {
    hide Residual, Dist2, Inside, UnitRows;
    if m == 0 || Residual(rows, v, m) >= threshold {
      assert m == maxiters;
      assert TotalResidual(rows, v, maxiters) >= maxiters as real * threshold by {
        ManyLargeResiduals(rows, v, maxiters, threshold);
      }
      assert TotalResidual(rows, v, maxiters) <= Dist2(v, y) by {
        ResidualsAreBounded(rows, v, maxiters, y);
      }
    }
  }

  // ---------- How good the point is when the residual is small ----------

  /** `|d + u|^2` for a path of `m` earlier steps with total squared length `q`. */
  lemma PathExtended(d: Vec, u: Vec, m: nat, q: real)
    requires Mag2(d) <= m as real * q && q >= 0.0
    requires m == 0 ==> d == ZERO
    ensures Mag2(Add(d, u)) <= (m + 1) as real * (q + Mag2(u))
  {
    hide Dot, Add, Scale, Mag2;
    var k := m as real;
    Mag2Add(d, u);
    Mag2NonNegative(u);
    if m == 0 {
      ZeroIsNothing(u);
    } else {
      var w := Add(d, Scale(-k, u));
      Mag2Add(d, Scale(-k, u));
      DotScale(d, -k, u);
      Mag2Scale(-k, u);
      Mag2NonNegative(w);
      PathArithmetic(k, Mag2(d), Dot(d, u), Mag2(u), q);
    }
  }

  lemma ZeroIsNothing(u: Vec)
    ensures Dot(ZERO, u) == 0.0 && Mag2(ZERO) == 0.0
  {
  }

  lemma PathArithmetic(k: real, dd: real, du: real, uu: real, q: real)
    requires k >= 1.0 && dd <= k * q
    requires dd + 2.0 * (-k * du) + (-k) * (-k) * uu >= 0.0
    ensures dd + 2.0 * du + uu <= (k + 1.0) * (q + uu)
  {
    assert k * (2.0 * du) <= k * (q + k * uu);
    CancelFactor(k, 2.0 * du, q + k * uu);
  }

  lemma CancelFactor(k: real, s: real, t: real)
    requires k > 0.0 && k * s <= k * t
    ensures s <= t
  {
    if s > t {
      PositiveProduct(k, s - t);
    }
  }

  /** Within a sweep, the point moves no farther than the residual allows. */
  lemma {:induction false} Drift(rows: seq<Halfspace>, v: Vec, s: State, i: nat, k: nat)
    requires UnitRows(rows) && i <= k <= |rows| && DualFeasible(rows, v, s)
    ensures Steps(rows, s, i).c <= Steps(rows, s, k).c
    ensures Mag2(Sub(Steps(rows, s, k).x, Steps(rows, s, i).x))
         <= (k - i) as real * (Steps(rows, s, k).c - Steps(rows, s, i).c)
    decreases k
  {
    hide Steps, Step, IsMultiple, Sum, Mag2, Add, Sub;
    var from := Steps(rows, s, i);
    if k == i {
      NoDrift(from.x);
    } else {
      var a := Steps(rows, s, k - 1);
      Drift(rows, v, s, i, k - 1);
      StepsKeepDual(rows, v, s, k - 1);
      StepsMore(rows, s, k - 1);
      var u := StepMoves(rows, v, a, k - 1);
      if k - 1 == i {
        NoDrift(from.x);
      }
      PathExtended(Sub(a.x, from.x), u, k - 1 - i, a.c - from.c);
      AddThenSub(a.x, u, from.x);
    }
  }

  lemma NoDrift(x: Vec)
    ensures Sub(x, x) == ZERO && Mag2(Sub(x, x)) == 0.0
  {
  }

  lemma AddThenSub(x: Vec, u: Vec, y: Vec)
    ensures Sub(Add(x, u), y) == Add(Sub(x, y), u)
  {
  }

  lemma StepMoves(rows: seq<Halfspace>, v: Vec, s: State, i: nat) returns (u: Vec)
    requires UnitRows(rows) && i < |rows| && DualFeasible(rows, v, s)
    ensures Step(rows, s, i).x == Add(s.x, u)
    ensures Step(rows, s, i).c == s.c + Mag2(u) && Mag2(u) >= 0.0
  {
    hide Add, Sub, Scale, Dot, ProjectHalfspace, Add3, Neg, Mag2, Multiplier, Push;
    var t := Step(rows, s, i);
    u := Sub(t.z[i], s.z[i]);
    StepOnRow(rows[i], s.x, s.z[i]);
    SameDistance(t.z[i], s.z[i]);
    Mag2NonNegative(u);
  }

  lemma SameDistance(a: Vec, b: Vec)
    ensures Dist2(b, a) == Mag2(Sub(a, b))
  {
  }

  /** A row's correction is settled in its own step of the sweep. */
  lemma {:induction false} CorrectionSettled(rows: seq<Halfspace>, s: State, i: nat, k: nat)
    requires i < k <= |rows| == |s.z|
    ensures Steps(rows, s, k).z[i] == Steps(rows, s, i + 1).z[i]
    decreases k
  {
    if i + 1 < k {
      CorrectionSettled(rows, s, i, k - 1);
    }
  }

  lemma RootBound(t: real, r: real)
    requires r >= 0.0 && t * t <= r * r
    ensures -r <= t <= r
  {
    assert (t - r) * (t + r) == t * t - r * r;
    assert (-t - r) * (-t + r) == t * t - r * r;
    if t > r {
      PositiveProduct(t - r, t + r);
    } else if t < -r {
      PositiveProduct(-t - r, -t + r);
    }
  }

  /** After a sweep with residual `c`, every row is respected, and every row in
      use is met, up to any `r` with `(n - 1) * c <= r^2`. */
  lemma RowAfterSweep(rows: seq<Halfspace>, v: Vec, s: State, r: real, i: nat)
    requires UnitRows(rows) && i < |rows| && DualFeasible(rows, v, s)
    requires r >= 0.0 && (|rows| - 1) as real * Sweep(rows, s).c <= r * r
    ensures Excess(rows[i], Sweep(rows, s).x) <= r
    ensures Multiplier(rows[i], Sweep(rows, s).z[i]) > 0.0 ==> Excess(rows[i], Sweep(rows, s).x) >= -r
  {
    hide Steps, Step, Mag2, Add, Sub, Dot, Dist2, Add3, Neg, ProjectHalfspace, Scale, Multiplier, Push;
    var n, a := |rows|, rows[i].normal;
    var settled, end := Steps(rows, s, i + 1), Steps(rows, s, n);
    StepsKeepDual(rows, v, s, i);
    StepsMore(rows, s, i);
    StepOnRow(rows[i], Steps(rows, s, i).x, Steps(rows, s, i).z[i]);
    UpdatedCorrection(rows, Steps(rows, s, i), i);
    CorrectionSettled(rows, s, i, n);
    Drift(rows, v, s, i + 1, n);
    Drift(rows, v, s, 0, i + 1);
    StepsStart(rows, s);
    var d := Sub(end.x, settled.x);
    UnitDotBound(a, d);
    DotAdd(a, end.x, settled.x);
    LargerProduct((n - i - 1) as real, (n - 1) as real, end.c - settled.c, end.c);
    RootBound(Dot(a, d), r);
  }

  lemma UpdatedCorrection(rows: seq<Halfspace>, s: State, i: nat)
    requires i < |rows| == |s.z|
    ensures Step(rows, s, i).z[i] == Add3(Step(rows, s, i).x, Neg(s.x), s.z[i])
    ensures Step(rows, s, i).x == ProjectHalfspace(Sub(s.x, s.z[i]), rows[i])
  {
  }

  lemma LargerProduct(k: real, n: real, c: real, d: real)
    requires 0.0 <= k <= n && 0.0 <= c <= d
    ensures k * c <= n * d
  {
    NonNegativeProduct(n - k, c);
    NonNegativeProduct(n, d - c);
    assert n * d - k * c == (n - k) * c + n * (d - c);
  }

  /** What the corrections say about a difference of two points. */
  lemma {:induction false} SumAgainst(rows: seq<Halfspace>, z: seq<Vec>, x: Vec, y: Vec)
    requires |z| == |rows| && forall i :: 0 <= i < |rows| ==> IsMultiple(rows[i], z[i])
    ensures Dot(Sum(z), Sub(x, y)) == Slack(rows, z, x) - Slack(rows, z, y)
    decreases |z|
  {
    hide Dot, Sub, Add, Multiplier, Excess, Scale;
    var w := Sub(x, y);
    if z == [] {
      ZeroIsNothing(w);
    } else {
      var n := |z| - 1;
      SumAgainst(rows[..n], z[..n], x, y);
      DotSymmetric(w, Sum(z));
      DotAdd(w, Sum(z[..n]), z[n]);
      DotSymmetric(w, Sum(z[..n]));
      MultipleAgainst(rows[n], z[n], x, y);
    }
  }

  lemma MultipleAgainst(h: Halfspace, zi: Vec, x: Vec, y: Vec)
    requires IsMultiple(h, zi)
    ensures Dot(Sub(x, y), zi) == -(Multiplier(h, zi) * Excess(h, x)) + Multiplier(h, zi) * Excess(h, y)
  {
    hide Dot, Sub, Scale;
    var l, w := Multiplier(h, zi), Sub(x, y);
    DotScale(w, -l, h.normal);
    DotSymmetric(w, h.normal);
    DotAdd(h.normal, x, y);
    Distribute(Excess(h, x), Excess(h, y), l);
  }

  /** The sum of all multipliers. */
  function TotalMultiplier(rows: seq<Halfspace>, z: seq<Vec>): real
    requires |z| == |rows|
  {
    if z == [] then 0.0
    else
      var n := |z| - 1;
      TotalMultiplier(rows[..n], z[..n]) + Multiplier(rows[n], z[n])
  }

  lemma {:induction false} SlackAtMost(rows: seq<Halfspace>, z: seq<Vec>, x: Vec, r: real)
    requires |z| == |rows| && r >= 0.0
    requires forall i :: 0 <= i < |rows| ==> Multiplier(rows[i], z[i]) >= 0.0
    requires forall i :: 0 <= i < |rows| && Multiplier(rows[i], z[i]) > 0.0 ==> Excess(rows[i], x) >= -r
    ensures Slack(rows, z, x) <= r * TotalMultiplier(rows, z)
    decreases |z|
  {
    hide Multiplier, Excess;
    if z == [] {
      assert r * 0.0 == 0.0;
    } else {
      var n := |z| - 1;
      SlackAtMost(rows[..n], z[..n], x, r);
      var l, e, t := Multiplier(rows[n], z[n]), Excess(rows[n], x), TotalMultiplier(rows[..n], z[..n]);
      NonNegativeProduct(l, e + r);
      assert l * (e + r) == l * e + r * l;
      assert r * (t + l) == r * t + r * l;
    }
  }

  /** The geometry behind the algorithm: an identity, for every point `y`. */
  lemma DistanceIdentity(rows: seq<Halfspace>, v: Vec, s: State, y: Vec)
    requires DualFeasible(rows, v, s)
    ensures Dist2(v, y)
         == Dist2(v, s.x) + Dist2(s.x, y) + 2.0 * Slack(rows, s.z, y) - 2.0 * Slack(rows, s.z, s.x)
  {
    hide IsMultiple, Sum, Slack;
    var z := Sum(s.z);
    SumAgainst(rows, s.z, s.x, y);
    DistanceOfThree(v, z, y);
  }

  lemma DistanceOfThree(v: Vec, z: Vec, y: Vec)
    ensures var x := Add(v, z);
            Dist2(v, y) == Dist2(v, x) + Dist2(x, y) - 2.0 * Dot(z, Sub(x, y))
  {
    var x := Add(v, z);
    var w := Sub(x, y);
    assert Sub(v, y) == Add(w, Scale(-1.0, z));
    assert Sub(v, x) == Scale(-1.0, z);
    Mag2Add(w, Scale(-1.0, z));
    DotScale(w, -1.0, z);
    DotSymmetric(w, z);
  }

  /** After any sweep: the point violates no half-space by more than `r`, and no
      point of the polytope is closer to `v` than it, but for a term in `r`. */
  lemma NearlyOptimal(rows: seq<Halfspace>, v: Vec, m: nat, r: real, y: Vec)
    requires UnitRows(rows) && m > 0 && Inside(rows, y)
    requires r >= 0.0 && (|rows| - 1) as real * Residual(rows, v, m) <= r * r
    ensures var s := Sweeps(rows, v, m);
            && Near(rows, s.x, r)
            && Dist2(v, s.x) + Dist2(s.x, y) <= Dist2(v, y) + 2.0 * (r * TotalMultiplier(rows, s.z))
  {
    hide Steps, Slack, TotalMultiplier, Excess, Multiplier, Dist2, Sweeps, Residual, Near, Sum, IsMultiple;
    var s := Sweeps(rows, v, m);
    AlwaysDualFeasible(rows, v, m);
    RowsAfterSweep(rows, v, m, r);
    DistanceIdentity(rows, v, s, y);
    SlackNonNegative(rows, s.z, y);
    MultipliersNonNegative(rows, v, s);
    SlackAtMost(rows, s.z, s.x, r);
  }

  lemma MultipliersNonNegative(rows: seq<Halfspace>, v: Vec, s: State)
    requires DualFeasible(rows, v, s)
    ensures forall i :: 0 <= i < |rows| ==> Multiplier(rows[i], s.z[i]) >= 0.0
  {
    hide Multiplier, Sum, Add;
    forall i | 0 <= i < |rows| ensures Multiplier(rows[i], s.z[i]) >= 0.0 {
      assert IsMultiple(rows[i], s.z[i]);
    }
  }

  lemma RowsAfterSweep(rows: seq<Halfspace>, v: Vec, m: nat, r: real)
    requires UnitRows(rows) && m > 0
    requires r >= 0.0 && (|rows| - 1) as real * Residual(rows, v, m) <= r * r
    ensures Near(rows, Sweeps(rows, v, m).x, r)
    ensures var s := Sweeps(rows, v, m);
            forall i :: 0 <= i < |rows| && Multiplier(rows[i], s.z[i]) > 0.0 ==> Excess(rows[i], s.x) >= -r
  {
    hide Steps, Excess, Multiplier, DualFeasible, UnitRows;
    AlwaysDualFeasible(rows, v, m - 1);
    forall i | 0 <= i < |rows|
      ensures Excess(rows[i], Sweeps(rows, v, m).x) <= r
      ensures Multiplier(rows[i], Sweeps(rows, v, m).z[i]) > 0.0 ==> Excess(rows[i], Sweeps(rows, v, m).x) >= -r
    {
      RowAfterSweep(rows, v, Sweeps(rows, v, m - 1), r, i);
    }
  }

  /** A sweep that changes nothing has found the projection: a point of the
      polytope, from which every other one is farther off `v`, by at least its
      distance from the projection. */
  lemma ExactWhenSettled(rows: seq<Halfspace>, v: Vec, m: nat, y: Vec)
    requires UnitRows(rows) && m > 0 && Inside(rows, y)
    requires Residual(rows, v, m) == 0.0
    ensures var x := Sweeps(rows, v, m).x;
            Inside(rows, x) && Dist2(v, x) + Dist2(x, y) <= Dist2(v, y)
  {
    hide Dist2, TotalMultiplier, Residual, Near;
    assert (|rows| - 1) as real * 0.0 == 0.0 * 0.0;
    NearlyOptimal(rows, v, m, 0.0, y);
    assert 0.0 * TotalMultiplier(rows, Sweeps(rows, v, m).z) == 0.0;
  }

  /** The outcome of a call, for every point `y` of the polytope that the allowed
      sweeps can cover: violations stay below `sqrt(n * (n - 1) / 10) * tolerance`,
      and `x` is as close to `v` as `y` is, but for a term in that bound. */
  lemma ProjectionQuality(rows: seq<Halfspace>, v: Vec, tolerance: real, maxiters: nat, m: nat, y: Vec, r: real)
    requires UnitRows(rows) && Inside(rows, y)
    requires StopsAfter(rows, v, Threshold(|rows|, tolerance), maxiters, m)
    requires maxiters as real * Threshold(|rows|, tolerance) > Dist2(v, y)
    requires r >= 0.0 && 10.0 * (r * r) >= (|rows| * (|rows| - 1)) as real * (tolerance * tolerance)
    ensures var s := Sweeps(rows, v, m);
            && Near(rows, s.x, r)
            && Dist2(v, s.x) + Dist2(s.x, y) <= Dist2(v, y) + 2.0 * (r * TotalMultiplier(rows, s.z))
  {
    hide Dist2, Residual, Near, UnitRows, Sweeps, TotalMultiplier, Threshold;
    SomeRow(rows, v, tolerance, maxiters, y);
    StopsByResidual(rows, v, Threshold(|rows|, tolerance), maxiters, m, y);
    ThresholdBound(|rows|, tolerance, Residual(rows, v, m), r);
    NearlyOptimal(rows, v, m, r, y);
  }

  lemma SomeRow(rows: seq<Halfspace>, v: Vec, tolerance: real, maxiters: nat, y: Vec)
    requires maxiters as real * Threshold(|rows|, tolerance) > Dist2(v, y)
    ensures |rows| > 0
  {
    hide Mag2, Threshold;
    Mag2NonNegative(Sub(v, y));
    NoThreshold(tolerance);
  }

  lemma NoThreshold(tolerance: real)
    ensures Threshold(0, tolerance) == 0.0
  {
  }

  lemma ThresholdBound(n: nat, tolerance: real, c: real, r: real)
    requires n > 0 && c <= Threshold(n, tolerance)
    requires 10.0 * (r * r) >= (n * (n - 1)) as real * (tolerance * tolerance)
    ensures (n - 1) as real * c <= r * r
  {
    var k, j, t := n as real, (n - 1) as real, tolerance * tolerance;
    NonNegativeProduct(j, k * t / 10.0 - c);
    assert (n * (n - 1)) as real == k * j;
    assert j * (k * t / 10.0 - c) == k * j * t / 10.0 - j * c;
  }

  // ---------- The same in closed form, if the polytope has an inner point ----------

  lemma {:induction false} SlackAtLeast(rows: seq<Halfspace>, z: seq<Vec>, y: Vec, depth: real)
    requires |z| == |rows| && depth >= 0.0 && Near(rows, y, -depth)
    requires forall i :: 0 <= i < |rows| ==> Multiplier(rows[i], z[i]) >= 0.0
    ensures Slack(rows, z, y) >= depth * TotalMultiplier(rows, z)
    decreases |z|
  {
    hide Multiplier, Excess;
    if z == [] {
      assert depth * 0.0 == 0.0;
    } else {
      var n := |z| - 1;
      SlackAtLeast(rows[..n], z[..n], y, depth);
      var l, e, t := Multiplier(rows[n], z[n]), Excess(rows[n], y), TotalMultiplier(rows[..n], z[..n]);
      NonNegativeProduct(l, -depth - e);
      assert l * (-depth - e) == -(l * e) - depth * l;
      assert depth * (t + l) == depth * t + depth * l;
    }
  }

  lemma {:induction false} TotalResidualNonNegative(rows: seq<Halfspace>, v: Vec, m: nat)
    requires UnitRows(rows)
    ensures TotalResidual(rows, v, m) >= 0.0
  {
    hide Steps, DualFeasible, UnitRows, Mag2;
    if m > 0 {
      var s := Sweeps(rows, v, m - 1);
      TotalResidualNonNegative(rows, v, m - 1);
      AlwaysDualFeasible(rows, v, m - 1);
      Drift(rows, v, s, 0, |rows|);
      StepsStart(rows, s);
    }
  }

  /** A point in the depth of the polytope bounds the multipliers of every sweep. */
  lemma MultipliersAreBounded(rows: seq<Halfspace>, v: Vec, m: nat, y: Vec, depth: real)
    requires UnitRows(rows) && depth > 0.0 && Near(rows, y, -depth)
    ensures 2.0 * (depth * TotalMultiplier(rows, Sweeps(rows, v, m).z)) <= Dist2(v, y)
  {
    hide Slack, TotalMultiplier, TotalResidual, Near, UnitRows, Mag2, Sweeps, Multiplier;
    var s := Sweeps(rows, v, m);
    EnergyUsedUp(rows, v, m, y);
    TotalResidualNonNegative(rows, v, m);
    AlwaysDualFeasible(rows, v, m);
    MultipliersNonNegative(rows, v, s);
    SlackAtLeast(rows, s.z, y, depth);
    Mag2NonNegative(Sub(s.x, y));
  }

  /** The quality of the outcome in terms of what the caller knows. */
  lemma ClosedQuality(rows: seq<Halfspace>, v: Vec, tolerance: real, maxiters: nat, m: nat, y: Vec, r: real,
                      inner: Vec, depth: real)
    requires UnitRows(rows) && Inside(rows, y)
    requires depth > 0.0 && Near(rows, inner, -depth)
    requires StopsAfter(rows, v, Threshold(|rows|, tolerance), maxiters, m)
    requires maxiters as real * Threshold(|rows|, tolerance) > Dist2(v, y)
    requires r >= 0.0 && 10.0 * (r * r) >= (|rows| * (|rows| - 1)) as real * (tolerance * tolerance)
    ensures var x := Sweeps(rows, v, m).x;
            && Near(rows, x, r)
            && Dist2(v, x) + Dist2(x, y) <= Dist2(v, y) + r / depth * Dist2(v, inner)
  {
    hide Dist2, Near, UnitRows, Sweeps, TotalMultiplier, Threshold, StopsAfter;
    ProjectionQuality(rows, v, tolerance, maxiters, m, y, r);
    MultipliersAreBounded(rows, v, m, inner, depth);
    ScaledBound(r, depth, TotalMultiplier(rows, Sweeps(rows, v, m).z), Dist2(v, inner));
  }

  lemma ScaledBound(r: real, depth: real, t: real, e: real)
    requires r >= 0.0 && depth > 0.0 && 2.0 * (depth * t) <= e
    ensures 2.0 * (r * t) <= r / depth * e
  {
    var q := r / depth;
    assert q * depth == r;
    NonNegativeProduct(q, e - 2.0 * (depth * t));
    assert q * (e - 2.0 * (depth * t)) == q * e - 2.0 * (q * depth * t);
  }

  // ---------- How far the point is from the projection ----------

  ghost predicate IsProjection(rows: seq<Halfspace>, v: Vec, p: Vec) {
    Inside(rows, p) && forall q :: Inside(rows, q) ==> Dist2(v, p) <= Dist2(v, q)
  }

  /** The point at `t` on the way from `x` to `y`. */
  function Mix(x: Vec, y: Vec, t: real): Vec {
    Add(x, Scale(t, Sub(y, x)))
  }

  lemma ExcessOfMix(h: Halfspace, x: Vec, y: Vec, t: real)
    ensures Excess(h, Mix(x, y, t)) == (1.0 - t) * Excess(h, x) + t * Excess(h, y)
  {
    hide Dot, Add, Scale, Sub;
    var a := h.normal;
    DotAdd(a, x, Scale(t, Sub(y, x)));
    DotScale(a, t, Sub(y, x));
    DotAdd(a, y, x);
    MixArithmetic(t, Dot(a, x), Dot(a, y), h.offset);
  }

  lemma MixArithmetic(t: real, a: real, b: real, c: real)
    ensures a + t * (b - a) - c == (1.0 - t) * (a - c) + t * (b - c)
  {
  }

  /** Squared distances are convex along the way. */
  lemma DistanceOfMix(v: Vec, x: Vec, y: Vec, t: real)
    requires 0.0 <= t <= 1.0
    ensures Dist2(v, Mix(x, y, t)) <= (1.0 - t) * Dist2(v, x) + t * Dist2(v, y)
  {
    hide Scale, Mag2;
    var a, w := Sub(v, x), Sub(y, x);
    OppositeScale(t, w);
    assert Sub(v, Mix(x, y, t)) == Add(a, Scale(-t, w));
    OppositeScale(1.0, w);
    assert Sub(v, y) == Add(a, Scale(-1.0, w));
    ConvexSquare(a, w, t);
  }

  lemma OppositeScale(t: real, w: Vec)
    ensures Scale(-t, w) == Neg(Scale(t, w))
    ensures Scale(1.0, w) == w
  {
  }

  lemma SquareOfStepBack(a: Vec, w: Vec, t: real)
    ensures Mag2(Add(a, Scale(-t, w))) == Mag2(a) - 2.0 * (t * Dot(a, w)) + t * t * Mag2(w)
  {
    hide Dot, Add, Scale, Mag2;
    Mag2Add(a, Scale(-t, w));
    DotScale(a, -t, w);
    Mag2Scale(-t, w);
    assert (-t) * (-t) == t * t;
  }

  lemma ConvexSquare(a: Vec, w: Vec, t: real)
    requires 0.0 <= t <= 1.0
    ensures Mag2(Add(a, Scale(-t, w))) <= (1.0 - t) * Mag2(a) + t * Mag2(Add(a, Scale(-1.0, w)))
  {
    hide Dot, Add, Scale, Mag2;
    SquareOfStepBack(a, w, t);
    SquareOfStepBack(a, w, 1.0);
    Mag2NonNegative(w);
    ConvexArithmetic(t, Mag2(a), Dot(a, w), Mag2(w), Mag2(Add(a, Scale(-t, w))), Mag2(Add(a, Scale(-1.0, w))));
  }

  lemma ConvexArithmetic(t: real, a: real, d: real, w: real, m: real, n: real)
    requires 0.0 <= t <= 1.0 && w >= 0.0
    requires m == a - 2.0 * (t * d) + t * t * w && n == a - 2.0 * d + w
    ensures m <= (1.0 - t) * a + t * n
  {
    NonNegativeProduct(t, 1.0 - t);
    NonNegativeProduct(t * (1.0 - t), w);
    assert t * n == t * a - 2.0 * (t * d) + t * w;
    assert t * (1.0 - t) * w == t * w - t * t * w;
  }

  /** A point that violates no half-space by more than `r`, and a point at some
      depth, have a point of the polytope between them. */
  lemma MixIsInside(rows: seq<Halfspace>, x: Vec, r: real, inner: Vec, depth: real)
    requires Near(rows, x, r) && Near(rows, inner, -depth) && r >= 0.0 && depth > 0.0
    ensures Inside(rows, Mix(x, inner, r / (r + depth)))
  {
    hide Mix, Excess;
    var t := r / (r + depth);
    forall i | 0 <= i < |rows| ensures Excess(rows[i], Mix(x, inner, t)) <= 0.0 {
      ExcessOfMix(rows[i], x, inner, t);
      BalancedExcess(r, depth, t, Excess(rows[i], x), Excess(rows[i], inner));
    }
  }

  lemma BalancedExcess(r: real, depth: real, t: real, e: real, f: real)
    requires r >= 0.0 && depth > 0.0 && t == r / (r + depth) && e <= r && f <= -depth
    ensures (1.0 - t) * e + t * f <= 0.0
  {
    Weight(r, depth, t);
    NonNegativeProduct(1.0 - t, r - e);
    NonNegativeProduct(t, -depth - f);
    assert (1.0 - t) * (r - e) == (1.0 - t) * r - (1.0 - t) * e;
    assert t * (-depth - f) == -(t * depth) - t * f;
    assert (1.0 - t) * r == t * depth;
  }

  lemma Weight(r: real, depth: real, t: real)
    requires r >= 0.0 && depth > 0.0 && t == r / (r + depth)
    ensures 0.0 <= t <= 1.0 && t * (r + depth) == r && t <= r / depth
  {
    var q := r / depth;
    assert (r + depth) * t == r;
    CancelFactor(r + depth, 0.0, t);
    CancelFactor(r + depth, t, 1.0);
    assert depth * q == r;
    NonNegativeProduct(r, t);
    assert depth * t == r - r * t;
    CancelFactor(depth, t, q);
  }

  /** The outcome of a call with enough sweeps is close to the projection. */
  lemma DistanceToProjection(rows: seq<Halfspace>, v: Vec, tolerance: real, maxiters: nat, m: nat, p: Vec, r: real,
                             inner: Vec, depth: real)
    requires UnitRows(rows) && IsProjection(rows, v, p)
    requires depth > 0.0 && Near(rows, inner, -depth)
    requires StopsAfter(rows, v, Threshold(|rows|, tolerance), maxiters, m)
    requires maxiters as real * Threshold(|rows|, tolerance) > Dist2(v, p)
    requires r >= 0.0 && 10.0 * (r * r) >= (|rows| * (|rows| - 1)) as real * (tolerance * tolerance)
    ensures Dist2(Sweeps(rows, v, m).x, p) <= 2.0 * (r / depth * Dist2(v, inner))
  {
    hide Dist2, Near, UnitRows, Sweeps, Threshold, StopsAfter, Mix;
    var x, t := Sweeps(rows, v, m).x, r / (r + depth);
    ClosedQuality(rows, v, tolerance, maxiters, m, p, r, inner, depth);
    MixIsInside(rows, x, r, inner, depth);
    assert Dist2(v, p) <= Dist2(v, Mix(x, inner, t));
    Weight(r, depth, t);
    DistanceOfMix(v, x, inner, t);
    DistanceNonNegative(v, x);
    DistanceNonNegative(v, inner);
    CloseArithmetic(t, r / depth, Dist2(v, x), Dist2(v, inner), Dist2(v, p), Dist2(x, p));
  }

  lemma DistanceNonNegative(x: Vec, y: Vec)
    ensures Dist2(x, y) >= 0.0
  {
    hide Mag2;
    Mag2NonNegative(Sub(x, y));
  }

  lemma CloseArithmetic(t: real, q: real, vx: real, vi: real, vp: real, xp: real)
    requires 0.0 <= t <= q && vx >= 0.0 && vi >= 0.0
    requires vp <= (1.0 - t) * vx + t * vi
    requires vx + xp <= vp + q * vi
    ensures xp <= 2.0 * (q * vi)
  {
    NonNegativeProduct(t, vx);
    NonNegativeProduct(q - t, vi);
    assert (1.0 - t) * vx == vx - t * vx;
    assert (q - t) * vi == q * vi - t * vi;
  }

  // ---------- When the tolerance itself is kept ----------

  /** A call that gets to the sweeps, and is allowed enough of them. */
  ghost predicate Outcome(rows: seq<Halfspace>, v: Vec, tolerance: real, maxiters: nat, m: nat, y: Vec) {
    && UnitRows(rows) && Inside(rows, y) && tolerance >= 0.0
    && !Near(rows, v, tolerance)
    && StopsAfter(rows, v, Threshold(|rows|, tolerance), maxiters, m)
    && maxiters as real * Threshold(|rows|, tolerance) > Dist2(v, y)
  }

  ghost predicate KeepsTolerance(n: nat) {
    forall rows: seq<Halfspace>, v: Vec, tolerance: real, maxiters: nat, m: nat, y: Vec ::
      |rows| == n && Outcome(rows, v, tolerance, maxiters, m, y) ==> Near(rows, Sweeps(rows, v, m).x, tolerance)
  }

  /** The tolerance is kept for up to three half-spaces, and for no larger number. */
  lemma ToleranceKeptIff(n: nat)
    ensures KeepsTolerance(n) <==> n <= 3
  {
    hide Outcome, Near, Sweeps, KeepsTolerance;
    if n <= 3 {
      forall rows: seq<Halfspace>, v: Vec, tolerance: real, maxiters: nat, m: nat, y: Vec
        | |rows| == n && Outcome(rows, v, tolerance, maxiters, m, y)
        ensures Near(rows, Sweeps(rows, v, m).x, tolerance)
      {
        ToleranceKept(rows, v, tolerance, maxiters, m, y);
      }
      KeptIs(n);
    } else {
      ToleranceExceeded(n);
      KeptIs(n);
    }
  }

  lemma KeptIs(n: nat)
    ensures KeepsTolerance(n) <==>
      forall rows: seq<Halfspace>, v: Vec, tolerance: real, maxiters: nat, m: nat, y: Vec ::
        |rows| == n && Outcome(rows, v, tolerance, maxiters, m, y) ==> Near(rows, Sweeps(rows, v, m).x, tolerance)
  {
  }

  lemma ToleranceKept(rows: seq<Halfspace>, v: Vec, tolerance: real, maxiters: nat, m: nat, y: Vec)
    requires |rows| <= 3 && Outcome(rows, v, tolerance, maxiters, m, y)
    ensures Near(rows, Sweeps(rows, v, m).x, tolerance)
  {
    hide Dist2, StopsAfter, Near, UnitRows, Sweeps, TotalMultiplier, Threshold;
    SixOrLess(|rows|, tolerance * tolerance);
    SquareNonNegative(tolerance);
    ProjectionQuality(rows, v, tolerance, maxiters, m, y, tolerance);
  }

  lemma SixOrLess(n: nat, t: real)
    requires n <= 3
    ensures 10.0 * t >= (n * (n - 1)) as real * t || t < 0.0
  {
    if t >= 0.0 {
      assert n * (n - 1) <= 6 by {
        assert n == 0 || n == 1 || n == 2 || n == 3;
      }
      NonNegativeProduct(10.0 - (n * (n - 1)) as real, t);
    }
  }

  const SLANTED := Vec(-0.96, -0.28, 0.0)
  const LEFT := Halfspace(Vec(1.0, 0.0, 0.0), 0.0)
  const FAR := Halfspace(Vec(0.0, 1.0, 0.0), 1000.0)

  /** Three parallel faces, one behind the other, push a point out of the first
      half-space a little at a time; further rows are never met. */
  function Staggered(i: nat): Halfspace {
    if i == 0 then LEFT
    else if i == 1 then Halfspace(SLANTED, -0.36)
    else if i == 2 then Halfspace(SLANTED, -0.72)
    else if i == 3 then Halfspace(SLANTED, -1.08)
    else FAR
  }

  function StaggeredRows(n: nat): seq<Halfspace> {
    seq(n, i requires 0 <= i < n => Staggered(i))
  }

  lemma StaggeredInside(n: nat)
    ensures UnitRows(StaggeredRows(n)) && Inside(StaggeredRows(n), Vec(0.0, 4.0, 0.0))
  {
    var rows, y := StaggeredRows(n), Vec(0.0, 4.0, 0.0);
    forall i | 0 <= i < n ensures Mag2(rows[i].normal) == 1.0 && Excess(rows[i], y) <= 0.0 {
      assert rows[i] == Staggered(i);
      if 1 <= i <= 3 {
        assert Dot(SLANTED, y) == -1.12;
      }
    }
  }

  /** Where the first sweep has the point after `k` steps. */
  function StaggeredAt(k: nat): Vec {
    if k <= 1 then ZERO
    else if k == 2 then Vec(0.3456, 0.1008, 0.0)
    else if k == 3 then Vec(0.6912, 0.2016, 0.0)
    else Vec(1.0368, 0.3024, 0.0)
  }

  function StaggeredResidual(k: nat): real {
    if k <= 1 then 0.0
    else if k == 2 then 0.1296
    else if k == 3 then 0.2592
    else 0.3888
  }

  lemma AlreadyInside(h: Halfspace, x: Vec)
    requires Excess(h, x) <= 0.0
    ensures ProjectHalfspace(x, h) == x && Dist2(ZERO, Sub(x, x)) == 0.0
  {
  }

  lemma SlantedShift()
    ensures Scale(-0.36, SLANTED) == Vec(0.3456, 0.1008, 0.0)
    ensures Dist2(ZERO, Vec(0.3456, 0.1008, 0.0)) == 0.1296
  {
  }

  lemma SlantedDots()
    ensures Dot(SLANTED, ZERO) == 0.0
    ensures Dot(SLANTED, Vec(0.3456, 0.1008, 0.0)) == -0.36
    ensures Dot(SLANTED, Vec(0.6912, 0.2016, 0.0)) == -0.72
  {
    hide Dot;
    SlantedDot(0.0, 0.0);
    SlantedDot(0.3456, 0.1008);
    SlantedDot(0.6912, 0.2016);
  }

  lemma SlantedDot(x: real, y: real)
    ensures Dot(SLANTED, Vec(x, y, 0.0)) == -0.96 * x - 0.28 * y
  {
  }

  lemma OtherDots()
    ensures Dot(LEFT.normal, ZERO) == 0.0
    ensures Dot(FAR.normal, Vec(1.0368, 0.3024, 0.0)) == 0.3024
  {
  }

  lemma SlantedPush(x: Vec, offset: real, next: Vec)
    requires Dot(SLANTED, x) == offset + 0.36
    requires next == Vec(x.x + 0.3456, x.y + 0.1008, x.z)
    ensures ProjectHalfspace(x, Halfspace(SLANTED, offset)) == next && Dist2(ZERO, Sub(next, x)) == 0.1296
  {
    hide Dot, Scale, Dist2;
    SlantedShift();
    assert Sub(next, x) == Vec(0.3456, 0.1008, 0.0);
    assert offset - Dot(SLANTED, x) == -0.36;
  }

  lemma StaggeredStep(i: nat)
    ensures ProjectHalfspace(StaggeredAt(i), Staggered(i)) == StaggeredAt(i + 1)
    ensures Dist2(ZERO, Sub(StaggeredAt(i + 1), StaggeredAt(i))) == StaggeredResidual(i + 1) - StaggeredResidual(i)
  {
    hide ProjectHalfspace, Dist2, Sub, Dot;
    SlantedDots();
    OtherDots();
    if i == 1 {
      SlantedPush(ZERO, -0.36, StaggeredAt(2));
    } else if i == 2 {
      SlantedPush(StaggeredAt(2), -0.72, StaggeredAt(3));
    } else if i == 3 {
      SlantedPush(StaggeredAt(3), -1.08, StaggeredAt(4));
    } else {
      AlreadyInside(Staggered(i), StaggeredAt(i));
    }
  }

  /** A step on a row without a correction so far. */
  lemma FirstStep(rows: seq<Halfspace>, s: State, i: nat)
    requires i < |rows| == |s.z| && s.z[i] == ZERO
    ensures var x := ProjectHalfspace(s.x, rows[i]);
      && Step(rows, s, i).x == x
      && Step(rows, s, i).c == s.c + Dist2(ZERO, Sub(x, s.x))
      && forall j :: 0 <= j < |rows| && j != i ==> Step(rows, s, i).z[j] == s.z[j]
  {
    assert Sub(s.x, ZERO) == s.x;
    var x := ProjectHalfspace(s.x, rows[i]);
    assert Add3(x, Neg(s.x), ZERO) == Sub(x, s.x);
  }

  lemma {:induction false} StaggeredSteps(n: nat, k: nat)
    requires k <= n
    ensures var s := Steps(StaggeredRows(n), Start(StaggeredRows(n), ZERO), k);
      && s.x == StaggeredAt(k) && s.c == StaggeredResidual(k)
      && forall j :: k <= j < n ==> s.z[j] == ZERO
  {
    hide Steps, Step, ProjectHalfspace, Dist2, Sub, StaggeredAt, StaggeredResidual, Staggered;
    var rows, start := StaggeredRows(n), Start(StaggeredRows(n), ZERO);
    if k == 0 {
      StepsStart(rows, start);
      assert StaggeredAt(0) == ZERO && StaggeredResidual(0) == 0.0 by {
        StaggeredStart();
      }
    } else {
      StaggeredSteps(n, k - 1);
      StepsMore(rows, start, k - 1);
      FirstStep(rows, Steps(rows, start, k - 1), k - 1);
      StaggeredStep(k - 1);
    }
  }

  lemma StaggeredStart()
    ensures StaggeredAt(0) == ZERO && StaggeredResidual(0) == 0.0
  {
  }

  lemma StaggeredSweep(n: nat)
    requires n >= 4
    ensures Sweeps(StaggeredRows(n), ZERO, 1).x == Vec(1.0368, 0.3024, 0.0)
    ensures Residual(StaggeredRows(n), ZERO, 1) == 0.3888
  {
    hide Steps;
    SweepsStart(StaggeredRows(n), ZERO);
    SweepsMore(StaggeredRows(n), ZERO, 0);
    StaggeredSteps(n, n);
  }

  /** With four or more half-spaces, the first sweep can pass the stopping test
      with a point that violates a half-space by more than the tolerance. */
  lemma ToleranceExceeded(n: nat)
    requires n >= 4
    ensures Outcome(StaggeredRows(n), ZERO, 1.0, 100, 1, Vec(0.0, 4.0, 0.0))
    ensures !Near(StaggeredRows(n), Sweeps(StaggeredRows(n), ZERO, 1).x, 1.0)
  {
    hide Sweeps, Residual, Dist2, Near, Threshold, StaggeredRows, UnitRows;
    StaggeredSweep(n);
    StaggeredFar(n);
    StaggeredInside(n);
    StaggeredThreshold(n);
    StaggeredNumber(n);
  }

  lemma StaggeredNumber(n: nat)
    ensures |StaggeredRows(n)| == n
  {
  }

  lemma StaggeredFar(n: nat)
    requires n >= 4
    ensures !Near(StaggeredRows(n), ZERO, 1.0)
    ensures !Near(StaggeredRows(n), Vec(1.0368, 0.3024, 0.0), 1.0)
  {
    hide Excess;
    var rows := StaggeredRows(n);
    assert rows[0] == LEFT && rows[3] == Staggered(3);
    StaggeredViolations();
    assert Excess(rows[3], ZERO) == 1.08;
    assert Excess(rows[0], Vec(1.0368, 0.3024, 0.0)) == 1.0368;
  }

  lemma StaggeredViolations()
    ensures Excess(LEFT, Vec(1.0368, 0.3024, 0.0)) == 1.0368
    ensures Excess(Staggered(3), ZERO) == 1.08
  {
  }

  lemma StaggeredThreshold(n: nat)
    requires n >= 4
    ensures Threshold(n, 1.0) > 0.3888
    ensures 100 as real * Threshold(n, 1.0) > Dist2(ZERO, Vec(0.0, 4.0, 0.0))
  {
    assert Threshold(n, 1.0) == n as real / 10.0;
    assert Dist2(ZERO, Vec(0.0, 4.0, 0.0)) == 16.0;
  }
}
