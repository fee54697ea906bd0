/** Vectors of three real components, and the laws of their algebra. */
module Vectors {

  datatype Vec = Vec(x: real, y: real, z: real)

  const ZERO := Vec(0.0, 0.0, 0.0)

  function Add(a: Vec, b: Vec): Vec {
    Vec(a.x + b.x, a.y + b.y, a.z + b.z)
  }

  function Sub(a: Vec, b: Vec): Vec {
    Vec(a.x - b.x, a.y - b.y, a.z - b.z)
  }

  function Neg(a: Vec): Vec {
    Vec(-a.x, -a.y, -a.z)
  }

  function Scale(s: real, a: Vec): Vec {
    Vec(s * a.x, s * a.y, s * a.z)
  }

  function Add3(a: Vec, b: Vec, c: Vec): Vec {
    Add(Add(a, b), c)
  }

  function Dot(a: Vec, b: Vec): real {
    a.x * b.x + a.y * b.y + a.z * b.z
  }

  function Cross(a: Vec, b: Vec): Vec {
    Vec(a.y * b.z - a.z * b.y, a.z * b.x - a.x * b.z, a.x * b.y - a.y * b.x)
  }

  function Mag2(a: Vec): real {
    Dot(a, a)
  }

  function Dist2(a: Vec, b: Vec): real {
    Mag2(Sub(a, b))
  }

  // ---------- The dot product is symmetric, bilinear and positive ----------

  lemma DotSymmetric(a: Vec, b: Vec)
    ensures Dot(a, b) == Dot(b, a)
  {
  }

  lemma DotAdd(a: Vec, x: Vec, y: Vec)
    ensures Dot(a, Add(x, y)) == Dot(a, x) + Dot(a, y)
    ensures Dot(a, Sub(x, y)) == Dot(a, x) - Dot(a, y)
  {
  }

  lemma DotScale(a: Vec, s: real, x: Vec)
    ensures Dot(a, Scale(s, x)) == s * Dot(a, x)
  {
  }

  lemma Mag2NonNegative(a: Vec)
    ensures Mag2(a) >= 0.0
  {
    SquareNonNegative(a.x);
    SquareNonNegative(a.y);
    SquareNonNegative(a.z);
  }

  lemma SquareNonNegative(s: real)
    ensures s * s >= 0.0
  {
  }

  lemma PositiveProduct(s: real, t: real)
    requires s > 0.0 && t > 0.0
    ensures s * t > 0.0
  {
  }

  /** The square of a sum. */
  lemma Mag2Add(a: Vec, b: Vec)
    ensures Mag2(Add(a, b)) == Mag2(a) + 2.0 * Dot(a, b) + Mag2(b)
  {
    DotAdd(Add(a, b), a, b);
    DotAdd(a, a, b);
    DotAdd(b, a, b);
    DotSymmetric(Add(a, b), a);
    DotSymmetric(Add(a, b), b);
    DotSymmetric(a, b);
  }

  lemma Mag2Scale(s: real, a: Vec)
    ensures Mag2(Scale(s, a)) == s * s * Mag2(a)
  {
    DotScale(Scale(s, a), s, a);
    DotSymmetric(Scale(s, a), a);
    DotScale(a, s, a);
  }

  /** Cauchy and Schwarz, for a unit vector. */
  lemma UnitDotBound(a: Vec, d: Vec)
    requires Mag2(a) == 1.0
    ensures Dot(a, d) * Dot(a, d) <= Mag2(d)
  {
    hide Dot, Add, Scale, Mag2;
    var t := Dot(a, d);
    var r := Add(d, Scale(-t, a));
    Mag2Add(d, Scale(-t, a));
    Mag2Scale(-t, a);
    DotScale(d, -t, a);
    DotSymmetric(a, d);
    Mag2NonNegative(r);
    assert 2.0 * (-t * t) + (-t) * (-t) * 1.0 == -(t * t);
  }
}
