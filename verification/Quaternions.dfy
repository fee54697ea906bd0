/** Rotations by quaternions, and the matrices that perform the same rotations.
    Each law is an identity of polynomials: the lemmas `...OnReals` hold the
    identity for one component, the other components follow by renaming the
    axes in a circle. */
module Quaternions {
  import opened Vectors

  datatype Quat = Quat(x: real, y: real, z: real, w: real)

  datatype Mat33 = Mat33(row0: Vec, row1: Vec, row2: Vec)

  function Imag(q: Quat): Vec {
    Vec(q.x, q.y, q.z)
  }

  function Mul(q: Quat, p: Quat): Quat {
    Quat(
      q.w * p.x + q.z * p.y - q.y * p.z + q.x * p.w,
      -q.z * p.x + q.w * p.y + q.x * p.z + q.y * p.w,
      q.y * p.x - q.x * p.y + q.w * p.z + q.z * p.w,
      -q.x * p.x - q.y * p.y - q.z * p.z + q.w * p.w)
  }

  function Inverse(q: Quat): Quat {
    Quat(-q.x, -q.y, -q.z, q.w)
  }

  function Negated(q: Quat): Quat {
    Quat(-q.x, -q.y, -q.z, -q.w)
  }

  function Norm2(q: Quat): real {
    q.x * q.x + q.y * q.y + q.z * q.z + q.w * q.w
  }

  function Rotate(q: Quat, v: Vec): Vec {
    var qv := Imag(q);
    Add3(
      Scale(2.0 * Dot(qv, v), qv),
      Scale(q.w * q.w - Mag2(qv), v),
      Scale(2.0 * q.w, Cross(qv, v)))
  }

  function ToMatrix(q: Quat): Mat33 {
    var x, y, z, w := q.x, q.y, q.z, q.w;
    Mat33(
      Vec(1.0 - 2.0 * y * y - 2.0 * z * z, 2.0 * x * y - 2.0 * z * w, 2.0 * x * z + 2.0 * y * w),
      Vec(2.0 * x * y + 2.0 * z * w, 1.0 - 2.0 * x * x - 2.0 * z * z, 2.0 * y * z - 2.0 * x * w),
      Vec(2.0 * x * z - 2.0 * y * w, 2.0 * y * z + 2.0 * x * w, 1.0 - 2.0 * x * x - 2.0 * y * y))
  }

  function MatVec(m: Mat33, v: Vec): Vec {
    Vec(Dot(m.row0, v), Dot(m.row1, v), Dot(m.row2, v))
  }

  // ---------- What the functions are, component by component ----------

  lemma MulIs(q: Quat, p: Quat)
    ensures Mul(q, p).x == q.w * p.x + q.z * p.y - q.y * p.z + q.x * p.w
    ensures Mul(q, p).y == -q.z * p.x + q.w * p.y + q.x * p.z + q.y * p.w
    ensures Mul(q, p).z == q.y * p.x - q.x * p.y + q.w * p.z + q.z * p.w
    ensures Mul(q, p).w == -q.x * p.x - q.y * p.y - q.z * p.z + q.w * p.w
  {
  }

  lemma NormIs(q: Quat)
    ensures Norm2(q) == q.x * q.x + q.y * q.y + q.z * q.z + q.w * q.w
  {
  }

  lemma DotIs(a: Vec, b: Vec)
    ensures Dot(a, b) == a.x * b.x + a.y * b.y + a.z * b.z
  {
  }

  lemma CrossIs(a: Vec, b: Vec)
    ensures Cross(a, b).x == a.y * b.z - a.z * b.y
    ensures Cross(a, b).y == a.z * b.x - a.x * b.z
    ensures Cross(a, b).z == a.x * b.y - a.y * b.x
  {
  }

  /** A row of the matrix of a rotation, scaled by the norm, times a vector. */
  function Row(x: real, y: real, z: real, w: real, v1: real, v2: real, v3: real): real {
    (x * x + w * w - y * y - z * z) * v1 + (2.0 * x * y - 2.0 * z * w) * v2 + (2.0 * x * z + 2.0 * y * w) * v3
  }

  lemma RotateIs(q: Quat, v: Vec)
    ensures Rotate(q, v).x == Row(q.x, q.y, q.z, q.w, v.x, v.y, v.z)
    ensures Rotate(q, v).y == Row(q.y, q.z, q.x, q.w, v.y, v.z, v.x)
    ensures Rotate(q, v).z == Row(q.z, q.x, q.y, q.w, v.z, v.x, v.y)
  {
    hide Rotate, Row, Dot, Cross, Mag2;
    var u := Imag(q);
    var d, s, t, c := 2.0 * Dot(u, v), q.w * q.w - Mag2(u), 2.0 * q.w, Cross(u, v);
    RotateByParts(q, v);
    CrossIs(u, v);
    DotIs(u, v);
    MagIs(u);
    RowOnReals(q.x, q.y, q.z, q.w, v.x, v.y, v.z, c.x, d, s, t);
    RowOnReals(q.y, q.z, q.x, q.w, v.y, v.z, v.x, c.y, d, s, t);
    RowOnReals(q.z, q.x, q.y, q.w, v.z, v.x, v.y, c.z, d, s, t);
  }

  lemma MagIs(u: Vec)
    ensures Mag2(u) == u.x * u.x + u.y * u.y + u.z * u.z
  {
  }

  lemma RotateByParts(q: Quat, v: Vec)
    ensures var u := Imag(q);
            var d, s, t, c := 2.0 * Dot(u, v), q.w * q.w - Mag2(u), 2.0 * q.w, Cross(u, v);
            && Rotate(q, v).x == d * q.x + s * v.x + t * c.x
            && Rotate(q, v).y == d * q.y + s * v.y + t * c.y
            && Rotate(q, v).z == d * q.z + s * v.z + t * c.z
  {
    hide Rotate, Dot, Cross, Mag2;
    RotateX(q, v);
    RotateY(q, v);
    RotateZ(q, v);
  }

  lemma RotateX(q: Quat, v: Vec)
    ensures Rotate(q, v).x == 2.0 * Dot(Imag(q), v) * q.x + (q.w * q.w - Mag2(Imag(q))) * v.x
        + 2.0 * q.w * Cross(Imag(q), v).x
  {
    hide Dot, Cross, Mag2;
  }

  lemma RotateY(q: Quat, v: Vec)
    ensures Rotate(q, v).y == 2.0 * Dot(Imag(q), v) * q.y + (q.w * q.w - Mag2(Imag(q))) * v.y
        + 2.0 * q.w * Cross(Imag(q), v).y
  {
    hide Dot, Cross, Mag2;
  }

  lemma RotateZ(q: Quat, v: Vec)
    ensures Rotate(q, v).z == 2.0 * Dot(Imag(q), v) * q.z + (q.w * q.w - Mag2(Imag(q))) * v.z
        + 2.0 * q.w * Cross(Imag(q), v).z
  {
    hide Dot, Cross, Mag2;
  }

  lemma RowOnReals(x: real, y: real, z: real, w: real, v1: real, v2: real, v3: real, c1: real,
                   d: real, s: real, t: real)
    requires c1 == y * v3 - z * v2 && d == 2.0 * (x * v1 + y * v2 + z * v3)
    requires s == w * w - (x * x + y * y + z * z) && t == 2.0 * w
    ensures Row(x, y, z, w, v1, v2, v3) == d * x + s * v1 + t * c1
  {
    assert d * x == 2.0 * x * x * v1 + 2.0 * x * y * v2 + 2.0 * x * z * v3;
    assert s * v1 == w * w * v1 - x * x * v1 - y * y * v1 - z * z * v1;
    assert t * c1 == 2.0 * w * y * v3 - 2.0 * w * z * v2;
  }

  // ---------- The product ----------

  lemma SameQuat(q: Quat, p: Quat)
    requires q.x == p.x && q.y == p.y && q.z == p.z && q.w == p.w
    ensures q == p
  {
  }

  lemma SameVec(u: Vec, v: Vec)
    requires u.x == v.x && u.y == v.y && u.z == v.z
    ensures u == v
  {
  }

  lemma MulAssociative(a: Quat, b: Quat, c: Quat)
    ensures Mul(Mul(a, b), c) == Mul(a, Mul(b, c))
  {
    hide Mul;
    AssociativeX(a, b, c);
    AssociativeY(a, b, c);
    AssociativeZ(a, b, c);
    AssociativeW(a, b, c);
    SameQuat(Mul(Mul(a, b), c), Mul(a, Mul(b, c)));
  }

  lemma AssociativeX(a: Quat, b: Quat, c: Quat)
    ensures Mul(Mul(a, b), c).x == Mul(a, Mul(b, c)).x
  {
    hide Mul;
    var m, n := Mul(a, b), Mul(b, c);
    MulIs(a, b);
    MulIs(b, c);
    ProductOnReals(a.x, a.y, a.z, a.w, b.x, b.y, b.z, b.w, c.x, c.y, c.z, c.w,
      m.x, m.y, m.z, m.w, n.x, n.y, n.z, n.w);
    MulIs(m, c);
    MulIs(a, n);
  }

  lemma AssociativeY(a: Quat, b: Quat, c: Quat)
    ensures Mul(Mul(a, b), c).y == Mul(a, Mul(b, c)).y
  {
    hide Mul;
    var m, n := Mul(a, b), Mul(b, c);
    MulIs(a, b);
    MulIs(b, c);
    ProductOnReals(a.y, a.z, a.x, a.w, b.y, b.z, b.x, b.w, c.y, c.z, c.x, c.w,
      m.y, m.z, m.x, m.w, n.y, n.z, n.x, n.w);
    MulIs(m, c);
    MulIs(a, n);
  }

  lemma AssociativeZ(a: Quat, b: Quat, c: Quat)
    ensures Mul(Mul(a, b), c).z == Mul(a, Mul(b, c)).z
  {
    hide Mul;
    var m, n := Mul(a, b), Mul(b, c);
    MulIs(a, b);
    MulIs(b, c);
    ProductOnReals(a.z, a.x, a.y, a.w, b.z, b.x, b.y, b.w, c.z, c.x, c.y, c.w,
      m.z, m.x, m.y, m.w, n.z, n.x, n.y, n.w);
    MulIs(m, c);
    MulIs(a, n);
  }

  lemma AssociativeW(a: Quat, b: Quat, c: Quat)
    ensures Mul(Mul(a, b), c).w == Mul(a, Mul(b, c)).w
  {
    hide Mul;
    var m, n := Mul(a, b), Mul(b, c);
    MulIs(a, b);
    MulIs(b, c);
    ScalarOnReals(a.x, a.y, a.z, a.w, b.x, b.y, b.z, b.w, c.x, c.y, c.z, c.w,
      m.x, m.y, m.z, m.w, n.x, n.y, n.z, n.w);
    MulIs(m, c);
    MulIs(a, n);
  }

  lemma ProductOnReals(a1: real, a2: real, a3: real, a4: real, b1: real, b2: real, b3: real, b4: real,
                       c1: real, c2: real, c3: real, c4: real, m1: real, m2: real, m3: real, m4: real,
                       n1: real, n2: real, n3: real, n4: real)
    requires m1 == a4 * b1 + a3 * b2 - a2 * b3 + a1 * b4 && m2 == -a3 * b1 + a4 * b2 + a1 * b3 + a2 * b4
    requires m3 == a2 * b1 - a1 * b2 + a4 * b3 + a3 * b4 && m4 == -a1 * b1 - a2 * b2 - a3 * b3 + a4 * b4
    requires n1 == b4 * c1 + b3 * c2 - b2 * c3 + b1 * c4 && n2 == -b3 * c1 + b4 * c2 + b1 * c3 + b2 * c4
    requires n3 == b2 * c1 - b1 * c2 + b4 * c3 + b3 * c4 && n4 == -b1 * c1 - b2 * c2 - b3 * c3 + b4 * c4
    ensures m4 * c1 + m3 * c2 - m2 * c3 + m1 * c4 == a4 * n1 + a3 * n2 - a2 * n3 + a1 * n4
  {
  }

  lemma ScalarOnReals(a1: real, a2: real, a3: real, a4: real, b1: real, b2: real, b3: real, b4: real,
                      c1: real, c2: real, c3: real, c4: real, m1: real, m2: real, m3: real, m4: real,
                      n1: real, n2: real, n3: real, n4: real)
    requires m1 == a4 * b1 + a3 * b2 - a2 * b3 + a1 * b4 && m2 == -a3 * b1 + a4 * b2 + a1 * b3 + a2 * b4
    requires m3 == a2 * b1 - a1 * b2 + a4 * b3 + a3 * b4 && m4 == -a1 * b1 - a2 * b2 - a3 * b3 + a4 * b4
    requires n1 == b4 * c1 + b3 * c2 - b2 * c3 + b1 * c4 && n2 == -b3 * c1 + b4 * c2 + b1 * c3 + b2 * c4
    requires n3 == b2 * c1 - b1 * c2 + b4 * c3 + b3 * c4 && n4 == -b1 * c1 - b2 * c2 - b3 * c3 + b4 * c4
    ensures -m1 * c1 - m2 * c2 - m3 * c3 + m4 * c4 == -a1 * n1 - a2 * n2 - a3 * n3 + a4 * n4
  {
  }

  lemma InverseOfProduct(q: Quat, p: Quat)
    ensures Inverse(Mul(q, p)) == Mul(Inverse(p), Inverse(q))
  {
    hide Mul;
    MulIs(q, p);
    MulIs(Inverse(p), Inverse(q));
  }

  lemma NormIsMultiplicative(q: Quat, p: Quat)
    ensures Norm2(Mul(q, p)) == Norm2(q) * Norm2(p)
  {
    hide Mul, Norm2;
    var m := Mul(q, p);
    MulIs(q, p);
    NormIs(q);
    NormIs(p);
    NormIs(m);
    NormOnReals(q.x, q.y, q.z, q.w, p.x, p.y, p.z, p.w, m.x, m.y, m.z, m.w, Norm2(q), Norm2(p));
  }

  lemma NormOnReals(q1: real, q2: real, q3: real, q4: real, p1: real, p2: real, p3: real, p4: real,
                    m1: real, m2: real, m3: real, m4: real, s: real, t: real)
    requires m1 == q4 * p1 + q3 * p2 - q2 * p3 + q1 * p4 && m2 == -q3 * p1 + q4 * p2 + q1 * p3 + q2 * p4
    requires m3 == q2 * p1 - q1 * p2 + q4 * p3 + q3 * p4 && m4 == -q1 * p1 - q2 * p2 - q3 * p3 + q4 * p4
    requires s == q1 * q1 + q2 * q2 + q3 * q3 + q4 * q4 && t == p1 * p1 + p2 * p2 + p3 * p3 + p4 * p4
    ensures m1 * m1 + m2 * m2 + m3 * m3 + m4 * m4 == s * t
  {
  }

  // ---------- Rotation as a product of quaternions ----------

  function Pure(v: Vec): Quat {
    Quat(v.x, v.y, v.z, 0.0)
  }

  /** Rotating is multiplying with the quaternion on one side and its inverse
      on the other; `Mul` takes the left factor as its second argument. */
  lemma RotateIsSandwich(q: Quat, v: Vec)
    ensures Pure(Rotate(q, v)) == Mul(Inverse(q), Mul(Pure(v), q))
  {
    hide Mul, Rotate;
    SandwichX(q, v);
    SandwichY(q, v);
    SandwichZ(q, v);
    SandwichW(q, v);
    SameQuat(Pure(Rotate(q, v)), Mul(Inverse(q), Mul(Pure(v), q)));
  }

  lemma SandwichX(q: Quat, v: Vec)
    ensures Rotate(q, v).x == Mul(Inverse(q), Mul(Pure(v), q)).x
  {
    hide Mul, Rotate, Row, Inverse, Pure;
    var n := Mul(Pure(v), q);
    RotateIs(q, v);
    PureTimes(v, q);
    SandwichOnReals(q.x, q.y, q.z, q.w, v.x, v.y, v.z, n.x, n.y, n.z, n.w);
    InverseTimes(q, n);
  }

  lemma SandwichY(q: Quat, v: Vec)
    ensures Rotate(q, v).y == Mul(Inverse(q), Mul(Pure(v), q)).y
  {
    hide Mul, Rotate, Row, Inverse, Pure;
    var n := Mul(Pure(v), q);
    RotateIs(q, v);
    PureTimes(v, q);
    SandwichOnReals(q.y, q.z, q.x, q.w, v.y, v.z, v.x, n.y, n.z, n.x, n.w);
    InverseTimes(q, n);
  }

  lemma SandwichZ(q: Quat, v: Vec)
    ensures Rotate(q, v).z == Mul(Inverse(q), Mul(Pure(v), q)).z
  {
    hide Mul, Rotate, Row, Inverse, Pure;
    var n := Mul(Pure(v), q);
    RotateIs(q, v);
    PureTimes(v, q);
    SandwichOnReals(q.z, q.x, q.y, q.w, v.z, v.x, v.y, n.z, n.x, n.y, n.w);
    InverseTimes(q, n);
  }

  lemma SandwichW(q: Quat, v: Vec)
    ensures Mul(Inverse(q), Mul(Pure(v), q)).w == 0.0
  {
    hide Mul, Inverse, Pure;
    var n := Mul(Pure(v), q);
    PureTimes(v, q);
    SandwichIsPure(q.x, q.y, q.z, q.w, v.x, v.y, v.z, n.x, n.y, n.z, n.w);
    InverseTimes(q, n);
  }

  lemma PureTimes(v: Vec, q: Quat)
    ensures Mul(Pure(v), q).x == v.z * q.y - v.y * q.z + v.x * q.w
    ensures Mul(Pure(v), q).y == -v.z * q.x + v.x * q.z + v.y * q.w
    ensures Mul(Pure(v), q).z == v.y * q.x - v.x * q.y + v.z * q.w
    ensures Mul(Pure(v), q).w == -v.x * q.x - v.y * q.y - v.z * q.z
  {
  }

  lemma InverseTimes(q: Quat, n: Quat)
    ensures Mul(Inverse(q), n).x == q.w * n.x - q.z * n.y + q.y * n.z - q.x * n.w
    ensures Mul(Inverse(q), n).y == q.z * n.x + q.w * n.y - q.x * n.z - q.y * n.w
    ensures Mul(Inverse(q), n).z == -q.y * n.x + q.x * n.y + q.w * n.z - q.z * n.w
    ensures Mul(Inverse(q), n).w == q.x * n.x + q.y * n.y + q.z * n.z + q.w * n.w
  {
  }

  lemma SandwichOnReals(q1: real, q2: real, q3: real, q4: real, v1: real, v2: real, v3: real,
                        n1: real, n2: real, n3: real, n4: real)
    requires n1 == v3 * q2 - v2 * q3 + v1 * q4 && n2 == -v3 * q1 + v1 * q3 + v2 * q4
    requires n3 == v2 * q1 - v1 * q2 + v3 * q4 && n4 == -v1 * q1 - v2 * q2 - v3 * q3
    ensures Row(q1, q2, q3, q4, v1, v2, v3) == q4 * n1 - q3 * n2 + q2 * n3 - q1 * n4
  {
    assert q4 * n1 == q4 * v3 * q2 - q4 * v2 * q3 + q4 * v1 * q4;
    assert q3 * n2 == -q3 * v3 * q1 + q3 * v1 * q3 + q3 * v2 * q4;
    assert q2 * n3 == q2 * v2 * q1 - q2 * v1 * q2 + q2 * v3 * q4;
    assert q1 * n4 == -q1 * v1 * q1 - q1 * v2 * q2 - q1 * v3 * q3;
  }

  lemma SandwichIsPure(q1: real, q2: real, q3: real, q4: real, v1: real, v2: real, v3: real,
                       n1: real, n2: real, n3: real, n4: real)
    requires n1 == v3 * q2 - v2 * q3 + v1 * q4 && n2 == -v3 * q1 + v1 * q3 + v2 * q4
    requires n3 == v2 * q1 - v1 * q2 + v3 * q4 && n4 == -v1 * q1 - v2 * q2 - v3 * q3
    ensures q1 * n1 + q2 * n2 + q3 * n3 + q4 * n4 == 0.0
  {
  }

  /** The composition law the code obeys: the first factor rotates first. */
  lemma RotationsCompose(q: Quat, p: Quat, v: Vec)
    ensures Rotate(Mul(q, p), v) == Rotate(p, Rotate(q, v))
  {
    hide Mul, Rotate, Inverse;
    var u := Pure(v);
    calc {
      Pure(Rotate(Mul(q, p), v));
      { RotateIsSandwich(Mul(q, p), v); InverseOfProduct(q, p); }
      Mul(Mul(Inverse(p), Inverse(q)), Mul(u, Mul(q, p)));
      { MulAssociative(u, q, p); }
      Mul(Mul(Inverse(p), Inverse(q)), Mul(Mul(u, q), p));
      { MulAssociative(Inverse(p), Inverse(q), Mul(Mul(u, q), p)); }
      Mul(Inverse(p), Mul(Inverse(q), Mul(Mul(u, q), p)));
      { MulAssociative(Inverse(q), Mul(u, q), p); }
      Mul(Inverse(p), Mul(Mul(Inverse(q), Mul(u, q)), p));
      { RotateIsSandwich(q, v); }
      Mul(Inverse(p), Mul(Pure(Rotate(q, v)), p));
      { RotateIsSandwich(p, Rotate(q, v)); }
      Pure(Rotate(p, Rotate(q, v)));
    }
  }

  /** The inverse of a unit quaternion rotates back. */
  lemma InverseRotatesBack(q: Quat, v: Vec)
    requires Norm2(q) == 1.0
    ensures Rotate(Inverse(q), Rotate(q, v)) == v
  {
    hide Rotate, Mul, Norm2, Inverse, Row;
    var one := Mul(q, Inverse(q));
    RotationsCompose(q, Inverse(q), v);
    TimesInverse(q);
    RotateIs(one, v);
    RowOfIdentity(v.x, v.y, v.z);
    RowOfIdentity(v.y, v.z, v.x);
    RowOfIdentity(v.z, v.x, v.y);
    SameVec(Rotate(one, v), v);
  }

  lemma TimesInverse(q: Quat)
    ensures Mul(q, Inverse(q)) == Quat(0.0, 0.0, 0.0, Norm2(q))
  {
  }

  lemma RowOfIdentity(v1: real, v2: real, v3: real)
    ensures Row(0.0, 0.0, 0.0, 1.0, v1, v2, v3) == v1
  {
  }

  /** The sense of the rotation: about the z axis, from x towards y. */
  lemma RotatesFromXToY()
    ensures Rotate(Quat(0.0, 0.0, 0.6, 0.8), Vec(1.0, 0.0, 0.0)) == Vec(0.28, 0.96, 0.0)
  {
    hide Rotate;
    var q, v := Quat(0.0, 0.0, 0.6, 0.8), Vec(1.0, 0.0, 0.0);
    RotateIs(q, v);
    SameVec(Rotate(q, v), Vec(0.28, 0.96, 0.0));
  }

  /** A rotation keeps lengths; in general it scales them by the norm. */
  lemma RotationScalesLength(q: Quat, v: Vec)
    ensures Mag2(Rotate(q, v)) == Norm2(q) * Norm2(q) * Mag2(v)
  {
    hide Mul, Rotate, Norm2, Mag2;
    RotateIsSandwich(q, v);
    NormIsMultiplicative(Inverse(q), Mul(Pure(v), q));
    NormIsMultiplicative(Pure(v), q);
    NormOfPure(v);
    NormOfPure(Rotate(q, v));
    NormOfInverse(q);
    Rearranged(Norm2(q), Mag2(v));
  }

  lemma Rearranged(n: real, m: real)
    ensures n * (m * n) == n * n * m
  {
  }

  lemma NormOfInverse(q: Quat)
    ensures Norm2(Inverse(q)) == Norm2(q)
  {
  }

  lemma NormOfPure(v: Vec)
    ensures Norm2(Pure(v)) == Mag2(v)
  {
  }

  // ---------- The order stated in the comment ----------

  /** The law as the comment has it: the second factor rotates first. */
  ghost predicate CommentedLaw(q: Quat, p: Quat) {
    forall v :: Rotate(Mul(q, p), v) == Rotate(q, Rotate(p, v))
  }

  /** The axes are parallel, or the turns are half turns about perpendicular axes. */
  predicate Exchangeable(q: Quat, p: Quat) {
    || Cross(Imag(q), Imag(p)) == ZERO
    || (q.w == 0.0 && p.w == 0.0 && Dot(Imag(q), Imag(p)) == 0.0)
  }

  /** The comment is right exactly for such factors. */
  lemma CommentedLawIff(q: Quat, p: Quat)
    ensures CommentedLaw(q, p) <==> Exchangeable(q, p)
  {
    hide CommentedLaw, Mul, Negated, Cross, Dot;
    CommentedLawIffProducts(q, p);
    EqualProductsIff(q, p);
    if Mul(q, p) == Negated(Mul(p, q)) {
      ExchangeableIfOpposite(q, p);
    }
    if q.w == 0.0 && p.w == 0.0 && Dot(Imag(q), Imag(p)) == 0.0 {
      OppositeHalfTurns(q, p);
    }
  }

  /** The product depends on the order through the cross product of the axes. */
  lemma EqualProductsIff(q: Quat, p: Quat)
    ensures Mul(q, p) == Mul(p, q) <==> Cross(Imag(q), Imag(p)) == ZERO
  {
    hide Mul, Cross;
    MulIs(q, p);
    MulIs(p, q);
    CrossIs(Imag(q), Imag(p));
    if Cross(Imag(q), Imag(p)) == ZERO {
      SameQuat(Mul(q, p), Mul(p, q));
    }
  }

  lemma OppositeHalfTurns(q: Quat, p: Quat)
    requires q.w == 0.0 && p.w == 0.0 && Dot(Imag(q), Imag(p)) == 0.0
    ensures Mul(q, p) == Negated(Mul(p, q))
  {
    hide Mul, Dot;
    MulIs(q, p);
    MulIs(p, q);
    DotIs(Imag(q), Imag(p));
    SameQuat(Mul(q, p), Negated(Mul(p, q)));
  }

  lemma ExchangeableIfOpposite(q: Quat, p: Quat)
    requires Mul(q, p) == Negated(Mul(p, q))
    ensures Exchangeable(q, p)
  {
    hide Mul, Cross, Dot;
    MulIs(q, p);
    MulIs(p, q);
    var u, v := Imag(q), Imag(p);
    DotIs(u, v);
    CrossIs(u, v);
    if q.w != 0.0 || p.w != 0.0 {
      Parallel(q.w, p.w, q.y, q.z, p.y, p.z);
      Parallel(q.w, p.w, q.z, q.x, p.z, p.x);
      Parallel(q.w, p.w, q.x, q.y, p.x, p.y);
      SameVec(Cross(u, v), ZERO);
    }
  }

  lemma Parallel(a: real, b: real, q1: real, q2: real, p1: real, p2: real)
    requires a * p1 + b * q1 == 0.0 && a * p2 + b * q2 == 0.0 && (a != 0.0 || b != 0.0)
    ensures q1 * p2 - q2 * p1 == 0.0
  {
    var c := q1 * p2 - q2 * p1;
    if a != 0.0 {
      assert a * c == q1 * (a * p2) - q2 * (a * p1);
      assert a * p1 == -(b * q1) && a * p2 == -(b * q2);
      assert a * c == 0.0;
      Cancel(a, c, 0.0);
    } else {
      assert b * c == (b * q1) * p2 - (b * q2) * p1;
      assert b * q1 == -(a * p1) && b * q2 == -(a * p2);
      assert b * c == 0.0;
      Cancel(b, c, 0.0);
    }
  }

  /** It is right exactly if the products in the two orders are the same up to
      sign, so that they are the same rotation. */
  lemma CommentedLawIffProducts(q: Quat, p: Quat)
    ensures CommentedLaw(q, p) <==> Mul(q, p) == Mul(p, q) || Mul(q, p) == Negated(Mul(p, q))
  {
    hide Mul, Rotate, Negated, Norm2;
    var r, s := Mul(q, p), Mul(p, q);
    forall v ensures Rotate(s, v) == Rotate(q, Rotate(p, v)) {
      RotationsCompose(p, q, v);
    }
    if CommentedLaw(q, p) {
      NormIsMultiplicative(q, p);
      NormIsMultiplicative(p, q);
      SameScalar(q, p);
      assert forall v :: Rotate(r, v) == Rotate(s, v);
      SameRotation(r, s);
    }
    if r == s || r == Negated(s) {
      forall v ensures Rotate(r, v) == Rotate(q, Rotate(p, v)) {
        NegatedRotatesAlike(s, v);
      }
    }
  }

  lemma SameScalar(q: Quat, p: Quat)
    ensures Mul(q, p).w == Mul(p, q).w
  {
    hide Mul;
    MulIs(q, p);
    MulIs(p, q);
  }

  lemma NegatedRotatesAlike(q: Quat, v: Vec)
    ensures Rotate(Negated(q), v) == Rotate(q, v)
  {
    hide Rotate, Row;
    RotateIs(q, v);
    RotateIs(Negated(q), v);
    NegatedRow(q.x, q.y, q.z, q.w, v.x, v.y, v.z);
    NegatedRow(q.y, q.z, q.x, q.w, v.y, v.z, v.x);
    NegatedRow(q.z, q.x, q.y, q.w, v.z, v.x, v.y);
  }

  lemma NegatedRow(x: real, y: real, z: real, w: real, v1: real, v2: real, v3: real)
    ensures Row(-x, -y, -z, -w, v1, v2, v3) == Row(x, y, z, w, v1, v2, v3)
  {
  }

  lemma SameRotation(r: Quat, s: Quat)
    requires Norm2(r) == Norm2(s) && r.w == s.w
    requires forall v :: Rotate(r, v) == Rotate(s, v)
    ensures r == s || r == Negated(s)
  {
    hide Rotate, Norm2, Times;
    assert Rotate(r, Vec(1.0, 0.0, 0.0)) == Rotate(s, Vec(1.0, 0.0, 0.0));
    assert Rotate(r, Vec(0.0, 1.0, 0.0)) == Rotate(s, Vec(0.0, 1.0, 0.0));
    assert Rotate(r, Vec(0.0, 0.0, 1.0)) == Rotate(s, Vec(0.0, 0.0, 1.0));
    AxesRotated(r);
    AxesRotated(s);
    if r.w != 0.0 {
      SameWithScalar(r, s);
    } else {
      SameUpToSign(Imag(r), Imag(s));
    }
  }

  /** A product, so named that proofs can keep it closed. */
  function Times(a: real, b: real): real {
    a * b
  }

  lemma SameWithScalar(r: Quat, s: Quat)
    requires r.w == s.w != 0.0
    requires Times(r.w, r.x) == Times(s.w, s.x) && Times(r.w, r.y) == Times(s.w, s.y)
        && Times(r.w, r.z) == Times(s.w, s.z)
    ensures r == s
  {
    hide Times;
    CancelTimes(r.w, r.x, s.x);
    CancelTimes(r.w, r.y, s.y);
    CancelTimes(r.w, r.z, s.z);
    SameQuat(r, s);
  }

  lemma CancelTimes(a: real, b: real, c: real)
    requires a != 0.0 && Times(a, b) == Times(a, c)
    ensures b == c
  {
    Cancel(a, b, c);
  }

  lemma Cancel(a: real, b: real, c: real)
    requires a != 0.0 && a * b == a * c
    ensures b == c
  {
  }

  /** What the images of the axes say about the products of the components. */
  lemma AxesRotated(q: Quat)
    ensures var i, j, k := Rotate(q, Vec(1.0, 0.0, 0.0)), Rotate(q, Vec(0.0, 1.0, 0.0)), Rotate(q, Vec(0.0, 0.0, 1.0));
            && i.y - j.x == 4.0 * Times(q.w, q.z) && i.y + j.x == 4.0 * Times(q.x, q.y)
            && k.x - i.z == 4.0 * Times(q.w, q.y) && k.x + i.z == 4.0 * Times(q.x, q.z)
            && j.z - k.y == 4.0 * Times(q.w, q.x) && j.z + k.y == 4.0 * Times(q.y, q.z)
            && i.x == 2.0 * Times(q.x, q.x) + 2.0 * Times(q.w, q.w) - Norm2(q)
            && j.y == 2.0 * Times(q.y, q.y) + 2.0 * Times(q.w, q.w) - Norm2(q)
            && k.z == 2.0 * Times(q.z, q.z) + 2.0 * Times(q.w, q.w) - Norm2(q)
  {
    hide Rotate, Norm2, Times;
    NormInTimes(q);
    FirstAxis(q);
    SecondAxis(q);
    ThirdAxis(q);
  }

  lemma NormInTimes(q: Quat)
    ensures Norm2(q) == Times(q.x, q.x) + Times(q.y, q.y) + Times(q.z, q.z) + Times(q.w, q.w)
  {
  }

  lemma FirstAxis(q: Quat)
    ensures Rotate(q, Vec(1.0, 0.0, 0.0)).x == Times(q.x, q.x) + Times(q.w, q.w) - Times(q.y, q.y) - Times(q.z, q.z)
    ensures Rotate(q, Vec(1.0, 0.0, 0.0)).y == 2.0 * Times(q.x, q.y) + 2.0 * Times(q.w, q.z)
    ensures Rotate(q, Vec(1.0, 0.0, 0.0)).z == 2.0 * Times(q.x, q.z) - 2.0 * Times(q.w, q.y)
  {
    hide Rotate, Row, Times;
    ProductsCommute(q);
    RotateIs(q, Vec(1.0, 0.0, 0.0));
    RowOfAxis(q.x, q.y, q.z, q.w);
    RowOfAxis(q.y, q.z, q.x, q.w);
    RowOfAxis(q.z, q.x, q.y, q.w);
  }

  lemma SecondAxis(q: Quat)
    ensures Rotate(q, Vec(0.0, 1.0, 0.0)).x == 2.0 * Times(q.x, q.y) - 2.0 * Times(q.w, q.z)
    ensures Rotate(q, Vec(0.0, 1.0, 0.0)).y == Times(q.y, q.y) + Times(q.w, q.w) - Times(q.z, q.z) - Times(q.x, q.x)
    ensures Rotate(q, Vec(0.0, 1.0, 0.0)).z == 2.0 * Times(q.y, q.z) + 2.0 * Times(q.w, q.x)
  {
    hide Rotate, Row, Times;
    ProductsCommute(q);
    RotateIs(q, Vec(0.0, 1.0, 0.0));
    RowOfAxis(q.x, q.y, q.z, q.w);
    RowOfAxis(q.y, q.z, q.x, q.w);
    RowOfAxis(q.z, q.x, q.y, q.w);
  }

  lemma ThirdAxis(q: Quat)
    ensures Rotate(q, Vec(0.0, 0.0, 1.0)).x == 2.0 * Times(q.x, q.z) + 2.0 * Times(q.w, q.y)
    ensures Rotate(q, Vec(0.0, 0.0, 1.0)).y == 2.0 * Times(q.y, q.z) - 2.0 * Times(q.w, q.x)
    ensures Rotate(q, Vec(0.0, 0.0, 1.0)).z == Times(q.z, q.z) + Times(q.w, q.w) - Times(q.x, q.x) - Times(q.y, q.y)
  {
    hide Rotate, Row, Times;
    ProductsCommute(q);
    RotateIs(q, Vec(0.0, 0.0, 1.0));
    RowOfAxis(q.x, q.y, q.z, q.w);
    RowOfAxis(q.y, q.z, q.x, q.w);
    RowOfAxis(q.z, q.x, q.y, q.w);
  }

  lemma RowOfAxis(x: real, y: real, z: real, w: real)
    ensures Row(x, y, z, w, 1.0, 0.0, 0.0) == Times(x, x) + Times(w, w) - Times(y, y) - Times(z, z)
    ensures Row(x, y, z, w, 0.0, 1.0, 0.0) == 2.0 * Times(x, y) - 2.0 * Times(w, z)
    ensures Row(x, y, z, w, 0.0, 0.0, 1.0) == 2.0 * Times(x, z) + 2.0 * Times(w, y)
  {
  }

  lemma ProductsCommute(q: Quat)
    ensures Times(q.y, q.x) == Times(q.x, q.y) && Times(q.z, q.x) == Times(q.x, q.z)
        && Times(q.z, q.y) == Times(q.y, q.z)
  {
  }

  lemma SameUpToSign(u: Vec, t: Vec)
    requires Times(u.x, u.x) == Times(t.x, t.x) && Times(u.y, u.y) == Times(t.y, t.y)
        && Times(u.z, u.z) == Times(t.z, t.z)
    requires Times(u.x, u.y) == Times(t.x, t.y) && Times(u.x, u.z) == Times(t.x, t.z)
        && Times(u.y, u.z) == Times(t.y, t.z)
    ensures u == t || u == Neg(t)
  {
    hide Times;
    SameSquares(u.x, t.x);
    SameSquares(u.y, t.y);
    SameSquares(u.z, t.z);
    if u.x != 0.0 {
      FollowSign(u.x, t.x, u.y, t.y);
      FollowSign(u.x, t.x, u.z, t.z);
    } else if u.y != 0.0 {
      FollowSign(u.y, t.y, u.z, t.z);
    }
  }

  lemma SameSquares(a: real, b: real)
    requires Times(a, a) == Times(b, b)
    ensures a == b || a == -b
  {
    assert (a - b) * (a + b) == 0.0;
    if a != b {
      Cancel(a - b, a + b, 0.0);
    }
  }

  lemma FollowSign(a: real, b: real, c: real, d: real)
    requires a != 0.0 && (a == b || a == -b) && Times(a, c) == Times(b, d)
    ensures a == b ==> c == d
    ensures a == -b ==> c == -d
  {
    if a == b {
      Cancel(a, c, d);
    }
    if a == -b {
      assert a * -d == b * d;
      Cancel(a, c, -d);
    }
  }

  /** Two rotations about different axes for which the comment is wrong. */
  lemma CommentedOrderFails()
    ensures var q, p := Quat(0.6, 0.0, 0.0, 0.8), Quat(0.0, 0.6, 0.0, 0.8);
      Norm2(q) == 1.0 && Norm2(p) == 1.0 && !CommentedLaw(q, p)
  {
    hide CommentedLaw, Mul, Rotate, Cross, Dot, Norm2;
    var q, p := Quat(0.6, 0.0, 0.0, 0.8), Quat(0.0, 0.6, 0.0, 0.8);
    NormIs(q);
    NormIs(p);
    CrossIs(Imag(q), Imag(p));
    CommentedLawIff(q, p);
  }

  // ---------- Matrices ----------

  lemma MatrixRotates(q: Quat, v: Vec)
    requires Norm2(q) == 1.0
    ensures MatVec(ToMatrix(q), v) == Rotate(q, v)
  {
    hide ToMatrix, Rotate, Norm2, Dot;
    Row0Rotates(q, v);
    Row1Rotates(q, v);
    Row2Rotates(q, v);
    SameVec(MatVec(ToMatrix(q), v), Rotate(q, v));
  }

  lemma Row0Rotates(q: Quat, v: Vec)
    requires Norm2(q) == 1.0
    ensures Dot(ToMatrix(q).row0, v) == Rotate(q, v).x
  {
    hide ToMatrix, Rotate, Norm2, Row, Dot;
    var m := ToMatrix(q).row0;
    FirstRowIs(q);
    NormIs(q);
    UnitRow(q.x, q.y, q.z, q.w, v.x, v.y, v.z, m.x, m.y, m.z);
    RotateIs(q, v);
    DotIs(m, v);
  }

  lemma Row1Rotates(q: Quat, v: Vec)
    requires Norm2(q) == 1.0
    ensures Dot(ToMatrix(q).row1, v) == Rotate(q, v).y
  {
    hide ToMatrix, Rotate, Norm2, Row, Dot;
    var m := ToMatrix(q).row1;
    SecondRowIs(q);
    NormIs(q);
    UnitRow(q.y, q.z, q.x, q.w, v.y, v.z, v.x, m.y, m.z, m.x);
    RotateIs(q, v);
    DotIs(m, v);
  }

  lemma Row2Rotates(q: Quat, v: Vec)
    requires Norm2(q) == 1.0
    ensures Dot(ToMatrix(q).row2, v) == Rotate(q, v).z
  {
    hide ToMatrix, Rotate, Norm2, Row, Dot;
    var m := ToMatrix(q).row2;
    ThirdRowIs(q);
    NormIs(q);
    UnitRow(q.z, q.x, q.y, q.w, v.z, v.x, v.y, m.z, m.x, m.y);
    RotateIs(q, v);
    DotIs(m, v);
  }

  lemma FirstRowIs(q: Quat)
    ensures var m := ToMatrix(q).row0;
            && m.x == 1.0 - 2.0 * (q.y * q.y) - 2.0 * (q.z * q.z)
            && m.y == 2.0 * (q.x * q.y) - 2.0 * (q.z * q.w) && m.z == 2.0 * (q.x * q.z) + 2.0 * (q.y * q.w)
  {
  }

  lemma SecondRowIs(q: Quat)
    ensures var m := ToMatrix(q).row1;
            && m.x == 2.0 * (q.x * q.y) + 2.0 * (q.z * q.w)
            && m.y == 1.0 - 2.0 * (q.x * q.x) - 2.0 * (q.z * q.z) && m.z == 2.0 * (q.y * q.z) - 2.0 * (q.x * q.w)
  {
  }

  lemma ThirdRowIs(q: Quat)
    ensures var m := ToMatrix(q).row2;
            && m.x == 2.0 * (q.x * q.z) - 2.0 * (q.y * q.w) && m.y == 2.0 * (q.y * q.z) + 2.0 * (q.x * q.w)
            && m.z == 1.0 - 2.0 * (q.x * q.x) - 2.0 * (q.y * q.y)
  {
  }

  lemma UnitRow(x: real, y: real, z: real, w: real, v1: real, v2: real, v3: real, m1: real, m2: real, m3: real)
    requires x * x + y * y + z * z + w * w == 1.0
    requires m1 == 1.0 - 2.0 * (y * y) - 2.0 * (z * z)
    requires m2 == 2.0 * (x * y) - 2.0 * (z * w) && m3 == 2.0 * (x * z) + 2.0 * (y * w)
    ensures m1 * v1 + m2 * v2 + m3 * v3 == Row(x, y, z, w, v1, v2, v3)
  {
    assert m1 == x * x + w * w - y * y - z * z;
  }

  // Indexing of a matrix, as the loops of its operations see it.

  function RowAt(m: Mat33, i: nat): Vec
    requires i < 3
  {
    if i == 0 then m.row0 else if i == 1 then m.row1 else m.row2
  }

  function At(v: Vec, j: nat): real
    requires j < 3
  {
    if j == 0 then v.x else if j == 1 then v.y else v.z
  }

  function Column(m: Mat33, j: nat): Vec
    requires j < 3
  {
    Vec(At(m.row0, j), At(m.row1, j), At(m.row2, j))
  }

  function RowTimes(row: Vec, m: Mat33): Vec {
    Vec(Dot(row, Column(m, 0)), Dot(row, Column(m, 1)), Dot(row, Column(m, 2)))
  }

  function MatMul(a: Mat33, b: Mat33): Mat33 {
    Mat33(RowTimes(a.row0, b), RowTimes(a.row1, b), RowTimes(a.row2, b))
  }

  predicate Square(m: array2<real>) {
    m.Length0 == 3 && m.Length1 == 3
  }

  function Stored(m: array2<real>): Mat33
    requires Square(m)
    reads m
  {
    Mat33(Vec(m[0, 0], m[0, 1], m[0, 2]), Vec(m[1, 0], m[1, 1], m[1, 2]), Vec(m[2, 0], m[2, 1], m[2, 2]))
  }

  /** The product, element by element: it performs `b`, then `a`. */
  method Multiply(a: array2<real>, b: array2<real>) returns (ab: array2<real>)
    requires Square(a) && Square(b)
    ensures Square(ab) && fresh(ab)
    ensures Stored(ab) == MatMul(Stored(a), Stored(b))
  {
    hide Dot;
    ab := new real[3, 3];
    ghost var left, right := Stored(a), Stored(b);
    for i := 0 to 3
      invariant forall r, c :: 0 <= r < i && 0 <= c < 3 ==> ab[r, c] == Dot(RowAt(left, r), Column(right, c))
    {
      for j := 0 to 3
        invariant forall r, c :: 0 <= r < i && 0 <= c < 3 ==> ab[r, c] == Dot(RowAt(left, r), Column(right, c))
        invariant forall c :: 0 <= c < j ==> ab[i, c] == Dot(RowAt(left, i), Column(right, c))
      {
        var accum := 0.0;
        for k := 0 to 3
          invariant accum == Partial(RowAt(left, i), Column(right, j), k)
        {
          accum := accum + a[i, k] * b[k, j];
        }
        PartialIsDot(RowAt(left, i), Column(right, j));
        ab[i, j] := accum;
      }
    }
  }

  function Partial(a: Vec, b: Vec, n: nat): real
    requires n <= 3
  {
    if n == 0 then 0.0 else Partial(a, b, n - 1) + At(a, n - 1) * At(b, n - 1)
  }

  lemma PartialIsDot(a: Vec, b: Vec)
    ensures Partial(a, b, 3) == Dot(a, b)
  {
    DotIs(a, b);
    assert Partial(a, b, 1) == a.x * b.x;
    assert Partial(a, b, 2) == a.x * b.x + a.y * b.y;
  }

  lemma MatMulComposes(a: Mat33, b: Mat33, v: Vec)
    ensures MatVec(MatMul(a, b), v) == MatVec(a, MatVec(b, v))
  {
    hide RowTimes, Dot;
    RowComposes(a.row0, b, v);
    RowComposes(a.row1, b, v);
    RowComposes(a.row2, b, v);
  }

  lemma RowComposes(row: Vec, b: Mat33, v: Vec)
    ensures Dot(RowTimes(row, b), v) == Dot(row, MatVec(b, v))
  {
    hide Dot;
    var m, n := RowTimes(row, b), MatVec(b, v);
    DotIs(m, v);
    DotIs(row, n);
    DotIs(b.row0, v);
    DotIs(b.row1, v);
    DotIs(b.row2, v);
    DotIs(row, Column(b, 0));
    DotIs(row, Column(b, 1));
    DotIs(row, Column(b, 2));
    RowTimesOnReals(row.x, row.y, row.z, v.x, v.y, v.z, m.x, m.y, m.z, n.x, n.y, n.z,
                    b.row0.x, b.row0.y, b.row0.z, b.row1.x, b.row1.y, b.row1.z, b.row2.x, b.row2.y, b.row2.z);
  }

  lemma RowTimesOnReals(r1: real, r2: real, r3: real, v1: real, v2: real, v3: real,
                        m1: real, m2: real, m3: real, n1: real, n2: real, n3: real,
                        b1: real, b2: real, b3: real, b4: real, b5: real, b6: real, b7: real, b8: real, b9: real)
    requires m1 == r1 * b1 + r2 * b4 + r3 * b7 && m2 == r1 * b2 + r2 * b5 + r3 * b8 && m3 == r1 * b3 + r2 * b6 + r3 * b9
    requires n1 == b1 * v1 + b2 * v2 + b3 * v3 && n2 == b4 * v1 + b5 * v2 + b6 * v3 && n3 == b7 * v1 + b8 * v2 + b9 * v3
    ensures m1 * v1 + m2 * v2 + m3 * v3 == r1 * n1 + r2 * n2 + r3 * n3
  {
  }

  /** Matrices that act alike are alike. */
  lemma MatrixByAction(a: Mat33, b: Mat33)
    requires forall v :: MatVec(a, v) == MatVec(b, v)
    ensures a == b
  {
    hide Dot;
    var i, j, k := Vec(1.0, 0.0, 0.0), Vec(0.0, 1.0, 0.0), Vec(0.0, 0.0, 1.0);
    assert MatVec(a, i) == MatVec(b, i) && MatVec(a, j) == MatVec(b, j) && MatVec(a, k) == MatVec(b, k);
    OnAxes(a.row0);
    OnAxes(a.row1);
    OnAxes(a.row2);
    OnAxes(b.row0);
    OnAxes(b.row1);
    OnAxes(b.row2);
  }

  lemma OnAxes(row: Vec)
    ensures Dot(row, Vec(1.0, 0.0, 0.0)) == row.x
    ensures Dot(row, Vec(0.0, 1.0, 0.0)) == row.y
    ensures Dot(row, Vec(0.0, 0.0, 1.0)) == row.z
  {
  }

  lemma MatrixOfProduct(q: Quat, p: Quat)
    requires Norm2(q) == 1.0 && Norm2(p) == 1.0
    ensures ToMatrix(Mul(q, p)) == MatMul(ToMatrix(p), ToMatrix(q))
  {
    hide Mul, Rotate, ToMatrix, MatMul, MatVec, Norm2;
    var a, b := ToMatrix(Mul(q, p)), MatMul(ToMatrix(p), ToMatrix(q));
    NormIsMultiplicative(q, p);
    forall v ensures MatVec(a, v) == MatVec(b, v) {
      MatrixRotates(Mul(q, p), v);
      RotationsCompose(q, p, v);
      MatrixRotates(q, v);
      MatrixRotates(p, Rotate(q, v));
      MatMulComposes(ToMatrix(p), ToMatrix(q), v);
    }
    MatrixByAction(a, b);
  }
}
