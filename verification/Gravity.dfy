/** Three implementations of one rotation: the direction of gravity in the frame of the body. Floats
    are exact reals; a square root is any positive number with the right square. */
module Gravity {
  import opened Options

  datatype Quaternion = Quaternion(w: real, x: real, y: real, z: real)
  datatype Vector = Vector(x: real, y: real, z: real)

  const IDENTITY := Quaternion(1.0, 0.0, 0.0, 0.0)
  const TINY := 0.000000000001

  function SquaredNorm(q: Quaternion): real {
    q.w * q.w + q.x * q.x + q.y * q.y + q.z * q.z
  }

  function SquaredLength(v: Vector): real {
    v.x * v.x + v.y * v.y + v.z * v.z
  }

  function Negated(q: Quaternion): Quaternion {
    Quaternion(-q.w, -q.x, -q.y, -q.z)
  }

  function Swapped(v: Vector): Vector {
    Vector(v.y, v.x, v.z)
  }

  /** `n` is the norm of `q`. */
  predicate IsNorm(n: real, q: Quaternion) {
    n >= 0.0 && n * n == SquaredNorm(q)
  }

  function Scaled(q: Quaternion, n: real): Quaternion
    requires n != 0.0
  {
    Quaternion(q.w / n, q.x / n, q.y / n, q.z / n)
  }

  /** The normalisation of the IMU driver and of the dashboard. */
  function Normalize(q: Quaternion, n: real): Quaternion
    requires IsNorm(n, q)
  {
    if n < TINY then IDENTITY else Scaled(q, n)
  }

  /** `_projected_gravity_from_xyzw` of the IMU driver, on components in its order. */
  function FromXyzw(qx: real, qy: real, qz: real, qw: real): Vector {
    var (vx, vy, vz) := (0.0, 0.0, -1.0);
    var tx := 2.0 * (qy * vz - qz * vy);
    var ty := 2.0 * (qz * vx - qx * vz);
    var tz := 2.0 * (qx * vy - qy * vx);
    var vpx := vx - qw * tx + (qy * tz - qz * ty);
    var vpy := vy - qw * ty + (qz * tx - qx * tz);
    var vpz := vz - qw * tz + (qx * ty - qy * tx);
    Vector(vpy, vpx, vpz)
  }

  /** `projected_gravity_from_wxyz` of the dashboard, on components in its order. */
  function FromWxyz(qw: real, qx: real, qy: real, qz: real): Vector {
    var (vx, vy, vz) := (0.0, 0.0, -1.0);
    var tx := 2.0 * (qy * vz - qz * vy);
    var ty := 2.0 * (qz * vx - qx * vz);
    var tz := 2.0 * (qx * vy - qy * vx);
    var vpx := vx - qw * tx + (qy * tz - qz * ty);
    var vpy := vy - qw * ty + (qz * tx - qx * tz);
    var vpz := vz - qw * tz + (qx * ty - qy * tx);
    Vector(vpy, vpx, vpz)
  }

  // ----- The policy's rotation matrix -----

  datatype Matrix = Matrix(row1: Vector, row2: Vector, row3: Vector)

  function Rotation(q: Quaternion): Matrix {
    Matrix(
      Vector(1.0 - 2.0 * (q.y * q.y + q.z * q.z), 2.0 * (q.x * q.y - q.z * q.w), 2.0 * (q.x * q.z + q.y * q.w)),
      Vector(2.0 * (q.x * q.y + q.z * q.w), 1.0 - 2.0 * (q.x * q.x + q.z * q.z), 2.0 * (q.y * q.z - q.x * q.w)),
      ThirdRow(q))
  }

  function ThirdRow(q: Quaternion): Vector {
    Vector(2.0 * (q.x * q.z - q.y * q.w), 2.0 * (q.y * q.z + q.x * q.w), 1.0 - 2.0 * (q.x * q.x + q.y * q.y))
  }

  function Opposite(v: Vector): Vector {
    Vector(-v.x, -v.y, -v.z)
  }

  function Transposed(m: Matrix): Matrix {
    Matrix(Vector(m.row1.x, m.row2.x, m.row3.x), Vector(m.row1.y, m.row2.y, m.row3.y),
           Vector(m.row1.z, m.row2.z, m.row3.z))
  }

  function Dot(a: Vector, b: Vector): real {
    a.x * b.x + a.y * b.y + a.z * b.z
  }

  function Apply(m: Matrix, v: Vector): Vector {
    Vector(Dot(m.row1, v), Dot(m.row2, v), Dot(m.row3, v))
  }

  const DOWN := Vector(0.0, 0.0, -1.0)

  /** `_quat_to_projected_gravity` of the policy: `None` where it divides by zero. */
  function PolicyGravity(q: Quaternion, n: real): Option<Vector>
    requires IsNorm(n, q)
  {
    if n == 0.0 then None else Some(Apply(Transposed(Rotation(Scaled(q, n))), DOWN))
  }

  /** Both decoders normalise only if they are told to. */
  function Prepared(q: Quaternion, n: real, normalize: bool): Quaternion
    requires IsNorm(n, q)
  {
    if normalize then Normalize(q, n) else q
  }

  /** What the IMU driver reports. */
  function DriverGravity(q: Quaternion, n: real, normalize: bool): Vector
    requires IsNorm(n, q)
  {
    var u := Prepared(q, n, normalize);
    FromXyzw(u.x, u.y, u.z, u.w)
  }

  /** What the dashboard shows. */
  function DashboardGravity(q: Quaternion, n: real, normalize: bool): Vector
    requires IsNorm(n, q)
  {
    var u := Prepared(q, n, normalize);
    FromWxyz(u.w, u.x, u.y, u.z)
  }

  // ----- What is meant: the rotation of a vector by a quaternion -----

  function Times(a: Quaternion, b: Quaternion): Quaternion {
    Quaternion(
      a.w * b.w - a.x * b.x - a.y * b.y - a.z * b.z,
      a.w * b.x + a.x * b.w + a.y * b.z - a.z * b.y,
      a.w * b.y - a.x * b.z + a.y * b.w + a.z * b.x,
      a.w * b.z + a.x * b.y - a.y * b.x + a.z * b.w)
  }

  function Conjugate(q: Quaternion): Quaternion {
    Quaternion(q.w, -q.x, -q.y, -q.z)
  }

  /** The attitude `q` takes vectors of the body to the world as `q v q*`; gravity goes the other
      way, as `q* v q`. */
  function InBody(q: Quaternion, v: Vector): Quaternion {
    Times(Times(Conjugate(q), Quaternion(0.0, v.x, v.y, v.z)), q)
  }

  /** The policy's matrix formula is that rotation. */
  lemma PolicyRotates(q: Quaternion)
    requires SquaredNorm(q) == 1.0
    ensures var v := Apply(Transposed(Rotation(q)), DOWN); InBody(q, DOWN) == Quaternion(0.0, v.x, v.y, v.z)
  {
    InBodyIs(q);
    MatrixGivesRow(q);
  }

  lemma MatrixGivesRow(q: Quaternion)
    ensures Apply(Transposed(Rotation(q)), DOWN) == Opposite(ThirdRow(q))
  {
    ThirdRowIs(Rotation(q));
  }

  lemma InBodyIs(q: Quaternion)
    requires SquaredNorm(q) == 1.0
    ensures var v := Opposite(ThirdRow(q)); InBody(q, DOWN) == Quaternion(0.0, v.x, v.y, v.z)
  {
    Products(q.w, q.x, q.y, q.z);
    UnitRow(q.w * q.w, q.x * q.x, q.y * q.y, q.z * q.z);
  }

  lemma Products(w: real, x: real, y: real, z: real)
    ensures InBody(Quaternion(w, x, y, z), DOWN)
            == Quaternion(0.0, -(2.0 * (x * z - y * w)), -(2.0 * (y * z + x * w)), x * x + y * y - (w * w + z * z))
  {
    ConjugateTimesDown(w, x, y, z);
    TimesAgain(w, x, y, z);
  }

  lemma ConjugateTimesDown(w: real, x: real, y: real, z: real)
    ensures Times(Quaternion(w, -x, -y, -z), Quaternion(0.0, 0.0, 0.0, -1.0)) == Quaternion(-z, y, -x, -w)
  {
  }

  lemma TimesAgain(w: real, x: real, y: real, z: real)
    ensures Times(Quaternion(-z, y, -x, -w), Quaternion(w, x, y, z))
            == Quaternion(0.0, -(2.0 * (x * z - y * w)), -(2.0 * (y * z + x * w)), x * x + y * y - (w * w + z * z))
  {
  }

  lemma UnitRow(ww: real, xx: real, yy: real, zz: real)
    requires ww + xx + yy + zz == 1.0
    ensures xx + yy - (ww + zz) == -(1.0 - 2.0 * (xx + yy))
  {
  }

  // ----- One rotation -----

  /** What both vector formulas compute. */
  lemma ProjectionIs(q: Quaternion)
    ensures FromXyzw(q.x, q.y, q.z, q.w) == FromWxyz(q.w, q.x, q.y, q.z)
    ensures FromWxyz(q.w, q.x, q.y, q.z)
            == Vector(-2.0 * (q.w * q.x + q.y * q.z), 2.0 * (q.w * q.y - q.x * q.z),
                      2.0 * (q.x * q.x + q.y * q.y) - 1.0)
  {
  }

  /** The matrix formula is the same rotation, without the exchange of the first two axes. */
  lemma MatrixIsSwapped(q: Quaternion)
    ensures Apply(Transposed(Rotation(q)), DOWN) == Swapped(FromWxyz(q.w, q.x, q.y, q.z))
  {
    MatrixGivesRow(q);
    RowIsSwapped(q);
  }

  lemma RowIsSwapped(q: Quaternion)
    ensures Opposite(ThirdRow(q)) == Swapped(FromWxyz(q.w, q.x, q.y, q.z))
  {
    ProjectionIs(q);
  }

  lemma ThirdRowIs(m: Matrix)
    ensures Apply(Transposed(m), DOWN) == Opposite(m.row3)
  {
  }

  lemma ScaledIsUnit(q: Quaternion, n: real)
    requires n > 0.0 && n * n == SquaredNorm(q)
    ensures SquaredNorm(Scaled(q, n)) == 1.0
  {
    var u, m := Scaled(q, n), n * n;
    Square(n, m);
    assert m > 0.0;
    var (a, b, c, d) := (u.w * u.w, u.x * u.x, u.y * u.y, u.z * u.z);
    Quotient(q.w, n, m, a);
    Quotient(q.x, n, m, b);
    Quotient(q.y, n, m, c);
    Quotient(q.z, n, m, d);
    var s := a + b + c + d;
    Distribute(a, b, c, d, s, m);
    assert SquaredNorm(u) == s;
    assert m == SquaredNorm(q) && s * m == SquaredNorm(q);
    UnitFactor(s, m, SquaredNorm(q));
  }

  lemma Quotient(a: real, n: real, m: real, s: real)
    requires n > 0.0 && m == n * n && s == (a / n) * (a / n)
    ensures s * m == a * a
  {
    var u := a / n;
    assert u * n == a;
    assert u * u * m == (u * n) * (u * n);
  }

  lemma Distribute(a: real, b: real, c: real, d: real, s: real, m: real)
    requires s == a + b + c + d
    ensures s * m == a * m + b * m + c * m + d * m
  {
  }

  lemma Product(a: real, b: real, s: real)
    requires s == a * b
    ensures (a > 0.0 && b > 0.0) || (a < 0.0 && b < 0.0) ==> s > 0.0
    ensures s == 0.0 <==> a == 0.0 || b == 0.0
  {
  }

  lemma Square(a: real, s: real)
    requires s == a * a
    ensures s >= 0.0 && (s == 0.0 <==> a == 0.0)
  {
    Product(a, a, s);
  }

  lemma UnitFactor(s: real, m: real, k: real)
    requires s * m == k && m == k && k > 0.0
    ensures s == 1.0
  {
    Product(s - 1.0, m, (s - 1.0) * m);
  }

  /** The length of the projection of any quaternion: 1 for a unit quaternion, and otherwise off by a
      term that vanishes with x and y. */
  lemma LengthIs(q: Quaternion, s: real)
    requires s == q.x * q.x + q.y * q.y
    ensures SquaredLength(FromWxyz(q.w, q.x, q.y, q.z)) == 1.0 + 4.0 * (s * (SquaredNorm(q) - 1.0))
  {
    ProjectionIs(q);
    var (w, x, y, z) := (q.w, q.x, q.y, q.z);
    var a, b, r := w * x + y * z, w * y - x * z, w * w + z * z;
    LagrangeIdentity(w, x, y, z);
    assert SquaredNorm(q) == r + s;
    LengthSum(s, r, r + s, a * a + b * b);
    assert (-2.0 * a) * (-2.0 * a) == 4.0 * (a * a);
    assert (2.0 * b) * (2.0 * b) == 4.0 * (b * b);
  }

  lemma LagrangeIdentity(w: real, x: real, y: real, z: real)
    ensures (w * x + y * z) * (w * x + y * z) + (w * y - x * z) * (w * y - x * z) == (w * w + z * z) * (x * x + y * y)
  {
  }

  lemma LengthSum(s: real, r: real, m: real, t: real)
    requires t == r * s && m == r + s
    ensures 4.0 * t + (2.0 * s - 1.0) * (2.0 * s - 1.0) == 1.0 + 4.0 * (s * (m - 1.0))
  {
  }

  lemma NegatedNorm(q: Quaternion)
    ensures SquaredNorm(Negated(q)) == SquaredNorm(q)
  {
  }

  lemma NegatedScaled(q: Quaternion, n: real)
    requires n != 0.0
    ensures Scaled(Negated(q), n) == Negated(Scaled(q, n))
  {
  }

  lemma NegatedProjection(q: Quaternion)
    ensures var m := Negated(q); FromWxyz(m.w, m.x, m.y, m.z) == FromWxyz(q.w, q.x, q.y, q.z)
  {
    ProjectionIs(q);
    ProjectionIs(Negated(q));
  }

  lemma Norm1(n: real, m: real)
    requires n >= 0.0 && m == n * n
    ensures m - 1.0 == 0.0 <==> n == 1.0
  {
    Product(n - 1.0, n + 1.0, m - 1.0);
  }

  /** Main result: whatever the quaternion and whether or not it is normalised, the driver and the
      dashboard agree. Their gravity has length 1 if and only if they normalise, or the quaternion
      is a unit one, or it turns about the vertical only. */
  lemma DriverIsDashboard(q: Quaternion, n: real, normalize: bool)
    requires IsNorm(n, q)
    ensures DriverGravity(q, n, normalize) == DashboardGravity(q, n, normalize)
    ensures SquaredLength(DriverGravity(q, n, normalize)) == 1.0
            <==> normalize || n == 1.0 || (q.x == 0.0 && q.y == 0.0)
  {
    var u := Prepared(q, n, normalize);
    var s := u.x * u.x + u.y * u.y;
    ProjectionIs(u);
    LengthIs(u, s);
    if normalize {
      if n >= TINY { ScaledIsUnit(q, n); }
      Product(s, SquaredNorm(u) - 1.0, s * (SquaredNorm(u) - 1.0));
    } else {
      Norm1(n, SquaredNorm(q));
      Product(s, SquaredNorm(u) - 1.0, s * (SquaredNorm(u) - 1.0));
      SquaresVanish(q.x, q.y, s);
    }
  }

  /** Main result: a quaternion and its negative, which stand for the same attitude, give the same
      gravity in all three implementations. */
  lemma SignIsIdle(q: Quaternion, n: real, normalize: bool)
    requires IsNorm(n, q)
    ensures IsNorm(n, Negated(q))
    ensures DriverGravity(Negated(q), n, normalize) == DriverGravity(q, n, normalize)
    ensures DashboardGravity(Negated(q), n, normalize) == DashboardGravity(q, n, normalize)
    ensures PolicyGravity(Negated(q), n) == PolicyGravity(q, n)
  {
    NegatedNorm(q);
    DriverIsDashboard(q, n, normalize);
    DriverIsDashboard(Negated(q), n, normalize);
    NegatedProjection(q);
    if n > 0.0 {
      NegatedScaled(q, n);
      var u := Scaled(q, n);
      NegatedProjection(u);
      MatrixIsSwapped(u);
      MatrixIsSwapped(Negated(u));
    }
  }

  /** Main result: the policy agrees with a driver that normalises, up to the exchange of the first
      two axes, if and only if the quaternion is not tiny, or is tiny, not zero, and turns about the
      vertical only. */
  lemma PolicyAgrees(q: Quaternion, n: real)
    requires IsNorm(n, q)
    ensures PolicyGravity(q, n) == Some(Swapped(DriverGravity(q, n, true)))
            <==> n >= 0.000000000001 || (n > 0.0 && q.x == 0.0 && q.y == 0.0)
  {
    DriverIsDashboard(q, n, true);
    if n > 0.0 {
      var u := Scaled(q, n);
      MatrixIsSwapped(u);
      if n < TINY {
        ProjectionIs(u);
        ProjectionIs(IDENTITY);
        TinyAgrees(q, n);
      }
    }
  }

  /** With a driver that does not normalise it agrees if and only if the quaternion is a unit one, or
      is not zero and turns about the vertical only. */
  lemma PolicyAgreesUnprepared(q: Quaternion, n: real)
    requires IsNorm(n, q)
    ensures PolicyGravity(q, n) == Some(Swapped(DriverGravity(q, n, false)))
            <==> n == 1.0 || (n > 0.0 && q.x == 0.0 && q.y == 0.0)
  {
    DriverIsDashboard(q, n, false);
    if n > 0.0 {
      var u := Scaled(q, n);
      MatrixIsSwapped(u);
      ProjectionIs(u);
      ProjectionIs(q);
      if FromWxyz(u.w, u.x, u.y, u.z) == FromWxyz(q.w, q.x, q.y, q.z) {
        ScaledKeepsTilt(q, n, q.x * q.x + q.y * q.y);
      }
      ZeroQuotient(q.x, n);
      ZeroQuotient(q.y, n);
    }
  }

  lemma ScaledKeepsTilt(q: Quaternion, n: real, s: real)
    requires n > 0.0 && s == q.x * q.x + q.y * q.y
    requires Scaled(q, n).x * Scaled(q, n).x + Scaled(q, n).y * Scaled(q, n).y == s
    ensures n == 1.0 || (q.x == 0.0 && q.y == 0.0)
  {
    var u, m := Scaled(q, n), n * n;
    var (a, b) := (u.x * u.x, u.y * u.y);
    Quotient(q.x, n, m, a);
    Quotient(q.y, n, m, b);
    SumTimes(a, b, s, m);
    Product(s, m - 1.0, s * (m - 1.0));
    Norm1(n, m);
    SquaresVanish(q.x, q.y, s);
  }

  lemma SumTimes(a: real, b: real, s: real, m: real)
    requires s == a + b && a * m + b * m == s
    ensures s * (m - 1.0) == 0.0
  {
  }

  /** A rotation leaves gravity where the identity puts it exactly if it turns about that axis. */
  lemma TinyAgrees(q: Quaternion, n: real)
    requires n > 0.0
    ensures var u := Scaled(q, n);
            FromWxyz(u.w, u.x, u.y, u.z) == FromWxyz(1.0, 0.0, 0.0, 0.0) <==> q.x == 0.0 && q.y == 0.0
  {
    var u := Scaled(q, n);
    ProjectionIs(u);
    ProjectionIs(IDENTITY);
    SquaresVanish(u.x, u.y, u.x * u.x + u.y * u.y);
    assert u.x * n == q.x && u.y * n == q.y;
    ZeroQuotient(q.x, n);
    ZeroQuotient(q.y, n);
  }

  lemma SquaresVanish(a: real, b: real, sum: real)
    requires sum == a * a + b * b
    ensures sum == 0.0 <==> a == 0.0 && b == 0.0
  {
    var s, t := a * a, b * b;
    Square(a, s);
    Square(b, t);
    SumVanishes(s, t);
  }

  lemma SumVanishes(s: real, t: real)
    requires s >= 0.0 && t >= 0.0
    ensures s + t == 0.0 <==> s == 0.0 && t == 0.0
  {
  }

  lemma ZeroQuotient(a: real, n: real)
    requires n > 0.0
    ensures a / n == 0.0 <==> a == 0.0
  {
    assert a / n * n == a;
  }
}
