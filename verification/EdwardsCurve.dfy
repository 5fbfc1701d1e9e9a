// The twisted Edwards curve -x^2 + y^2 = 1 + d x^2 y^2 over a prime field where -1 is a square and
// d is not: its affine addition law has no exceptional case and is closed.
module EdwardsCurve {
  import opened NumberTheory
  import opened PrimeField

  // The modulus, the curve constant, a square root of -1, and a square root of 2 d. The last one
  // witnesses that d is not a square, because 2 is not.
  datatype Curve = Curve(p: nat, d: int, i: int, t: int)

  ghost predicate Good(c: Curve)
  {
    RootedPrime(c.p, c.i) && Same(2 * c.d, c.t * c.t, c.p) && !Zero(c.d, c.p)
  }

  datatype Affine = Affine(x: int, y: int)

  function Equation(d: int, x: int, y: int): int
  {
    y * y - x * x - 1 - d * (x * y) * (x * y)
  }

  ghost predicate Satisfies(c: Curve, a: Affine)
  {
    Zero(Equation(c.d, a.x, a.y), c.p)
  }

  // A canonical affine point of the curve.
  ghost predicate OnCurve(c: Curve, a: Affine)
  {
    0 <= a.x < c.p && 0 <= a.y < c.p && Satisfies(c, a)
  }

  const NEUTRAL := Affine(0, 1)

  // The numerators and the denominator term of a sum.
  function CrossX(a: Affine, b: Affine): int { a.x * b.y + a.y * b.x }
  function CrossY(a: Affine, b: Affine): int { a.y * b.y + a.x * b.x }
  function Twist(d: int, a: Affine, b: Affine): int { d * (a.x * a.y) * (b.x * b.y) }

  // The affine sum of section 5.1.4 of RFC 8032.
  ghost function Sum(c: Curve, a: Affine, b: Affine): Affine
    requires c.p >= 2
  {
    Affine(Quot(CrossX(a, b), 1 + Twist(c.d, a, b), c.p), Quot(CrossY(a, b), 1 - Twist(c.d, a, b), c.p))
  }

  ghost function Opposite(c: Curve, a: Affine): Affine
    requires c.p >= 2
  {
    Affine((-a.x) % c.p, a.y)
  }

  // -------------------------------------------------------- completeness

  // The curve constant is not a square: d k^2 = n^2 forces k = 0, because then 2 n^2 = (t k)^2.
  lemma ConstantNotSquare(c: Curve, k: int, n: int)
    requires Good(c) && Same(c.d * (k * k), n * n, c.p)
    ensures Zero(k, c.p)
  {
    var p, d, t := c.p, c.d, c.t;
    ConstantIdentity(d, t, k, n);
    Linear(d * (k * k) - n * n, -2, 2 * d - t * t, k * k, p);
    TwoNotSquare(p, c.i, n, t * k);
    Scale(n, n, p);
    SameZero(d * (k * k), n * n, p);
    ZeroProduct(d, k * k, p);
    ZeroProduct(k, k, p);
  }

  lemma ConstantIdentity(d: int, t: int, k: int, n: int)
    ensures (d * (k * k) - n * n) * -2 + (2 * d - t * t) * (k * k) == 2 * (n * n) - (t * k) * (t * k)
  {}

  // If the twist term were e with e^2 = 1, then d (x1 y1 (i x2 + y2))^2 = (i x1 + e y1)^2.
  lemma ExceptionalSquare(p: nat, d: int, a: Affine, b: Affine, e: int, i: int)
    requires Zero(Equation(d, a.x, a.y), p) && Zero(Equation(d, b.x, b.y), p)
    requires e * e == 1 && Zero(i * i + 1, p) && Zero(Twist(d, a, b) - e, p)
    ensures (var k, n := (a.x * a.y) * (i * b.x + b.y), i * a.x + e * a.y;
             Same(d * (k * k), n * n, p))
  {
    var q := a.x * a.y;
    var u := d * q * q;
    var f, g, j, m := Equation(d, a.x, a.y), Equation(d, b.x, b.y), i * i + 1, Twist(d, a, b) - e;
    var v, s := a.x * a.x - u * (b.x * b.x), e + Twist(d, a, b) + 2 * i * q;
    ExceptionalIdentity(d, a.x, a.y, b.x, b.y, e, i);
    TwistProducts(d, q, b.x * b.y);
    Linear(f, -1, g, u, p);
    Linear(j, -v, m, s, p);
    Add(f * -1 + g * u, j * -v + m * s, p);
  }

  lemma ExceptionalIdentity(d: int, x: int, y: int, z: int, w: int, e: int, i: int)
    requires e * e == 1
    ensures (var q, r, j := x * y, z * w, i * i + 1;
             var c, u, k, n := d * q * r, d * q * q, q * (i * z + w), i * x + e * y;
             d * (k * k) - n * n
             == (y * y - x * x - 1 - d * q * q) * -1 + (w * w - z * z - 1 - d * r * r) * u
                + (j * -(x * x - u * (z * z)) + (c - e) * (e + c + 2 * i * q)))
  {
    var q, r := x * y, z * w;
    SquareOfSum(i, x, e, y);
    SquareOfSum(i, z, 1, w);
    ScaledSquare(d, q, i * z + w);
    TwistProducts(d, q, r);
    ExceptionalTail(i, e, d * q * r, d * q * q, q, r, x * x, y * y, z * z, w * w, d * (r * r),
                    (i * z + w) * (i * z + w), (i * x + e * y) * (i * x + e * y));
  }

  lemma SquareOfSum(i: int, x: int, e: int, y: int)
    ensures (i * x + e * y) * (i * x + e * y) == (i * i) * (x * x) + 2 * i * e * (x * y) + (e * e) * (y * y)
  {}

  lemma ScaledSquare(d: int, q: int, m: int)
    ensures d * ((q * m) * (q * m)) == (d * q * q) * (m * m)
  {}

  lemma TwistProducts(d: int, q: int, r: int)
    ensures (d * q * q) * r == (d * q * r) * q
    ensures (d * q * q) * (d * (r * r)) == (d * q * r) * (d * q * r)
    ensures d * r * r == d * (r * r)
  {}

  lemma ExceptionalTail(i: int, e: int, c: int, u: int, q: int, r: int,
                        xx: int, yy: int, zz: int, ww: int, dr: int, k: int, n: int)
    requires e * e == 1 && u * r == c * q && u * dr == c * c
    requires k == (i * i) * zz + 2 * i * r + ww
    requires n == (i * i) * xx + 2 * i * e * q + yy
    ensures u * k - n == (yy - xx - 1 - u) * -1 + (ww - zz - 1 - dr) * u
                         + ((i * i + 1) * -(xx - u * zz) + (c - e) * (e + c + 2 * i * q))
  {
    assert (c - e) * (e + c + 2 * i * q) == c * c - 1 + 2 * i * (c * q) - 2 * i * e * q;
    assert u * k == u * ((i * i) * zz) + 2 * i * (u * r) + u * ww;
  }

  lemma ExceptionalFactor(c: Curve, a: Affine, b: Affine, e: int, i: int)
    requires Good(c) && Satisfies(c, a) && Satisfies(c, b) && e * e == 1 && Zero(i * i + 1, c.p)
    requires Same(Twist(c.d, a, b), e, c.p)
    ensures Zero((a.x * a.y) * (i * b.x + b.y), c.p)
  {
    ExceptionalSquare(c.p, c.d, a, b, e, i);
    ConstantNotSquare(c, (a.x * a.y) * (i * b.x + b.y), i * a.x + e * a.y);
  }

  lemma BothFactors(p: nat, q: int, z: int, w: int, i: int)
    requires Prime(p) && p > 2
    requires Zero(q * (i * z + w), p) && Zero(q * (-i * z + w), p)
    ensures Zero(q, p) || Zero(w, p)
  {
    ZeroProduct(q, i * z + w, p);
    ZeroProduct(q, -i * z + w, p);
    if !Zero(q, p) {
      Add(i * z + w, -i * z + w, p);
      assert (i * z + w) + (-i * z + w) == 2 * w;
      SmallNonZero(2, p);
      ZeroProduct(2, w, p);
    }
  }

  lemma TwistVanishes(p: nat, d: int, q: int, z: int, w: int)
    requires Zero(q, p) || Zero(w, p)
    ensures Zero(d * q * (z * w), p)
  {
    if Zero(q, p) {
      Scale(q, d * (z * w), p);
      assert q * (d * (z * w)) == d * q * (z * w);
    } else {
      Scale(w, d * q * z, p);
      assert w * (d * q * z) == d * q * (z * w);
    }
  }

  // No addition on the curve has an exceptional case: the twist term is never 1 or -1.
  lemma TwistNotUnit(c: Curve, a: Affine, b: Affine, e: int)
    requires Good(c) && Satisfies(c, a) && Satisfies(c, b) && (e == 1 || e == -1)
    ensures !Same(Twist(c.d, a, b), e, c.p)
  {
    if Same(Twist(c.d, a, b), e, c.p) {
      assert -c.i * -c.i == c.i * c.i;
      ExceptionalFactor(c, a, b, e, c.i);
      ExceptionalFactor(c, a, b, e, -c.i);
      BothFactors(c.p, a.x * a.y, b.x, b.y, c.i);
      TwistVanishes(c.p, c.d, a.x * a.y, b.x, b.y);
      SameZero(Twist(c.d, a, b), e, c.p);
      SmallNonZero(1, c.p);
    }
  }

  lemma Complete(c: Curve, a: Affine, b: Affine)
    requires Good(c) && Satisfies(c, a) && Satisfies(c, b)
    ensures !Zero(1 + Twist(c.d, a, b), c.p) && !Zero(1 - Twist(c.d, a, b), c.p)
  {
    TwistNotUnit(c, a, b, 1);
    TwistNotUnit(c, a, b, -1);
    if Zero(1 - Twist(c.d, a, b), c.p) {
      SameSym(1, Twist(c.d, a, b), c.p);
    }
  }

  // ------------------------------------------------------------- closure

  // h^2 (1 + c)^2 - e^2 (1 - c)^2 = (1 - c^2)^2 + d e^2 h^2 on the curve.
  lemma ClosureIdentity(p: nat, d: int, a: Affine, b: Affine)
    requires Zero(Equation(d, a.x, a.y), p) && Zero(Equation(d, b.x, b.y), p)
    ensures (var e, h, c := CrossX(a, b), CrossY(a, b), Twist(d, a, b);
             Zero(h * h * ((1 + c) * (1 + c)) - e * e * ((1 - c) * (1 - c))
                  - (1 - c * c) * (1 - c * c) - d * (e * h) * (e * h), p))
  {
    var q, r := a.x * a.y, b.x * b.y;
    var f, g, u, v := Equation(d, a.x, a.y), Equation(d, b.x, b.y), d * q * q, d * r * r;
    SquareIdentities(a.x, a.y, b.x, b.y);
    ClosureReduction(CrossX(a, b), CrossY(a, b), q, r, a.x * a.x + a.y * a.y, b.x * b.x + b.y * b.y,
                     1 + u + f, 1 + v + g, d);
    ClosureCore(u, v, f, g);
    Linear(f, (1 + v + g) * (1 + u * v) - v * (2 * (1 + u) + f),
           g, (1 + u) * (1 + u * v) - u * (2 * (1 + v) + g), p);
  }

  lemma SquareIdentities(x: int, y: int, z: int, w: int)
    ensures (var e, h, q, r := x * w + y * z, y * w + x * z, x * y, z * w;
             var s, t, m, n := x * x + y * y, z * z + w * w, y * y - x * x, w * w - z * z;
             && h * h - e * e == m * n
             && h * h + e * e == s * t + 4 * (q * r)
             && e * h == q * t + r * s
             && s * s == m * m + 4 * (q * q)
             && t * t == n * n + 4 * (r * r))
  {
    DifferenceOfCrosses(x, y, z, w);
    SumOfCrosses(x, y, z, w);
    ProductOfCrosses(x, y, z, w);
    SumAndDifference(x, y);
    SumAndDifference(z, w);
  }

  lemma SumAndDifference(x: int, y: int)
    ensures (x * x + y * y) * (x * x + y * y) == (y * y - x * x) * (y * y - x * x) + 4 * ((x * y) * (x * y))
  {
    var a, b := x * x, y * y;
    assert (x * y) * (x * y) == a * b;
    assert (a + b) * (a + b) == (b - a) * (b - a) + 4 * (a * b);
  }

  lemma DifferenceOfCrosses(x: int, y: int, z: int, w: int)
    ensures (y * w + x * z) * (y * w + x * z) - (x * w + y * z) * (x * w + y * z) == (y * y - x * x) * (w * w - z * z)
  {
    SquareOfTwo(y, w, x, z);
    SquareOfTwo(x, w, y, z);
    assert (y * w) * (x * z) == (x * w) * (y * z);
    assert (y * y - x * x) * (w * w - z * z) == (y * y) * (w * w) - (y * y) * (z * z) - (x * x) * (w * w) + (x * x) * (z * z);
  }

  lemma SumOfCrosses(x: int, y: int, z: int, w: int)
    ensures (y * w + x * z) * (y * w + x * z) + (x * w + y * z) * (x * w + y * z)
         == (x * x + y * y) * (z * z + w * w) + 4 * ((x * y) * (z * w))
  {
    SquareOfTwo(y, w, x, z);
    SquareOfTwo(x, w, y, z);
    assert (y * w) * (x * z) == (x * y) * (z * w) && (x * w) * (y * z) == (x * y) * (z * w);
    assert (x * x + y * y) * (z * z + w * w) == (x * x) * (z * z) + (x * x) * (w * w) + (y * y) * (z * z) + (y * y) * (w * w);
  }

  lemma SquareOfTwo(a: int, b: int, c: int, e: int)
    ensures (a * b + c * e) * (a * b + c * e) == (a * a) * (b * b) + (c * c) * (e * e) + 2 * ((a * b) * (c * e))
  {
    var m, n := a * b, c * e;
    assert m * m == (a * a) * (b * b) && n * n == (c * c) * (e * e);
    assert (m + n) * (m + n) == m * m + n * n + 2 * (m * n);
  }

  lemma ProductOfCrosses(x: int, y: int, z: int, w: int)
    ensures (x * w + y * z) * (y * w + x * z) == (x * y) * (z * z + w * w) + (z * w) * (x * x + y * y)
  {
    assert (x * w) * (y * w) == (x * y) * (w * w) && (y * z) * (x * z) == (x * y) * (z * z);
    assert (x * w) * (x * z) == (z * w) * (x * x) && (y * z) * (y * w) == (z * w) * (y * y);
    FourProducts(x * w, y * z, y * w, x * z);
    DistributeSum(x * y, z * z, w * w);
    DistributeSum(z * w, x * x, y * y);
  }

  lemma FourProducts(a: int, b: int, c: int, e: int)
    ensures (a + b) * (c + e) == a * c + a * e + b * c + b * e
  {}

  lemma DistributeSum(k: int, a: int, b: int)
    ensures k * (a + b) == k * a + k * b
  {}

  lemma ClosureReduction(e: int, h: int, q: int, r: int, s: int, t: int, m: int, n: int, d: int)
    requires h * h - e * e == m * n
    requires h * h + e * e == s * t + 4 * (q * r)
    requires e * h == q * t + r * s
    requires s * s == m * m + 4 * (q * q)
    requires t * t == n * n + 4 * (r * r)
    ensures (var c, u, v := d * q * r, d * q * q, d * r * r;
             h * h * ((1 + c) * (1 + c)) - e * e * ((1 - c) * (1 - c))
               - (1 - c * c) * (1 - c * c) - d * (e * h) * (e * h)
             == m * n * (1 + u * v) - (1 - u * v) * (1 - u * v) - u * (n * n) - v * (m * m))
  {
    TwistProducts(d, q, r);
    CrossProducts(d, q, r);
    CrossSquared(d, q, r, s, t);
    ReductionTail(d * q * r, d * q * q, d * r * r, h * h, e * e, m * n, s * t, q * r, q * q, r * r,
                  m * m, n * n, s * s, t * t, (d * q * q) * (d * r * r), d * (e * h) * (e * h));
  }

  // The same step with every product named, so that it is linear in the names.
  lemma ReductionTail(c: int, u: int, v: int, hh: int, ee: int, mn: int, st: int, qr: int, qq: int, rr: int,
                      mm: int, nn: int, ss: int, tt: int, uv: int, deh: int)
    requires hh - ee == mn && hh + ee == st + 4 * qr && ss == mm + 4 * qq && tt == nn + 4 * rr
    requires c * c == uv && u * rr == c * qr && v * qq == c * qr
    requires deh == u * tt + v * ss + 2 * c * st
    ensures hh * ((1 + c) * (1 + c)) - ee * ((1 - c) * (1 - c)) - (1 - c * c) * (1 - c * c) - deh
         == mn * (1 + uv) - (1 - uv) * (1 - uv) - u * nn - v * mm
  {
    Expand(c, hh, ee);
    Distribute(u, tt, nn, rr);
    Distribute(v, ss, mm, qq);
    Distribute(2 * c, hh + ee, st, qr);
  }

  lemma Expand(c: int, x: int, y: int)
    ensures x * ((1 + c) * (1 + c)) - y * ((1 - c) * (1 - c)) == (x - y) * (1 + c * c) + 2 * c * (x + y)
  {}

  lemma CrossSquared(d: int, q: int, r: int, s: int, t: int)
    ensures d * (q * t + r * s) * (q * t + r * s)
         == (d * q * q) * (t * t) + (d * r * r) * (s * s) + 2 * (d * q * r) * (s * t)
  {}

  lemma CrossProducts(d: int, q: int, r: int)
    ensures (d * q * q) * (r * r) == (d * q * r) * (q * r)
    ensures (d * r * r) * (q * q) == (d * q * r) * (q * r)
  {}

  lemma Distribute(u: int, x: int, y: int, z: int)
    requires x == y + 4 * z
    ensures u * x == u * y + 4 * (u * z)
  {}

  // Moving m = a + g, in a form quadratic in m, changes it by a multiple of g.
  lemma Shift(a: int, g: int, k: int, v: int)
    ensures (a + g) * k - v * ((a + g) * (a + g)) == a * k - v * (a * a) + g * (k - v * (2 * a + g))
  {}

  lemma ClosureBase(u: int, v: int)
    ensures (1 + u) * (1 + v) * (1 + u * v) - (1 - u * v) * (1 - u * v)
         == u * ((1 + v) * (1 + v)) + v * ((1 + u) * (1 + u))
  {}

  lemma ClosureCore(u: int, v: int, g: int, h: int)
    ensures (1 + u + g) * (1 + v + h) * (1 + u * v) - (1 - u * v) * (1 - u * v)
              - u * ((1 + v + h) * (1 + v + h)) - v * ((1 + u + g) * (1 + u + g))
         == g * ((1 + v + h) * (1 + u * v) - v * (2 * (1 + u) + g))
          + h * ((1 + u) * (1 + u * v) - u * (2 * (1 + v) + h))
  {
    var w := 1 + u * v;
    ClosureBase(u, v);
    Shift(1 + u, g, (1 + v + h) * w, v);
    Shift(1 + v, h, (1 + u) * w, u);
    Reassociate(1 + u + g, 1 + v + h, w);
    Reassociate(1 + u, 1 + v + h, w);
    Reassociate(1 + u, 1 + v, w);
  }

  lemma Reassociate(a: int, b: int, c: int)
    ensures a * b * c == a * (b * c) == b * (a * c)
  {}

  // The sum is the only canonical pair that solves the two denominator-free equations.
  lemma SumUnique(c: Curve, a: Affine, b: Affine, s: Affine)
    requires Good(c) && Satisfies(c, a) && Satisfies(c, b)
    requires 0 <= s.x < c.p && 0 <= s.y < c.p
    requires Same(s.x * (1 + Twist(c.d, a, b)), CrossX(a, b), c.p)
    requires Same(s.y * (1 - Twist(c.d, a, b)), CrossY(a, b), c.p)
    ensures s == Sum(c, a, b)
  {
    Complete(c, a, b);
    QuotUnique(CrossX(a, b), 1 + Twist(c.d, a, b), s.x, c.p);
    QuotUnique(CrossY(a, b), 1 - Twist(c.d, a, b), s.y, c.p);
  }

  lemma SumEquations(c: Curve, a: Affine, b: Affine)
    requires Good(c) && Satisfies(c, a) && Satisfies(c, b)
    ensures Same(Sum(c, a, b).x * (1 + Twist(c.d, a, b)), CrossX(a, b), c.p)
    ensures Same(Sum(c, a, b).y * (1 - Twist(c.d, a, b)), CrossY(a, b), c.p)
  {
    Complete(c, a, b);
    QuotLaw(CrossX(a, b), 1 + Twist(c.d, a, b), c.p);
    QuotLaw(CrossY(a, b), 1 - Twist(c.d, a, b), c.p);
  }

  lemma SumClosed(c: Curve, a: Affine, b: Affine)
    requires Good(c) && Satisfies(c, a) && Satisfies(c, b)
    ensures OnCurve(c, Sum(c, a, b))
  {
    var s, w := Sum(c, a, b), Twist(c.d, a, b);
    Complete(c, a, b);
    SumEquations(c, a, b);
    ClosureIdentity(c.p, c.d, a, b);
    ScaledEquation(c.p, c.d, s.x, s.y, w, CrossX(a, b), CrossY(a, b));
    var k := (1 + w) * (1 - w);
    ZeroProduct(1 + w, 1 - w, c.p);
    ZeroProduct(k, k * Equation(c.d, s.x, s.y), c.p);
    ZeroProduct(k, Equation(c.d, s.x, s.y), c.p);
  }

  // Clearing both denominators from the curve equation of the sum.
  lemma ScaledEquation(p: nat, d: int, x: int, y: int, c: int, e: int, h: int)
    requires Same(x * (1 + c), e, p) && Same(y * (1 - c), h, p)
    requires Zero(h * h * ((1 + c) * (1 + c)) - e * e * ((1 - c) * (1 - c))
                  - (1 - c * c) * (1 - c * c) - d * (e * h) * (e * h), p)
    ensures (var k := (1 + c) * (1 - c); Zero(k * (k * Equation(d, x, y)), p))
  {
    var u, v := 1 + c, 1 - c;
    var m, n := x * u, y * v;
    ProductFacts(d, e, h, c);
    ScaledSquares(p, d, m, n, u, v, e, h);
    ClosedFactor(d, x, y, u, v);
    SameDifference((n * n) * (u * u), (h * h) * (u * u), (m * m) * (v * v), (e * e) * (v * v), (u * v) * (u * v),
                   ((m * m) * (n * n)) * d, ((e * e) * (h * h)) * d, p);
  }

  lemma ScaledSquares(p: nat, d: int, m: int, n: int, u: int, v: int, e: int, h: int)
    requires Same(m, e, p) && Same(n, h, p)
    ensures Same((n * n) * (u * u), (h * h) * (u * u), p)
    ensures Same((m * m) * (v * v), (e * e) * (v * v), p)
    ensures Same(((m * m) * (n * n)) * d, ((e * e) * (h * h)) * d, p)
  {
    SameMul(m, e, m, e, p);
    SameMul(n, h, n, h, p);
    SameRefl(u * u, p);
    SameRefl(v * v, p);
    SameRefl(d, p);
    SameMul(n * n, h * h, u * u, u * u, p);
    SameMul(m * m, e * e, v * v, v * v, p);
    SameMul(m * m, e * e, n * n, h * h, p);
    SameMul((m * m) * (n * n), (e * e) * (h * h), d, d, p);
  }

  lemma SameDifference(a: int, a': int, b: int, b': int, k: int, f: int, f': int, p: nat)
    requires Same(a, a', p) && Same(b, b', p) && Same(f, f', p) && Zero(a' - b' - k - f', p)
    ensures Zero(a - b - k - f, p)
  {
    SameSub(a, a', b, b', p);
    SameRefl(k, p);
    SameSub(a - b, a' - b', k, k, p);
    SameSub(a - b - k, a' - b' - k, f, f', p);
    SameZero(a - b - k - f, a' - b' - k - f', p);
  }

  lemma ProductFacts(d: int, e: int, h: int, c: int)
    ensures d * (e * h) * (e * h) == ((e * e) * (h * h)) * d
    ensures (1 + c) * (1 - c) == 1 - c * c
  {}

  lemma ClosedFactor(d: int, x: int, y: int, u: int, v: int)
    ensures (u * v) * ((u * v) * (y * y - x * x - 1 - d * (x * y) * (x * y)))
         == ((y * v) * (y * v)) * (u * u) - ((x * u) * (x * u)) * (v * v) - (u * v) * (u * v)
            - (((x * u) * (x * u)) * ((y * v) * (y * v))) * d
  {
    ScaledTerm(u, v, y);
    ScaledTerm(v, u, x);
    ScaledQuartic(d, x, y, u, v);
    DistributeTwice(u * v, y * y, x * x, d * (x * y) * (x * y));
  }

  lemma ScaledTerm(u: int, v: int, y: int)
    ensures (u * v) * ((u * v) * (y * y)) == ((y * v) * (y * v)) * (u * u)
    ensures (v * u) * ((v * u) * (y * y)) == ((y * v) * (y * v)) * (u * u)
  {}

  lemma ScaledQuartic(d: int, x: int, y: int, u: int, v: int)
    ensures (u * v) * ((u * v) * (d * (x * y) * (x * y))) == (((x * u) * (x * u)) * ((y * v) * (y * v))) * d
  {
    RegroupFour(x, u, y, v);
    RegroupFour(x * u, x * u, y * v, y * v);
    TwiceScaled(d, x * y, u * v, (x * u) * (y * v));
  }

  lemma RegroupFour(a: int, b: int, c: int, e: int)
    ensures (a * b) * (c * e) == (a * c) * (b * e)
  {}

  lemma TwiceScaled(d: int, q: int, k: int, m: int)
    requires m == q * k
    ensures k * (k * (d * q * q)) == (m * m) * d
  {
    assert k * (d * q * q) == (d * q) * m;
    assert k * ((d * q) * m) == (d * m) * m;
  }

  lemma DistributeTwice(k: int, a: int, b: int, c: int)
    ensures k * (k * (a - b - 1 - c)) == k * (k * a) - k * (k * b) - k * k - k * (k * c)
  {}

  // --------------------------------------------------------- group structure

  lemma SumCommutes(c: Curve, a: Affine, b: Affine)
    requires c.p >= 2
    ensures Sum(c, a, b) == Sum(c, b, a)
  {
    assert CrossX(a, b) == CrossX(b, a) && CrossY(a, b) == CrossY(b, a);
    TwistSymmetric(c.d, a.x * a.y, b.x * b.y);
  }

  lemma TwistSymmetric(d: int, q: int, r: int)
    ensures d * q * r == d * r * q
  {}

  lemma NeutralOnCurve(c: Curve)
    requires c.p >= 2
    ensures OnCurve(c, NEUTRAL)
  {
    assert Equation(c.d, 0, 1) == Multiple(0, c.p);
  }

  lemma SumNeutral(c: Curve, a: Affine)
    requires Good(c) && OnCurve(c, a)
    ensures Sum(c, a, NEUTRAL) == a && Sum(c, NEUTRAL, a) == a
  {
    NeutralOnCurve(c);
    assert Twist(c.d, a, NEUTRAL) == 0;
    SameRefl(a.x, c.p);
    SameRefl(a.y, c.p);
    SumUnique(c, a, NEUTRAL, a);
    SumCommutes(c, a, NEUTRAL);
  }

  lemma SumOpposite(c: Curve, a: Affine)
    requires Good(c) && OnCurve(c, a)
    ensures OnCurve(c, Opposite(c, a)) && Sum(c, a, Opposite(c, a)) == NEUTRAL
  {
    var z := (-a.x) % c.p;
    RemainderSame(-a.x, c.p);
    OppositeEquation(c.p, c.d, a.x, a.y, z + a.x);
    OppositeCross(c.p, c.d, a.x, a.y, z + a.x);
    SumUnique(c, a, Opposite(c, a), NEUTRAL);
  }

  // The opposite has x-coordinate -x + m with m = 0, so it stays on the curve ...
  lemma OppositeEquation(p: nat, d: int, x: int, y: int, m: int)
    requires Zero(m, p) && Zero(Equation(d, x, y), p)
    ensures Zero(Equation(d, -x + m, y), p)
  {
    var g := 2 * x - m;
    OppositeIdentity(d, x, y, m);
    Linear(Equation(d, x, y), 1, m, g + d * (y * y) * g, p);
  }

  lemma OppositeIdentity(d: int, x: int, y: int, m: int)
    ensures (var z, g := -x + m, 2 * x - m;
             y * y - z * z - 1 - d * (z * y) * (z * y)
             == (y * y - x * x - 1 - d * (x * y) * (x * y)) * 1 + m * (g + d * (y * y) * g))
  {
    var z, g := -x + m, 2 * x - m;
    assert z * z == x * x - m * g;
    QuarticSquares(d, z, y);
    QuarticSquares(d, x, y);
    DistributeProduct(d * (y * y), x * x, m, g);
  }

  lemma QuarticSquares(d: int, x: int, y: int)
    ensures d * (x * y) * (x * y) == d * (y * y) * (x * x)
  {}

  lemma DistributeProduct(k: int, a: int, m: int, g: int)
    ensures k * (a - m * g) == k * a - m * (k * g)
    ensures m * (g + k * g) == m * g + m * (k * g)
  {}

  // ... and the two cross terms of a sum with it are those of the neutral element.
  lemma OppositeCross(p: nat, d: int, x: int, y: int, m: int)
    requires Zero(m, p) && Zero(Equation(d, x, y), p)
    ensures (var a, b := Affine(x, y), Affine(-x + m, y);
             && Same(NEUTRAL.x * (1 + Twist(d, a, b)), CrossX(a, b), p)
             && Same(NEUTRAL.y * (1 - Twist(d, a, b)), CrossY(a, b), p))
  {
    OppositeCrossIdentity(d, x, y, m);
    Scale(m, -y, p);
    Linear(Equation(d, x, y), -1, m, -(d * (x * y) * y) - x, p);
  }

  lemma OppositeCrossIdentity(d: int, x: int, y: int, m: int)
    ensures (var z := -x + m;
             && x * y + y * z == m * y
             && 0 - m * y == m * -y
             && 1 - d * (x * y) * (z * y) - (y * y + x * z)
                == (y * y - x * x - 1 - d * (x * y) * (x * y)) * -1 + m * (-(d * (x * y) * y) - x))
  {}
}
