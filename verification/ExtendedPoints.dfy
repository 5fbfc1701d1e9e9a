// Extended coordinates x = X/Z, y = Y/Z, T = XY/Z on an Edwards curve, and why the unified
// addition formula in them computes the affine sum with no exceptional case.
module ExtendedPoints {
  import opened NumberTheory
  import opened PrimeField
  import opened EdwardsCurve

  datatype Extended = Extended(x: int, y: int, z: int, t: int)

  // -X^2 + Y^2 = Z^2 + d T^2, X Y = Z T, and Z is not zero.
  ghost predicate Valid(c: Curve, e: Extended)
  {
    && Zero(e.y * e.y - e.x * e.x - e.z * e.z - c.d * (e.t * e.t), c.p)
    && Zero(e.x * e.y - e.z * e.t, c.p)
    && !Zero(e.z, c.p)
  }

  // The affine point an extended point stands for.
  ghost function AffineOf(c: Curve, e: Extended): Affine
    requires c.p >= 2
  {
    Affine(Quot(e.x, e.z, c.p), Quot(e.y, e.z, c.p))
  }

  ghost predicate Represents(c: Curve, e: Extended, a: Affine)
  {
    && Same(a.x * e.z, e.x, c.p)
    && Same(a.y * e.z, e.y, c.p)
    && Same((a.x * a.y) * e.z, e.t, c.p)
    && !Zero(e.z, c.p)
  }

  // Every valid extended point represents a point of the curve ...
  lemma ValidRepresents(c: Curve, e: Extended)
    requires Good(c) && Valid(c, e)
    ensures OnCurve(c, AffineOf(c, e)) && Represents(c, e, AffineOf(c, e))
  {
    var p, a := c.p, AffineOf(c, e);
    QuotLaw(e.x, e.z, p);
    QuotLaw(e.y, e.z, p);
    ProductCoordinate(p, a.x, a.y, e.x, e.y, e.z, e.t);
    HomogeneousEquation(p, c.d, a.x, a.y, e.x, e.y, e.z, e.t);
    SameZero((e.z * e.z) * Equation(c.d, a.x, a.y), e.y * e.y - e.x * e.x - e.z * e.z - c.d * (e.t * e.t), p);
    ZeroProduct(e.z, e.z, p);
    ZeroProduct(e.z * e.z, Equation(c.d, a.x, a.y), p);
  }

  // z (x y z) = (x z) (y z) = X Y = Z T.
  lemma ProductCoordinate(p: nat, x: int, y: int, ex: int, ey: int, z: int, t: int)
    requires Prime(p) && !Zero(z, p) && Same(x * z, ex, p) && Same(y * z, ey, p) && Same(ex * ey, z * t, p)
    ensures Same((x * y) * z, t, p)
  {
    SameMul(x * z, ex, y * z, ey, p);
    SameTrans((x * z) * (y * z), ex * ey, z * t, p);
    SquareFactor(x, y, z);
    CancelFactor(z, (x * y) * z, t, p);
  }

  // ... and every extended point that represents a point of the curve is valid.
  lemma RepresentsValid(c: Curve, e: Extended, a: Affine)
    requires Good(c) && Satisfies(c, a) && Represents(c, e, a)
    ensures Valid(c, e)
    ensures 0 <= a.x < c.p && 0 <= a.y < c.p ==> AffineOf(c, e) == a
  {
    HomogeneousEquation(c.p, c.d, a.x, a.y, e.x, e.y, e.z, e.t);
    ScaledZero(c.p, e.z * e.z, Equation(c.d, a.x, a.y), e.y * e.y - e.x * e.x - e.z * e.z - c.d * (e.t * e.t));
    ProductRepresents(c.p, a.x, a.y, e.x, e.y, e.z, e.t);
    if 0 <= a.x < c.p && 0 <= a.y < c.p {
      QuotUnique(e.x, e.z, a.x, c.p);
      QuotUnique(e.y, e.z, a.y, c.p);
    }
  }

  lemma ScaledZero(p: nat, k: int, f: int, h: int)
    requires Zero(f, p) && Same(k * f, h, p)
    ensures Zero(h, p)
  {
    Scale(f, k, p);
    assert f * k == k * f;
    SameZero(k * f, h, p);
  }

  lemma ProductRepresents(p: nat, x: int, y: int, ex: int, ey: int, z: int, t: int)
    requires Same(x * z, ex, p) && Same(y * z, ey, p) && Same((x * y) * z, t, p)
    ensures Zero(ex * ey - z * t, p)
  {
    SameMul(x * z, ex, y * z, ey, p);
    SameRefl(z, p);
    SameMul(z, z, (x * y) * z, t, p);
    SquareFactor(x, y, z);
    SameSym((x * z) * (y * z), ex * ey, p);
    SameTrans(ex * ey, z * ((x * y) * z), z * t, p);
  }

  lemma SquareFactor(x: int, y: int, z: int)
    ensures (x * z) * (y * z) == z * ((x * y) * z)
  {}

  lemma HomogeneousEquation(p: nat, d: int, x: int, y: int, ex: int, ey: int, z: int, t: int)
    requires Same(x * z, ex, p) && Same(y * z, ey, p) && Same((x * y) * z, t, p)
    ensures Same((z * z) * Equation(d, x, y), ey * ey - ex * ex - z * z - d * (t * t), p)
  {
    SameMul(x * z, ex, x * z, ex, p);
    SameMul(y * z, ey, y * z, ey, p);
    SameMul((x * y) * z, t, (x * y) * z, t, p);
    SameRefl(d, p);
    SameRefl(z * z, p);
    SameMul(d, d, ((x * y) * z) * ((x * y) * z), t * t, p);
    SameSub((y * z) * (y * z), ey * ey, (x * z) * (x * z), ex * ex, p);
    SameSub((y * z) * (y * z) - (x * z) * (x * z), ey * ey - ex * ex, z * z, z * z, p);
    SameSub((y * z) * (y * z) - (x * z) * (x * z) - z * z, ey * ey - ex * ex - z * z,
            d * (((x * y) * z) * ((x * y) * z)), d * (t * t), p);
    HomogeneousShape(d, x, y, z);
  }

  lemma HomogeneousShape(d: int, x: int, y: int, z: int)
    ensures (z * z) * (y * y - x * x - 1 - d * (x * y) * (x * y))
         == (y * z) * (y * z) - (x * z) * (x * z) - z * z - d * (((x * y) * z) * ((x * y) * z))
  {
    SquareProduct(y, z);
    SquareProduct(x, z);
    SquareProduct(x * y, z);
    Distribution(z * z, y * y, x * x, d, (x * y) * (x * y));
    assert d * (x * y) * (x * y) == d * ((x * y) * (x * y));
  }

  lemma SquareProduct(y: int, z: int)
    ensures (y * z) * (y * z) == (z * z) * (y * y)
  {}

  lemma Distribution(k: int, a: int, b: int, d: int, q: int)
    ensures k * (a - b - 1 - d * q) == k * a - k * b - k - d * (k * q)
  {}

  // ------------------------------------------------------------ unified addition

  // The four products of the formula, as multiples of v = 2 Z1 Z2.
  lemma AdditionProducts(p: nat, d: int, l: Extended, r: Extended, a: Affine, b: Affine, m: int, n: int, o: int, q: int)
    requires Same(a.x * l.z, l.x, p) && Same(a.y * l.z, l.y, p) && Same((a.x * a.y) * l.z, l.t, p)
    requires Same(b.x * r.z, r.x, p) && Same(b.y * r.z, r.y, p) && Same((b.x * b.y) * r.z, r.t, p)
    requires Same(m, (l.y - l.x) * (r.y - r.x), p) && Same(n, (l.y + l.x) * (r.y + r.x), p)
    requires Same(o, l.t * (2 * d) * r.t, p) && Same(q, l.z * 2 * r.z, p)
    ensures (var v, c := 2 * (l.z * r.z), Twist(d, a, b);
             && Same(CrossX(a, b) * v, n - m, p) && Same(CrossY(a, b) * v, n + m, p)
             && Same((1 - c) * v, q - o, p) && Same((1 + c) * v, q + o, p))
  {
    var w := l.z * r.z;
    LinearPair(p, a.x * l.z, l.x, a.y * l.z, l.y);
    LinearPair(p, b.x * r.z, r.x, b.y * r.z, r.y);
    ProductSame(p, a.y * l.z - a.x * l.z, l.y - l.x, b.y * r.z - b.x * r.z, r.y - r.x, m);
    ProductSame(p, a.y * l.z + a.x * l.z, l.y + l.x, b.y * r.z + b.x * r.z, r.y + r.x, n);
    SameRefl(2 * d, p);
    SameMul((a.x * a.y) * l.z, l.t, (b.x * b.y) * r.z, r.t, p);
    SameMul(2 * d, 2 * d, ((a.x * a.y) * l.z) * ((b.x * b.y) * r.z), l.t * r.t, p);
    assert l.t * (2 * d) * r.t == 2 * d * (l.t * r.t);
    SameSym(o, 2 * d * (l.t * r.t), p);
    SameTrans(2 * d * (((a.x * a.y) * l.z) * ((b.x * b.y) * r.z)), 2 * d * (l.t * r.t), o, p);
    SameSym(q, l.z * 2 * r.z, p);
    AdditionShape(d, a.x, a.y, b.x, b.y, l.z, r.z);
    PlusMinus(p, (a.y * l.z + a.x * l.z) * (b.y * r.z + b.x * r.z), n, (a.y * l.z - a.x * l.z) * (b.y * r.z - b.x * r.z), m);
    PlusMinus(p, l.z * 2 * r.z, q, 2 * d * (((a.x * a.y) * l.z) * ((b.x * b.y) * r.z)), o);
  }

  lemma LinearPair(p: nat, x: int, x': int, y: int, y': int)
    requires Same(x, x', p) && Same(y, y', p)
    ensures Same(y - x, y' - x', p) && Same(y + x, y' + x', p)
  {
    SameSub(y, y', x, x', p);
    SameAdd(y, y', x, x', p);
  }

  lemma ProductSame(p: nat, x: int, x': int, y: int, y': int, m: int)
    requires Same(x, x', p) && Same(y, y', p) && Same(m, x' * y', p)
    ensures Same(x * y, m, p)
  {
    SameMul(x, x', y, y', p);
    SameSym(m, x' * y', p);
    SameTrans(x * y, x' * y', m, p);
  }

  lemma PlusMinus(p: nat, x: int, x': int, y: int, y': int)
    requires Same(x, x', p) && Same(y, y', p)
    ensures Same(x - y, x' - y', p) && Same(x + y, x' + y', p)
  {
    SameSub(x, x', y, y', p);
    SameAdd(x, x', y, y', p);
  }

  lemma AdditionShape(d: int, x: int, y: int, z: int, w: int, l: int, r: int)
    ensures (var s, t, v := (y * l + x * l) * (w * r + z * r), (y * l - x * l) * (w * r - z * r), 2 * (l * r);
             s - t == (x * w + y * z) * v && s + t == (y * w + x * z) * v)
    ensures (var k, o, v := d * (x * y) * (z * w), 2 * d * (((x * y) * l) * ((z * w) * r)), 2 * (l * r);
             l * 2 * r - o == (1 - k) * v && l * 2 * r + o == (1 + k) * v)
  {
    FactorScales(y + x, w + z, l, r);
    FactorScales(y - x, w - z, l, r);
    Factored(y, x, l);
    Factored(w, z, r);
    CrossDifference(x, y, z, w);
    ScaledPair((y + x) * (w + z), (y - x) * (w - z), l * r, x * w + y * z, y * w + x * z);
    FactorScales(x * y, z * w, l, r);
    TwistScaled(d, x * y, z * w, l * r);
    assert l * 2 * r == 2 * (l * r);
    UnitPair(d * (x * y) * (z * w), 2 * (l * r));
  }

  lemma Factored(y: int, x: int, l: int)
    ensures y * l + x * l == (y + x) * l && y * l - x * l == (y - x) * l
  {}

  lemma FactorScales(a: int, b: int, l: int, r: int)
    ensures (a * l) * (b * r) == (a * b) * (l * r)
  {}

  lemma CrossDifference(x: int, y: int, z: int, w: int)
    ensures (y + x) * (w + z) - (y - x) * (w - z) == 2 * (x * w + y * z)
    ensures (y + x) * (w + z) + (y - x) * (w - z) == 2 * (y * w + x * z)
  {}

  lemma ScaledPair(m: int, n: int, k: int, e: int, h: int)
    requires m - n == 2 * e && m + n == 2 * h
    ensures m * k - n * k == e * (2 * k) && m * k + n * k == h * (2 * k)
  {
    assert m * k - n * k == (m - n) * k;
    assert m * k + n * k == (m + n) * k;
  }

  lemma TwistScaled(d: int, q: int, r: int, k: int)
    ensures 2 * d * ((q * r) * k) == (d * q * r) * (2 * k)
  {}

  lemma UnitPair(k: int, v: int)
    ensures v - k * v == (1 - k) * v && v + k * v == (1 + k) * v
  {}

  // The sum's four coordinates, given the four factors e, h, f, g of the formula.
  lemma AdditionResult(p: nat, s: Affine, e: int, h: int, c: int, v: int, ee: int, ff: int, gg: int, hh: int, r: Extended)
    requires Same(s.x * (1 + c), e, p) && Same(s.y * (1 - c), h, p)
    requires Same(e * v, ee, p) && Same(h * v, hh, p) && Same((1 - c) * v, ff, p) && Same((1 + c) * v, gg, p)
    requires Same(r.x, ee * ff, p) && Same(r.y, gg * hh, p) && Same(r.t, ee * hh, p) && Same(r.z, ff * gg, p)
    ensures Same(s.x * r.z, r.x, p) && Same(s.y * r.z, r.y, p) && Same((s.x * s.y) * r.z, r.t, p)
  {
    // s.x g = e' and s.y f = h' for the scaled factors.
    ScaledFactor(p, s.x, 1 + c, e, v, gg, ee);
    ScaledFactor(p, s.y, 1 - c, h, v, ff, hh);
    SameRefl(ff, p);
    SameRefl(gg, p);
    SameRefl(s.x, p);
    SameRefl(s.y, p);
    SameRefl(s.x * s.y, p);
    SameMul(s.x * gg, ee, ff, ff, p);
    SameMul(s.y * ff, hh, gg, gg, p);
    SameMul(s.x * gg, ee, s.y * ff, hh, p);
    FinishCoordinate(p, s.x, r.z, ff * gg, (s.x * gg) * ff, ee * ff, r.x);
    assert hh * gg == gg * hh;
    FinishCoordinate(p, s.y, r.z, ff * gg, (s.y * ff) * gg, gg * hh, r.y);
    assert (s.x * s.y) * (ff * gg) == (s.x * gg) * (s.y * ff);
    FinishCoordinate(p, s.x * s.y, r.z, ff * gg, (s.x * gg) * (s.y * ff), ee * hh, r.t);
  }

  lemma ScaledFactor(p: nat, s: int, k: int, e: int, v: int, g: int, f: int)
    requires Same(s * k, e, p) && Same(k * v, g, p) && Same(e * v, f, p)
    ensures Same(s * g, f, p)
  {
    SameRefl(v, p);
    SameRefl(s, p);
    SameMul(s * k, e, v, v, p);
    SameMul(s, s, k * v, g, p);
    assert s * (k * v) == (s * k) * v;
    SameSym(s * (k * v), s * g, p);
    SameTrans(s * g, (s * k) * v, e * v, p);
    SameTrans(s * g, e * v, f, p);
  }

  lemma FinishCoordinate(p: nat, s: int, z: int, k: int, m: int, n: int, x: int)
    requires Same(z, k, p) && s * k == m && Same(m, n, p) && Same(x, n, p)
    ensures Same(s * z, x, p)
  {
    SameRefl(s, p);
    SameMul(s, s, z, k, p);
    SameTrans(s * z, s * k, n, p);
    SameSym(x, n, p);
    SameTrans(s * z, n, x, p);
  }

  // Whatever reduced or unreduced values the four products take, the unified formula yields
  // a valid extended point that stands for the affine sum. There is no side condition: equal points,
  // opposite points and the neutral element are all covered.
  lemma UnifiedAddition(c: Curve, l: Extended, r: Extended, m: int, n: int, o: int, q: int, s: Extended)
    requires Good(c) && Valid(c, l) && Valid(c, r)
    requires Same(m, (l.y - l.x) * (r.y - r.x), c.p) && Same(n, (l.y + l.x) * (r.y + r.x), c.p)
    requires Same(o, l.t * (2 * c.d) * r.t, c.p) && Same(q, l.z * 2 * r.z, c.p)
    requires Same(s.x, (n - m) * (q - o), c.p) && Same(s.y, (q + o) * (n + m), c.p)
    requires Same(s.t, (n - m) * (n + m), c.p) && Same(s.z, (q - o) * (q + o), c.p)
    ensures Valid(c, s) && AffineOf(c, s) == Sum(c, AffineOf(c, l), AffineOf(c, r))
  {
    var a, b := AffineOf(c, l), AffineOf(c, r);
    ValidRepresents(c, l);
    ValidRepresents(c, r);
    SumClosed(c, a, b);
    AdditionProducts(c.p, c.d, l, r, a, b, m, n, o, q);
    FourFactors(c, a, b, l.z, r.z, n - m, q - o, q + o, n + m, s);
    RepresentsValid(c, s, Sum(c, a, b));
  }

  lemma FourFactors(c: Curve, a: Affine, b: Affine, y: int, z: int, e: int, f: int, g: int, h: int, s: Extended)
    requires Good(c) && Satisfies(c, a) && Satisfies(c, b) && !Zero(y, c.p) && !Zero(z, c.p)
    requires (var v, w := 2 * (y * z), Twist(c.d, a, b);
              && Same(CrossX(a, b) * v, e, c.p) && Same(CrossY(a, b) * v, h, c.p)
              && Same((1 - w) * v, f, c.p) && Same((1 + w) * v, g, c.p))
    requires Same(s.x, e * f, c.p) && Same(s.y, g * h, c.p) && Same(s.t, e * h, c.p) && Same(s.z, f * g, c.p)
    ensures Represents(c, s, Sum(c, a, b))
  {
    SumEquations(c, a, b);
    Complete(c, a, b);
    AdditionResult(c.p, Sum(c, a, b), CrossX(a, b), CrossY(a, b), Twist(c.d, a, b), 2 * (y * z), e, f, g, h, s);
    NonZeroResult(c.p, y, z, Twist(c.d, a, b), f, g, s.z);
  }

  lemma NonZeroResult(p: nat, y: int, z: int, w: int, f: int, g: int, s: int)
    requires Prime(p) && p > 2 && !Zero(y, p) && !Zero(z, p) && !Zero(1 - w, p) && !Zero(1 + w, p)
    requires Same((1 - w) * (2 * (y * z)), f, p) && Same((1 + w) * (2 * (y * z)), g, p) && Same(s, f * g, p)
    ensures !Zero(s, p)
  {
    var v := 2 * (y * z);
    SmallNonZero(2, p);
    ZeroProduct(y, z, p);
    ZeroProduct(2, y * z, p);
    ZeroProduct(1 - w, v, p);
    ZeroProduct(1 + w, v, p);
    SameZero((1 - w) * v, f, p);
    SameZero((1 + w) * v, g, p);
    ZeroProduct(f, g, p);
    SameZero(s, f * g, p);
  }
}
