// Associativity of the affine Edwards addition law, for every curve of EdwardsCurve, and
// multiplication of a point by a natural number.
module EdwardsGroup {
  import opened NumberTheory
  import opened PrimeField
  import opened EdwardsCurve

  // ------------------------------------------- the polynomial core of associativity
  //
  // For outer points (x, y), (z, w) and a middle point (u, v), write
  //   e, h, f, g = x w + y z, y w + x z, x w - y z, y w - x z
  //   q, t, m, n, s, r = x y, z w, y^2 - x^2, w^2 - z^2, x^2 + y^2, z^2 + w^2.

  lemma OuterProducts(x: int, y: int, z: int, w: int)
    ensures (var e, h, f, g := x * w + y * z, y * w + x * z, x * w - y * z, y * w - x * z;
             && (x * y) * (z * z + w * w) - (z * w) * (x * x + y * y) == f * g
             && e * g == (x * y) * (w * w - z * z) + (z * w) * (y * y - x * x)
             && h * f == (x * y) * (w * w - z * z) - (z * w) * (y * y - x * x))
  {}

  lemma OuterFirst(x: int, y: int, z: int, w: int)
    ensures (var e, f, g := x * w + y * z, x * w - y * z, y * w - x * z;
             && f * (z * z + w * w) == e * (w * w - z * z) - 2 * (z * w) * g
             && f * (x * x + y * y) == 2 * (x * y) * g - e * (y * y - x * x))
  {}

  lemma OuterSecond(x: int, y: int, z: int, w: int)
    ensures (var h, f, g := y * w + x * z, x * w - y * z, y * w - x * z;
             && g * (z * z + w * w) == h * (w * w - z * z) - 2 * (z * w) * f
             && g * (x * x + y * y) == h * (y * y - x * x) + 2 * (x * y) * f)
  {}

  // The cross terms of both bracketings, split along the middle point.
  lemma NumIdentities(x: int, y: int, z: int, w: int, u: int, v: int)
    ensures (var e, h, f, g := x * w + y * z, y * w + x * z, x * w - y * z, y * w - x * z;
             && (x * v + y * u) * w + (y * v + x * u) * z == v * e + u * h
             && (x * v + y * u) * w - (y * v + x * u) * z == v * f + u * g
             && (u * w + v * z) * y + (v * w + u * z) * x == v * e + u * h
             && (v * w + u * z) * x - (u * w + v * z) * y == v * f - u * g)
  {
    CrossCombination(x * v, y * u, y * v, x * u, w, z);
    CrossCombination(u * w, v * z, v * w, u * z, y, x);
    Regroup(x, v, w);
    Regroup(y, u, w);
    Regroup(y, v, z);
    Regroup(x, u, z);
    Spread(v, x * w, y * z);
    Spread(u, y * w, x * z);
  }

  lemma CrossCombination(a: int, b: int, c: int, e: int, w: int, z: int)
    ensures (a + b) * w + (c + e) * z == a * w + b * w + c * z + e * z
    ensures (a + b) * w - (c + e) * z == a * w + b * w - c * z - e * z
    ensures (c + e) * z - (a + b) * w == c * z + e * z - a * w - b * w
  {}

  lemma Regroup(a: int, b: int, c: int)
    ensures (a * b) * c == b * (a * c) && (b * c) * a == b * (a * c)
  {}

  lemma Spread(k: int, a: int, b: int)
    ensures k * (a + b) == k * a + k * b && k * (a - b) == k * a - k * b
  {}

  lemma MiddleIdentities(d: int, u: int, v: int)
    ensures (var k, s, b := d * (u * v), u * u + v * v, v * v - u * u - 1 - d * (u * v) * (u * v);
             && v * (d - d * s + k * k) + 2 * k * u == -(d * b * v)
             && 2 * k * v - u * (d + d * s + k * k) == d * b * u)
  {
    var k, b := d * (u * v), v * v - u * u - 1 - d * (u * v) * (u * v);
    assert k * k == d * (d * (u * v) * (u * v));
    assert k * k == d * (v * v - u * u - 1 - b);
  }

  lemma CrossDifference(s: int, c: int, l: int, c': int, r: int, k: int, q: int, t: int, b: int)
    requires l - r == k * b
    ensures (s - k * q * c) * l - (s + k * t * c') * r == k * (s * b - q * (c * l) - t * (c' * r))
  {
    assert s * l - s * r == s * (l - r);
    assert s * (k * b) == k * (s * b);
    assert k * q * c * l == k * (q * (c * l)) && k * t * c' * r == k * (t * (c' * r));
  }

  lemma SplitMiddle(u: int, v: int, e: int, h: int, f: int, g: int, b: int, l: int, r: int)
    ensures (v * e + u * h) * b - (v * f + u * g) * l - (v * f - u * g) * r
         == v * (e * b - f * (l + r)) + u * (h * b - g * (l - r))
  {}

  lemma Bracket(q: int, o: int, kk: int, tt: int, k: int, n: int)
    ensures q * (o - kk * tt + k * (q * n)) == q * o - kk * (q * tt) + k * (q * q * n)
  {}

  lemma OuterTerms(q: int, t: int, e: int, f: int, g: int, r: int, s: int, n: int, m: int)
    requires f * r == e * n - 2 * t * g && f * s == 2 * q * g - e * m
    ensures f * (q * q * r + t * t * s) == e * (q * q * n - t * t * m) - 2 * (q * t) * (g * (q - t))
  {
    assert f * (q * q * r + t * t * s) == q * q * (f * r) + t * t * (f * s);
    assert q * q * (e * n - 2 * t * g) == e * (q * q * n) - 2 * (q * t) * (g * q);
    assert t * t * (2 * q * g - e * m) == 2 * (q * t) * (g * t) - e * (t * t * m);
  }

  // One coefficient of the split sum; the x and y parts of the middle point are two instances.
  lemma Coefficient(e: int, f: int, g: int, k: int, a: int, b: int, w: int, o: int, kp: int, p: int,
                    c: int, j: int, s: int, z: int)
    requires e * g == a * (1 + w) + j && f * s == e * (b + c) - 2 * p * z
    ensures e * (f * g + k * b) - f * (a * o - kp * a + k * s)
         == (f * a) * (1 + w - o + kp) + 2 * k * p * z + f * j - k * e * c
  {
    assert e * (f * g) == f * (a * (1 + w) + j);
    assert f * (k * s) == k * (e * (b + c) - 2 * p * z);
  }

  lemma CoefficientMirrored(h: int, g: int, f: int, k: int, a: int, b: int, w: int, o: int, kp: int, p: int,
                            c: int, j: int, s: int, z: int)
    requires h * f == a * (1 - w) + j && g * s == h * (b + c) - 2 * p * z
    ensures h * (f * g + k * b) - g * (a * o + kp * a + k * s)
         == (g * a) * (1 - w - o - kp) + 2 * k * p * z + g * j - k * h * c
  {
    Coefficient(h, g, f, k, a, b, -w, o, -kp, p, c, j, s, z);
    assert g * f == f * g && -kp * a == -(kp * a);
  }

  // --------------------------------------------------------------- assembling it

  // Numerators and denominators of the x-coordinates of (a + b) + c and a + (b + c), cleared of
  // the inner denominators.
  function LeftNum(d: int, a: Affine, b: Affine, c: Affine): int
  {
    var w := Twist(d, a, b);
    CrossX(a, b) * (1 - w) * c.y + CrossY(a, b) * (1 + w) * c.x
  }

  function LeftDen(d: int, a: Affine, b: Affine, c: Affine): int
  {
    var w := Twist(d, a, b);
    (1 + w) * (1 - w) + d * (CrossX(a, b) * CrossY(a, b)) * (c.x * c.y)
  }

  // The value by which the two bracketings differ: a combination of the three curve equations.
  function Certificate(d: int, a: Affine, b: Affine, c: Affine): int
  {
    var e, h, f, g := CrossX(a, c), CrossY(a, c), a.x * c.y - a.y * c.x, a.y * c.y - a.x * c.x;
    var q, t, k := a.x * a.y, c.x * c.y, d * (b.x * b.y);
    var i, l, j := Equation(d, a.x, a.y), Equation(d, b.x, b.y), Equation(d, c.x, c.y);
    (q * t) * (f * (q + t) * -(d * l * b.y) + g * (q - t) * (d * l * b.x))
    + b.y * (f * (q * j + t * i) - k * e * (q * q * j - t * t * i))
    + b.x * (g * (q * j - t * i) - k * h * (q * q * j - t * t * i))
  }

  lemma CertificateZero(p: nat, d: int, a: Affine, b: Affine, c: Affine)
    requires Zero(Equation(d, a.x, a.y), p) && Zero(Equation(d, b.x, b.y), p) && Zero(Equation(d, c.x, c.y), p)
    ensures Zero(Certificate(d, a, b, c), p)
  {
    var e, h, f, g := CrossX(a, c), CrossY(a, c), a.x * c.y - a.y * c.x, a.y * c.y - a.x * c.x;
    var q, t, k := a.x * a.y, c.x * c.y, d * (b.x * b.y);
    var i, l, j := Equation(d, a.x, a.y), Equation(d, b.x, b.y), Equation(d, c.x, c.y);
    ZeroTriple(p, i, l, j, q, t, d, b.x, b.y, f, g, k * e, k * h);
  }

  lemma ZeroTriple(p: nat, i: int, l: int, j: int, q: int, t: int, d: int, u: int, v: int, f: int, g: int, e: int, h: int)
    requires Zero(i, p) && Zero(l, p) && Zero(j, p)
    ensures Zero((q * t) * (f * (q + t) * -(d * l * v) + g * (q - t) * (d * l * u))
                 + v * (f * (q * j + t * i) - e * (q * q * j - t * t * i))
                 + u * (g * (q * j - t * i) - h * (q * q * j - t * t * i)), p)
  {
    Scale(l, (q * t) * (g * (q - t) * (d * u) - f * (q + t) * (d * v)), p);
    ZeroTripleShape(l, q * t, f * (q + t), g * (q - t), d, u, v);
    ZeroPair(p, j, i, q, t);
    ZeroPair(p, j, i, q * q, t * t);
    ZeroWeighted(p, q * j + t * i, q * q * j - t * t * i, f, e, v);
    ZeroWeighted(p, q * j - t * i, q * q * j - t * t * i, g, h, u);
    ZeroSum(p, (q * t) * (f * (q + t) * -(d * l * v) + g * (q - t) * (d * l * u)),
            v * (f * (q * j + t * i) - e * (q * q * j - t * t * i)),
            u * (g * (q * j - t * i) - h * (q * q * j - t * t * i)));
  }

  lemma ZeroPair(p: nat, j: int, i: int, q: int, t: int)
    requires Zero(j, p) && Zero(i, p)
    ensures Zero(q * j + t * i, p) && Zero(q * j - t * i, p)
  {
    Linear(j, q, i, t, p);
    Linear(j, q, i, -t, p);
    assert j * q + i * t == q * j + t * i && j * q + i * -t == q * j - t * i;
  }

  lemma ZeroWeighted(p: nat, a: int, b: int, f: int, e: int, v: int)
    requires Zero(a, p) && Zero(b, p)
    ensures Zero(v * (f * a - e * b), p)
  {
    Linear(a, f, b, -e, p);
    Scale(a * f + b * -e, v, p);
    assert (a * f + b * -e) * v == v * (f * a - e * b);
  }

  lemma ZeroSum(p: nat, a: int, b: int, c: int)
    requires Zero(a, p) && Zero(b, p) && Zero(c, p)
    ensures Zero(a + b + c, p)
  {
    Add(a, b, p);
    Add(a + b, c, p);
  }

  lemma ZeroTripleShape(l: int, p: int, a: int, b: int, d: int, u: int, v: int)
    ensures p * (a * -(d * l * v) + b * (d * l * u)) == l * (p * (b * (d * u) - a * (d * v)))
  {}

  // The denominators, as polynomials in the names above.
  lemma DenIdentity(d: int, a: Affine, b: Affine, c: Affine)
    ensures (var q, t, k, s, o := a.x * a.y, c.x * c.y, d * (b.x * b.y), a.x * a.x + a.y * a.y,
                                  1 + d * ((a.x * a.y) * (c.x * c.y)) * (b.x * b.x + b.y * b.y);
             LeftDen(d, a, b, c) == o - k * k * (q * q) + k * (t * s))
  {
    var q, t, r, k, s := a.x * a.y, c.x * c.y, b.x * b.y, d * (b.x * b.y), a.x * a.x + a.y * a.y;
    ProductOfCrosses(a.x, a.y, b.x, b.y);
    DenShape(d, q, t, r, s, b.x * b.x + b.y * b.y);
  }

  lemma DenShape(d: int, q: int, t: int, r: int, s: int, z: int)
    ensures (var w, k := d * q * r, d * r;
             (1 + w) * (1 - w) + d * (q * z + r * s) * t == 1 + d * (q * t) * z - k * k * (q * q) + k * (t * s))
  {
    assert d * q * r == d * r * q;
    assert (1 + d * r * q) * (1 - d * r * q) == 1 - d * r * (d * r) * (q * q);
  }

  lemma NumIdentity(d: int, a: Affine, b: Affine, c: Affine)
    ensures (var k, q := d * (b.x * b.y), a.x * a.y;
             var f, g := a.x * c.y - a.y * c.x, a.y * c.y - a.x * c.x;
             LeftNum(d, a, b, c) == (b.y * CrossX(a, c) + b.x * CrossY(a, c)) - k * q * (b.y * f + b.x * g))
  {
    NumIdentities(a.x, a.y, c.x, c.y, b.x, b.y);
    NumShape(CrossX(a, b), CrossY(a, b), Twist(d, a, b), c.y, c.x);
    assert Twist(d, a, b) == d * (b.x * b.y) * (a.x * a.y);
  }

  lemma NumShape(e: int, h: int, w: int, y: int, x: int)
    ensures e * (1 - w) * y + h * (1 + w) * x == (e * y + h * x) - w * (e * y - h * x)
  {}

  // The two bracketings have the same x-coordinate up to the certificate.
  lemma AssociativityIdentity(d: int, a: Affine, b: Affine, c: Affine)
    ensures LeftNum(d, a, b, c) * LeftDen(d, c, b, a) - LeftNum(d, c, b, a) * LeftDen(d, a, b, c)
         == d * (b.x * b.y) * Certificate(d, a, b, c)
  {
    var e, h, f, g := CrossX(a, c), CrossY(a, c), a.x * c.y - a.y * c.x, a.y * c.y - a.x * c.x;
    var q, t, k, u, v := a.x * a.y, c.x * c.y, d * (b.x * b.y), b.x, b.y;
    var o := 1 + d * (q * t) * (u * u + v * v);
    var s, r := a.x * a.x + a.y * a.y, c.x * c.x + c.y * c.y;
    var l, m := o - k * k * (t * t) + k * (q * r), o - k * k * (q * q) + k * (t * s);
    var w := f * g + k * (q * q - t * t);
    DenIdentity(d, a, b, c);
    DenIdentity(d, c, b, a);
    assert (c.x * c.y) * (a.x * a.y) == q * t;
    NumIdentity(d, a, b, c);
    NumIdentity(d, c, b, a);
    MirroredNum(d, a, b, c);
    OuterProducts(a.x, a.y, c.x, c.y);
    DenDifference(k, q, t, r, s, f * g, o);
    CrossDifference(v * e + u * h, v * f + u * g, l, v * f - u * g, m, k, q, t, w);
    SplitSum(d, a, b, c, l, m, w);
  }

  lemma MirroredNum(d: int, a: Affine, b: Affine, c: Affine)
    ensures (var k, t := d * (b.x * b.y), c.x * c.y;
             var f, g := a.x * c.y - a.y * c.x, a.y * c.y - a.x * c.x;
             LeftNum(d, c, b, a) == (b.y * CrossX(a, c) + b.x * CrossY(a, c)) + k * t * (b.y * f - b.x * g))
  {
    NumIdentity(d, c, b, a);
    var f, g := a.x * c.y - a.y * c.x, a.y * c.y - a.x * c.x;
    assert CrossX(a, c) == CrossX(c, a) && CrossY(a, c) == CrossY(c, a);
    assert c.x * a.y - c.y * a.x == -f && c.y * a.y - c.x * a.x == g;
    MirrorSign(d * (b.x * b.y) * (c.x * c.y), b.y, b.x, f, g);
  }

  lemma MirrorSign(k: int, v: int, u: int, f: int, g: int)
    ensures -(k * (v * -f + u * g)) == k * (v * f - u * g)
  {}

  lemma DenDifference(k: int, q: int, t: int, r: int, s: int, b: int, o: int)
    requires q * r - t * s == b
    ensures (o - k * k * (t * t) + k * (q * r)) - (o - k * k * (q * q) + k * (t * s)) == k * (b + k * (q * q - t * t))
  {}

  // The bracketed sum of CrossDifference is the certificate.
  lemma SplitSum(d: int, a: Affine, b: Affine, c: Affine, l: int, m: int, z: int)
    requires (var q, t, k, s, r := a.x * a.y, c.x * c.y, d * (b.x * b.y), a.x * a.x + a.y * a.y, c.x * c.x + c.y * c.y;
              var f, g, o := a.x * c.y - a.y * c.x, a.y * c.y - a.x * c.x, 1 + d * (q * t) * (b.x * b.x + b.y * b.y);
              && l == o - k * k * (t * t) + k * (q * r) && m == o - k * k * (q * q) + k * (t * s)
              && z == f * g + k * (q * q - t * t))
    ensures (var e, h, f, g := CrossX(a, c), CrossY(a, c), a.x * c.y - a.y * c.x, a.y * c.y - a.x * c.x;
             var q, t, u, v := a.x * a.y, c.x * c.y, b.x, b.y;
             (v * e + u * h) * z - q * ((v * f + u * g) * l) - t * ((v * f - u * g) * m) == Certificate(d, a, b, c))
  {
    var e, h, f, g := CrossX(a, c), CrossY(a, c), a.x * c.y - a.y * c.x, a.y * c.y - a.x * c.x;
    var q, t, k, u, v := a.x * a.y, c.x * c.y, d * (b.x * b.y), b.x, b.y;
    var i, j := Equation(d, a.x, a.y), Equation(d, c.x, c.y);
    SplitMiddle(u, v, e, h, f, g, z, q * l, t * m);
    CoefficientV(d, a, c, k, u * u + v * v, l, m);
    CoefficientU(d, a, c, k, u * u + v * v, l, m);
    MiddleIdentities(d, u, v);
    CertificateTail(q * t, f * (q + t), g * (q - t), d, u * u + v * v, k, u, v, Equation(d, u, v),
                    f * (q * j + t * i) - k * e * (q * q * j - t * t * i),
                    g * (q * j - t * i) - k * h * (q * q * j - t * t * i),
                    e * z - f * (q * l + t * m), h * z - g * (q * l - t * m));
    ScaleInside(q, t, v * f + u * g, v * f - u * g, l, m);
  }

  lemma ScaleInside(q: int, t: int, c: int, c': int, l: int, m: int)
    ensures q * (c * l) == c * (q * l) && t * (c' * m) == c' * (t * m)
  {}

  lemma CertificateTail(p: int, fa: int, ga: int, d: int, s: int, k: int, u: int, v: int, l: int, x: int, y: int, cv: int, cu: int)
    requires v * (d - d * s + k * k) + 2 * k * u == -(d * l * v)
    requires 2 * k * v - u * (d + d * s + k * k) == d * l * u
    requires cv == p * (fa * (d - d * s + k * k) + 2 * k * ga) + x
    requires cu == p * (ga * -(d + d * s + k * k) + 2 * k * fa) + y
    ensures v * cv + u * cu == p * (fa * -(d * l * v) + ga * (d * l * u)) + v * x + u * y
  {
    var m, n := d - d * s + k * k, d + d * s + k * k;
    TailShape(p, fa, ga, m, n, k, u, v, x, y);
  }

  lemma TailShape(p: int, f: int, g: int, m: int, n: int, k: int, u: int, v: int, x: int, y: int)
    ensures v * (p * (f * m + 2 * k * g) + x) + u * (p * (g * -n + 2 * k * f) + y)
         == p * (f * (v * m + 2 * k * u) + g * (2 * k * v - u * n)) + v * x + u * y
  {
    TailInner(f, g, m, n, k, u, v);
    TailOuter(p, f * m + 2 * k * g, g * -n + 2 * k * f, u, v, x, y);
  }

  lemma TailOuter(p: int, a: int, b: int, u: int, v: int, x: int, y: int)
    ensures v * (p * a + x) + u * (p * b + y) == p * (v * a + u * b) + v * x + u * y
  {
    assert v * (p * a) == p * (v * a) && u * (p * b) == p * (u * b);
  }

  lemma TailInner(f: int, g: int, m: int, n: int, k: int, u: int, v: int)
    ensures v * (f * m + 2 * k * g) + u * (g * -n + 2 * k * f) == f * (v * m + 2 * k * u) + g * (2 * k * v - u * n)
  {
    Spread(v, f * m, 2 * k * g);
    Spread(u, g * -n, 2 * k * f);
    Spread(f, v * m, 2 * k * u);
    Spread(g, 2 * k * v, u * n);
    Swapped(v, f, m);
    Swapped(u, g, -n);
    Swapped(v, 2 * k, g);
    Swapped(u, 2 * k, f);
    assert g * (2 * k * v) == 2 * k * (v * g) && f * (2 * k * u) == 2 * k * (u * f);
    assert u * -n == -(u * n);
  }

  lemma Swapped(a: int, b: int, c: int)
    ensures a * (b * c) == b * (a * c)
  {}

  // q l + t m and q l - t m, as sums over the outer points.
  lemma BracketSum(q: int, t: int, o: int, k: int, r: int, s: int, l: int, m: int)
    requires l == o - k * k * (t * t) + k * (q * r) && m == o - k * k * (q * q) + k * (t * s)
    ensures q * l + t * m == (q + t) * o - k * k * (q * t) * (q + t) + k * (q * q * r + t * t * s)
    ensures q * l - t * m == (q - t) * o + k * k * (q * t) * (q - t) + k * (q * q * r - t * t * s)
  {
    Bracket(q, o, k * k, t * t, k, r);
    Bracket(t, o, k * k, q * q, k, s);
    assert q * (t * t) == q * t * t && t * (q * q) == q * t * q;
    assert k * k * (q * t * t) == k * k * (q * t) * t && k * k * (q * t * q) == k * k * (q * t) * q;
  }

  lemma OuterWithDefects(d: int, q: int, t: int, n: int, m: int, i: int, j: int)
    requires n == 1 + d * t * t + j && m == 1 + d * q * q + i
    ensures q * n + t * m == (q + t) * (1 + d * (q * t)) + (q * j + t * i)
    ensures q * n - t * m == (q - t) * (1 - d * (q * t)) + (q * j - t * i)
    ensures q * q * n - t * t * m == (q * q - t * t) + (q * q * j - t * t * i)
  {}

  lemma CoefficientV(d: int, a: Affine, c: Affine, k: int, z: int, l: int, m: int)
    requires (var q, t, s, r := a.x * a.y, c.x * c.y, a.x * a.x + a.y * a.y, c.x * c.x + c.y * c.y;
              var o := 1 + d * (q * t) * z;
              l == o - k * k * (t * t) + k * (q * r) && m == o - k * k * (q * q) + k * (t * s))
    ensures (var e, f, g := CrossX(a, c), a.x * c.y - a.y * c.x, a.y * c.y - a.x * c.x;
             var q, t, i, j := a.x * a.y, c.x * c.y, Equation(d, a.x, a.y), Equation(d, c.x, c.y);
             e * (f * g + k * (q * q - t * t)) - f * (q * l + t * m)
             == q * t * (f * (q + t) * (d - d * z + k * k) + 2 * k * (g * (q - t)))
                + (f * (q * j + t * i) - k * e * (q * q * j - t * t * i)))
  {
    var e, f, g := CrossX(a, c), a.x * c.y - a.y * c.x, a.y * c.y - a.x * c.x;
    var q, t, i, j := a.x * a.y, c.x * c.y, Equation(d, a.x, a.y), Equation(d, c.x, c.y);
    var s, r, o := a.x * a.x + a.y * a.y, c.x * c.x + c.y * c.y, 1 + d * (q * t) * z;
    var n, y := c.y * c.y - c.x * c.x, a.y * a.y - a.x * a.x;
    BracketSum(q, t, o, k, r, s, l, m);
    OuterProducts(a.x, a.y, c.x, c.y);
    OuterFirst(a.x, a.y, c.x, c.y);
    OuterTerms(q, t, e, f, g, r, s, n, y);
    OuterWithDefects(d, q, t, n, y, i, j);
    Coefficient(e, f, g, k, q + t, q * q - t * t, d * (q * t), o, k * k * (q * t), q * t,
                q * q * j - t * t * i, q * j + t * i, q * q * r + t * t * s, g * (q - t));
    CoefficientShape(f * (q + t), d, q * t, z, k, g * (q - t));
  }

  lemma CoefficientShape(fa: int, d: int, p: int, z: int, k: int, ga: int)
    ensures fa * (1 + d * p - (1 + d * p * z) + k * k * p) + 2 * k * p * ga
         == p * (fa * (d - d * z + k * k) + 2 * k * ga)
    ensures fa * (1 - d * p - (1 + d * p * z) - k * k * p) + 2 * k * p * ga
         == p * (fa * -(d + d * z + k * k) + 2 * k * ga)
  {}

  lemma CoefficientU(d: int, a: Affine, c: Affine, k: int, z: int, l: int, m: int)
    requires (var q, t, s, r := a.x * a.y, c.x * c.y, a.x * a.x + a.y * a.y, c.x * c.x + c.y * c.y;
              var o := 1 + d * (q * t) * z;
              l == o - k * k * (t * t) + k * (q * r) && m == o - k * k * (q * q) + k * (t * s))
    ensures (var h, f, g := CrossY(a, c), a.x * c.y - a.y * c.x, a.y * c.y - a.x * c.x;
             var q, t, i, j := a.x * a.y, c.x * c.y, Equation(d, a.x, a.y), Equation(d, c.x, c.y);
             h * (f * g + k * (q * q - t * t)) - g * (q * l - t * m)
             == q * t * (g * (q - t) * -(d + d * z + k * k) + 2 * k * (f * (q + t)))
                + (g * (q * j - t * i) - k * h * (q * q * j - t * t * i)))
  {
    var h, f, g := CrossY(a, c), a.x * c.y - a.y * c.x, a.y * c.y - a.x * c.x;
    var q, t, i, j := a.x * a.y, c.x * c.y, Equation(d, a.x, a.y), Equation(d, c.x, c.y);
    var s, r, o := a.x * a.x + a.y * a.y, c.x * c.x + c.y * c.y, 1 + d * (q * t) * z;
    var n, y := c.y * c.y - c.x * c.x, a.y * a.y - a.x * a.x;
    BracketSum(q, t, o, k, r, s, l, m);
    OuterProducts(a.x, a.y, c.x, c.y);
    OuterSecond(a.x, a.y, c.x, c.y);
    OuterTermsNegated(q, t, h, g, f, r, s, n, y);
    OuterWithDefects(d, q, t, n, y, i, j);
    CoefficientMirrored(h, g, f, k, q - t, q * q - t * t, d * (q * t), o, k * k * (q * t), q * t,
                        q * q * j - t * t * i, q * j - t * i, q * q * r - t * t * s, f * (q + t));
    CoefficientShape(g * (q - t), d, q * t, z, k, f * (q + t));
  }

  lemma OuterTermsNegated(q: int, t: int, h: int, g: int, f: int, r: int, s: int, n: int, m: int)
    requires g * r == h * n - 2 * t * f && g * s == h * m + 2 * q * f
    ensures g * (q * q * r - t * t * s) == h * (q * q * n - t * t * m) - 2 * (q * t) * (f * (q + t))
  {
    assert g * (q * q * r - t * t * s) == q * q * (g * r) - t * t * (g * s);
    assert q * q * (h * n - 2 * t * f) == h * (q * q * n) - 2 * (q * t) * (f * q);
    assert t * t * (h * m + 2 * q * f) == h * (t * t * m) + 2 * (q * t) * (f * t);
  }

  // ------------------------------------------------------------- associativity

  lemma LeftEquation(c: Curve, a: Affine, b: Affine, z: Affine)
    requires Good(c) && Satisfies(c, a) && Satisfies(c, b) && Satisfies(c, z)
    ensures Same(Sum(c, Sum(c, a, b), z).x * LeftDen(c.d, a, b, z), LeftNum(c.d, a, b, z), c.p)
    ensures !Zero(LeftDen(c.d, a, b, z), c.p)
  {
    var s, w := Sum(c, a, b), Twist(c.d, a, b);
    var o := 1 + Twist(c.d, s, z);
    SumEquations(c, a, b);
    SumClosed(c, a, b);
    SumEquations(c, s, z);
    Complete(c, a, b);
    Complete(c, s, z);
    ClearedDen(c.p, c.d, s.x, s.y, 1 + w, 1 - w, CrossX(a, b), CrossY(a, b), z.x, z.y);
    ClearedNum(c.p, s.x, s.y, 1 + w, 1 - w, CrossX(a, b), CrossY(a, b), z.x, z.y);
    ZeroProduct(1 + w, 1 - w, c.p);
    ZeroProduct((1 + w) * (1 - w), o, c.p);
    SameZero((1 + w) * (1 - w) * o, LeftDen(c.d, a, b, z), c.p);
    ClearedQuotient(c.p, Sum(c, s, z).x, o, CrossX(s, z), (1 + w) * (1 - w), LeftDen(c.d, a, b, z), LeftNum(c.d, a, b, z));
  }

  lemma ClearedDen(p: nat, d: int, sx: int, sy: int, u: int, v: int, e: int, h: int, x: int, y: int)
    requires Same(sx * u, e, p) && Same(sy * v, h, p)
    ensures Same((u * v) * (1 + d * (sx * sy) * (x * y)), u * v + d * (e * h) * (x * y), p)
  {
    SameMul(sx * u, e, sy * v, h, p);
    SameRefl(d * (x * y), p);
    SameMul((sx * u) * (sy * v), e * h, d * (x * y), d * (x * y), p);
    SameRefl(u * v, p);
    SameAdd(u * v, u * v, ((sx * u) * (sy * v)) * (d * (x * y)), (e * h) * (d * (x * y)), p);
    DenProducts(d, sx, sy, u, v, x * y);
    assert (e * h) * (d * (x * y)) == d * (e * h) * (x * y);
  }

  lemma DenProducts(d: int, x: int, y: int, u: int, v: int, t: int)
    ensures (u * v) * (1 + d * (x * y) * t) == u * v + ((x * u) * (y * v)) * (d * t)
  {}

  lemma ClearedNum(p: nat, sx: int, sy: int, u: int, v: int, e: int, h: int, x: int, y: int)
    requires Same(sx * u, e, p) && Same(sy * v, h, p)
    ensures Same((u * v) * (sx * y + sy * x), e * v * y + h * u * x, p)
  {
    SameRefl(v * y, p);
    SameRefl(u * x, p);
    SameMul(sx * u, e, v * y, v * y, p);
    SameMul(sy * v, h, u * x, u * x, p);
    SameAdd((sx * u) * (v * y), e * (v * y), (sy * v) * (u * x), h * (u * x), p);
    assert (u * v) * (sx * y + sy * x) == (sx * u) * (v * y) + (sy * v) * (u * x);
    assert e * (v * y) + h * (u * x) == e * v * y + h * u * x;
  }

  lemma ClearedQuotient(p: nat, r: int, o: int, n: int, k: int, den: int, num: int)
    requires Same(r * o, n, p) && Same(k * o, den, p) && Same(k * n, num, p)
    ensures Same(r * den, num, p)
  {
    SameRefl(k, p);
    SameRefl(r, p);
    SameMul(k, k, r * o, n, p);
    SameMul(r, r, k * o, den, p);
    SameSym(r * (k * o), r * den, p);
    assert r * (k * o) == k * (r * o);
    SameTrans(r * den, k * (r * o), k * n, p);
    SameTrans(r * den, k * n, num, p);
  }

  lemma AssociativeX(c: Curve, a: Affine, b: Affine, z: Affine)
    requires Good(c) && Satisfies(c, a) && Satisfies(c, b) && Satisfies(c, z)
    ensures Sum(c, Sum(c, a, b), z).x == Sum(c, a, Sum(c, b, z)).x
  {
    LeftEquation(c, a, b, z);
    LeftEquation(c, z, b, a);
    SumCommutes(c, z, b);
    SumCommutes(c, Sum(c, b, z), a);
    AssociativityIdentity(c.d, a, b, z);
    CertificateZero(c.p, c.d, a, b, z);
    Scale(Certificate(c.d, a, b, z), c.d * (b.x * b.y), c.p);
    EqualQuotients(c.p, Sum(c, Sum(c, a, b), z).x, LeftDen(c.d, a, b, z), LeftNum(c.d, a, b, z),
                   Sum(c, a, Sum(c, b, z)).x, LeftDen(c.d, z, b, a), LeftNum(c.d, z, b, a));
  }

  lemma EqualQuotients(p: nat, x: int, m: int, n: int, x': int, m': int, n': int)
    requires Prime(p) && 0 <= x < p && 0 <= x' < p && !Zero(m, p) && !Zero(m', p)
    requires Same(x * m, n, p) && Same(x' * m', n', p) && Zero(n * m' - n' * m, p)
    ensures x == x'
  {
    CrossMultiplied(p, x * m, m', n, x' * m', m, n');
    Regroup(x, m, m');
    Regroup(x', m', m);
    Regroup(m, x, m');
    assert (x * m) * m' == (m * m') * x && (x' * m') * m == (m * m') * x';
    ZeroProduct(m, m', p);
    CancelFactor(m * m', x, x', p);
    CanonicalUnique(x, x', p);
  }

  lemma CrossMultiplied(p: nat, a: int, m': int, n: int, b: int, m: int, n': int)
    requires Same(a, n, p) && Same(b, n', p) && Zero(n * m' - n' * m, p)
    ensures Same(a * m', b * m, p)
  {
    SameRefl(m, p);
    SameRefl(m', p);
    SameMul(a, n, m', m', p);
    SameMul(b, n', m, m, p);
    SameSym(b * m, n' * m, p);
    SameTrans(a * m', n * m', n' * m, p);
    SameTrans(a * m', n' * m, b * m, p);
  }

  // Sums depend only on the residues of their arguments.
  lemma SumRespects(c: Curve, a: Affine, a': Affine, b: Affine)
    requires Good(c) && Satisfies(c, a) && Satisfies(c, a') && Satisfies(c, b)
    requires Same(a.x, a'.x, c.p) && Same(a.y, a'.y, c.p)
    ensures Sum(c, a, b) == Sum(c, a', b)
  {
    var s, p := Sum(c, a, b), c.p;
    SumEquations(c, a, b);
    RespectsCross(p, a.x, a'.x, a.y, a'.y, b.x, b.y);
    RespectsTwist(p, c.d, a.x, a'.x, a.y, a'.y, b.x * b.y);
    SameRefl(1, p);
    SameAdd(1, 1, Twist(c.d, a, b), Twist(c.d, a', b), p);
    SameSub(1, 1, Twist(c.d, a, b), Twist(c.d, a', b), p);
    TransferEquation(p, s.x, 1 + Twist(c.d, a, b), 1 + Twist(c.d, a', b), CrossX(a, b), CrossX(a', b));
    TransferEquation(p, s.y, 1 - Twist(c.d, a, b), 1 - Twist(c.d, a', b), CrossY(a, b), CrossY(a', b));
    SumUnique(c, a', b, s);
  }

  lemma RespectsCross(p: nat, x: int, x': int, y: int, y': int, z: int, w: int)
    requires Same(x, x', p) && Same(y, y', p)
    ensures Same(x * w + y * z, x' * w + y' * z, p) && Same(y * w + x * z, y' * w + x' * z, p)
  {
    SameRefl(z, p);
    SameRefl(w, p);
    SameMul(x, x', w, w, p);
    SameMul(y, y', z, z, p);
    SameMul(y, y', w, w, p);
    SameMul(x, x', z, z, p);
    SameAdd(x * w, x' * w, y * z, y' * z, p);
    SameAdd(y * w, y' * w, x * z, x' * z, p);
  }

  lemma RespectsTwist(p: nat, d: int, x: int, x': int, y: int, y': int, r: int)
    requires Same(x, x', p) && Same(y, y', p)
    ensures Same(d * (x * y) * r, d * (x' * y') * r, p)
  {
    SameRefl(d * r, p);
    SameMul(x, x', y, y', p);
    SameMul(d * r, d * r, x * y, x' * y', p);
    assert d * r * (x * y) == d * (x * y) * r && d * r * (x' * y') == d * (x' * y') * r;
  }

  lemma TransferEquation(p: nat, s: int, k: int, k': int, n: int, n': int)
    requires Same(s * k, n, p) && Same(k, k', p) && Same(n, n', p)
    ensures Same(s * k', n', p)
  {
    SameRefl(s, p);
    SameMul(s, s, k, k', p);
    SameSym(s * k, s * k', p);
    SameTrans(s * k', s * k, n, p);
    SameTrans(s * k', n, n', p);
  }

  // Adding the point (i, 0) of order four swaps the coordinates, up to the factor i.
  function Rotate(c: Curve, a: Affine): Affine
  {
    Affine(c.i * a.y, c.i * a.x)
  }

  lemma RotateSatisfies(c: Curve, a: Affine)
    requires Good(c) && Satisfies(c, a)
    ensures Satisfies(c, Rotate(c, a))
  {
    var f, j := Equation(c.d, a.x, a.y), c.i * c.i - -1;
    var m := a.x * a.x - a.y * a.y - c.d * (a.x * a.y) * (a.x * a.y) * (c.i * c.i - 1);
    RotateIdentity(c.d, c.i, a.x, a.y);
    Linear(f, 1, j, m, c.p);
  }

  lemma RotateIdentity(d: int, i: int, x: int, y: int)
    ensures (i * x) * (i * x) - (i * y) * (i * y) - 1 - d * ((i * y) * (i * x)) * ((i * y) * (i * x))
         == (y * y - x * x - 1 - d * (x * y) * (x * y)) * 1
            + (i * i - -1) * (x * x - y * y - d * (x * y) * (x * y) * (i * i - 1))
  {
    var k, g := i * i, d * (x * y) * (x * y);
    assert d * ((i * y) * (i * x)) * ((i * y) * (i * x)) == (k * k) * g;
    assert (i * x) * (i * x) == k * (x * x) && (i * y) * (i * y) == k * (y * y);
    assert (k + 1) * (x * x - y * y - g * (k - 1)) == k * (x * x) - k * (y * y) + x * x - y * y - (k * k) * g + g;
  }

  // (rotated a) + b is a + b rotated.
  lemma RotateSum(c: Curve, a: Affine, b: Affine)
    requires Good(c) && Satisfies(c, a) && Satisfies(c, b)
    ensures (var r, s := Sum(c, Rotate(c, a), b), Rotate(c, Sum(c, a, b));
             Same(r.x, s.x, c.p) && Same(r.y, s.y, c.p))
  {
    var p, i, s, w := c.p, c.i, Sum(c, a, b), Twist(c.d, a, b);
    RotateSatisfies(c, a);
    SumEquations(c, a, b);
    SumEquations(c, Rotate(c, a), b);
    Complete(c, a, b);
    RotateTwist(p, c.d, i, a, b);
    RotateCross(i, a, b);
    SameRefl(1, p);
    SameAdd(1, 1, Twist(c.d, Rotate(c, a), b), -w, p);
    SameSub(1, 1, Twist(c.d, Rotate(c, a), b), -w, p);
    SameRefl(i * CrossY(a, b), p);
    SameRefl(i * CrossX(a, b), p);
    TransferEquation(p, Sum(c, Rotate(c, a), b).x, 1 + Twist(c.d, Rotate(c, a), b), 1 - w, i * CrossY(a, b), i * CrossY(a, b));
    TransferEquation(p, Sum(c, Rotate(c, a), b).y, 1 - Twist(c.d, Rotate(c, a), b), 1 + w, i * CrossX(a, b), i * CrossX(a, b));
    RotatedQuotient(p, i, Sum(c, Rotate(c, a), b).x, s.y, 1 - w, CrossY(a, b));
    RotatedQuotient(p, i, Sum(c, Rotate(c, a), b).y, s.x, 1 + w, CrossX(a, b));
  }

  lemma RotateTwist(p: nat, d: int, i: int, a: Affine, b: Affine)
    requires Same(i * i, -1, p)
    ensures Same(d * ((i * a.y) * (i * a.x)) * (b.x * b.y), -Twist(d, a, b), p)
  {
    var w := Twist(d, a, b);
    SameRefl(w, p);
    SameMul(i * i, -1, w, w, p);
    RotateTwistShape(d, i, a.x, a.y, b.x * b.y);
  }

  lemma RotateTwistShape(d: int, i: int, x: int, y: int, r: int)
    ensures d * ((i * y) * (i * x)) * r == (i * i) * (d * (x * y) * r)
  {}

  lemma RotateCross(i: int, a: Affine, b: Affine)
    ensures (i * a.y) * b.y + (i * a.x) * b.x == i * CrossY(a, b)
    ensures (i * a.x) * b.y + (i * a.y) * b.x == i * CrossX(a, b)
  {}

  lemma RotatedQuotient(p: nat, i: int, r: int, s: int, k: int, n: int)
    requires Prime(p) && !Zero(k, p) && Same(r * k, i * n, p) && Same(s * k, n, p)
    ensures Same(r, i * s, p)
  {
    SameRefl(i, p);
    SameMul(i, i, s * k, n, p);
    SameSym(i * (s * k), i * n, p);
    SameTrans(r * k, i * n, i * (s * k), p);
    assert r * k == k * r && i * (s * k) == k * (i * s);
    CancelFactor(k, r, i * s, p);
  }

  lemma AssociativeY(c: Curve, a: Affine, b: Affine, z: Affine)
    requires Good(c) && Satisfies(c, a) && Satisfies(c, b) && Satisfies(c, z)
    ensures Sum(c, Sum(c, a, b), z).y == Sum(c, a, Sum(c, b, z)).y
  {
    var p, o := c.p, Rotate(c, a);
    RotateSatisfies(c, a);
    SumClosed(c, a, b);
    SumClosed(c, b, z);
    SumClosed(c, o, b);
    RotateSatisfies(c, Sum(c, a, b));
    AssociativeX(c, o, b, z);
    RotateSum(c, a, b);
    SumRespects(c, Sum(c, o, b), Rotate(c, Sum(c, a, b)), z);
    RotateSum(c, Sum(c, a, b), z);
    RotateSum(c, a, Sum(c, b, z));
    var r := Sum(c, o, Sum(c, b, z)).x;
    SameSym(r, c.i * Sum(c, Sum(c, a, b), z).y, p);
    SameTrans(c.i * Sum(c, Sum(c, a, b), z).y, r, c.i * Sum(c, a, Sum(c, b, z)).y, p);
    RootNonZero(p, c.i);
    CancelFactor(c.i, Sum(c, Sum(c, a, b), z).y, Sum(c, a, Sum(c, b, z)).y, p);
    CanonicalUnique(Sum(c, Sum(c, a, b), z).y, Sum(c, a, Sum(c, b, z)).y, p);
  }

  // The affine addition law is associative.
  lemma Associative(c: Curve, a: Affine, b: Affine, z: Affine)
    requires Good(c) && OnCurve(c, a) && OnCurve(c, b) && OnCurve(c, z)
    ensures Sum(c, Sum(c, a, b), z) == Sum(c, a, Sum(c, b, z))
  {
    AssociativeX(c, a, b, z);
    AssociativeY(c, a, b, z);
  }

  // ---------------------------------------------------------- scalar multiples

  // The n-fold sum of a point.
  ghost function Multiply(c: Curve, n: nat, a: Affine): Affine
    requires c.p >= 2
  {
    if n == 0 then NEUTRAL else Sum(c, Multiply(c, n - 1, a), a)
  }

  lemma {:induction false} MultiplyClosed(c: Curve, n: nat, a: Affine)
    requires Good(c) && OnCurve(c, a)
    ensures OnCurve(c, Multiply(c, n, a))
  {
    if n == 0 {
      NeutralOnCurve(c);
    } else {
      MultiplyClosed(c, n - 1, a);
      SumClosed(c, Multiply(c, n - 1, a), a);
    }
  }

  lemma {:induction false} MultiplyAdd(c: Curve, m: nat, n: nat, a: Affine)
    requires Good(c) && OnCurve(c, a)
    ensures Multiply(c, m + n, a) == Sum(c, Multiply(c, m, a), Multiply(c, n, a))
  {
    MultiplyClosed(c, m, a);
    MultiplyClosed(c, n, a);
    if n == 0 {
      SumNeutral(c, Multiply(c, m, a));
    } else {
      MultiplyAdd(c, m, n - 1, a);
      MultiplyClosed(c, n - 1, a);
      Associative(c, Multiply(c, m, a), Multiply(c, n - 1, a), a);
    }
  }

  lemma {:induction false} MultiplyProduct(c: Curve, m: nat, n: nat, k: nat, a: Affine)
    requires Good(c) && OnCurve(c, a) && k == m * n
    ensures OnCurve(c, Multiply(c, n, a))
    ensures Multiply(c, m, Multiply(c, n, a)) == Multiply(c, k, a)
  {
    MultiplyClosed(c, n, a);
    if m > 0 {
      PredecessorProduct(m, n);
      MultiplyProduct(c, m - 1, n, k - n, a);
      MultiplyAdd(c, k - n, n, a);
    }
  }

  lemma PredecessorProduct(m: nat, n: nat)
    requires m > 0
    ensures m * n >= n && m * n - n == (m - 1) * n
  {
    assert m * n == (m - 1) * n + n;
  }
}
