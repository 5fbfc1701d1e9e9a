// Recovering x from y on an Edwards curve: the quotient (y^2 - 1) / (d y^2 + 1), and its square root
// in a field with p = 5 (mod 8).
module Decompression {
  import opened NumberTheory
  import opened PrimeField
  import opened EdwardsCurve

  // The denominator is never zero: -1 is a square and d is not.
  lemma DenominatorNonZero(c: Curve, y: int)
    requires Good(c)
    ensures !Zero(c.d * (y * y) + 1, c.p)
  {
    var p := c.p;
    if Zero(c.d * (y * y) + 1, p) {
      Subtract(c.d * (y * y) + 1, c.i * c.i - -1, p);
      ConstantNotSquare(c, y, c.i);
      ZeroProduct(y, y, p);
      ZeroProduct(c.d, y * y, p);
      SameZero(1, 0 - c.d * (y * y), p);
      Scale(c.d * (y * y), -1, p);
      SmallNonZero(1, p);
      assert false;
    }
  }

  // A point lies on the curve exactly when x^2 is the quotient.
  lemma EquationIsQuotient(c: Curve, x: int, y: int, candidate: int)
    requires Good(c) && Same(candidate * (c.d * (y * y) + 1), y * y - 1, c.p)
    ensures Satisfies(c, Affine(x, y)) <==> Same(x * x, candidate, c.p)
  {
    var k, p := c.d * (y * y) + 1, c.p;
    EquationShape(c.d, x, y);
    assert Equation(c.d, x, y) == (y * y - 1) - (x * x) * k;
    DenominatorNonZero(c, y);
    if Satisfies(c, Affine(x, y)) {
      SameTrans(candidate * k, y * y - 1, (x * x) * k, p);
      assert candidate * k == k * candidate && (x * x) * k == k * (x * x);
      CancelFactor(k, candidate, x * x, p);
      SameSym(candidate, x * x, p);
    }
    if Same(x * x, candidate, p) {
      SameRefl(k, p);
      SameMul(x * x, candidate, k, k, p);
      SameTrans((x * x) * k, candidate * k, y * y - 1, p);
      SameSym((x * x) * k, y * y - 1, p);
    }
  }

  lemma EquationShape(d: int, x: int, y: int)
    ensures y * y - x * x - 1 - d * (x * y) * (x * y) == (y * y - 1) - (x * x) * (d * (y * y) + 1)
  {
    assert d * (x * y) * (x * y) == (x * x) * (d * (y * y));
  }

  // Squares that agree come from roots that agree up to sign.
  lemma RootsUpToSign(x: int, y: int, p: nat)
    requires Prime(p) && Same(x * x, y * y, p)
    ensures Same(x, y, p) || Zero(x + y, p)
  {
    assert x * x - y * y == (x - y) * (x + y);
    ZeroProduct(x - y, x + y, p);
  }

  // For a square a = s^2, the number r = a^((p+3)/8) or r times a root of -1 is a root of a.
  lemma CandidateRoot(p: nat, i: int, a: int, s: int, r: int)
    requires RootedPrime(p, i) && Same(s * s, a, p) && Same(r, Pow(a, (p + 3) / 8), p)
    ensures Same(r * r, a, p) || Same((r * i) * (r * i), a, p)
  {
    var e := (p + 3) / 8;
    assert p == 8 * e - 3;
    CandidateSquare(p, a, r, e);
    if Zero(s, p) {
      Scale(s, s, p);
      SameZero(s * s, a, p);
      Scale(a, Pow(a, 2 * e - 1), p);
      SameZero(r * r, a * Pow(a, 2 * e - 1), p);
      Subtract(r * r, a, p);
    } else {
      SquareOfPower(p, a, s, 2 * e - 1);
      RootsUpToSign(Pow(a, 2 * e - 1), 1, p);
      SignedRoot(p, i, a, Pow(a, 2 * e - 1), r);
    }
  }

  // r^2 = a^((p+3)/4) = a * a^((p-1)/4).
  lemma CandidateSquare(p: nat, a: int, r: int, e: nat)
    requires e > 0 && Same(r, Pow(a, e), p)
    ensures Same(r * r, a * Pow(a, 2 * e - 1), p)
  {
    SameMul(r, Pow(a, e), r, Pow(a, e), p);
    PowAdd(a, e, e);
  }

  lemma SignedRoot(p: nat, i: int, a: int, w: int, r: int)
    requires Same(r * r, a * w, p) && Same(i * i, -1, p) && (Same(w, 1, p) || Zero(w + 1, p))
    ensures Same(r * r, a, p) || Same((r * i) * (r * i), a, p)
  {
    SameRefl(a, p);
    if Same(w, 1, p) {
      SameMul(a, a, w, 1, p);
      SameTrans(r * r, a * w, a * 1, p);
    } else {
      assert Same(w, -1, p);
      SameMul(a, a, w, -1, p);
      SameTrans(r * r, a * w, a * -1, p);
      SameMul(r * r, a * -1, i * i, -1, p);
      SquareOfProduct(r, i);
    }
  }

  lemma SquareOfProduct(r: int, i: int)
    ensures (r * i) * (r * i) == (r * r) * (i * i)
  {}

  // (s^2)^((p-1)/4) squares to s^(p-1) = 1.
  lemma SquareOfPower(p: nat, a: int, s: int, m: nat)
    requires Prime(p) && p == 4 * m + 1 && !Zero(s, p) && Same(s * s, a, p)
    ensures Same(Pow(a, m) * Pow(a, m), 1 * 1, p)
  {
    var h := m + m;
    PowAdd(a, m, m);
    SamePow(s * s, a, h, p);
    SquarePower(s, p);
    assert h == (p - 1) / 2;
    SameSym(Pow(s * s, h), Pow(a, h), p);
    SameTrans(Pow(a, h), Pow(s * s, h), 1, p);
  }

  // Two canonical points with the same y and the same parity of x are the same point.
  lemma ParityDecides(c: Curve, a: Affine, b: Affine)
    requires Good(c) && OnCurve(c, a) && OnCurve(c, b) && a.y == b.y && a.x % 2 == b.x % 2
    ensures a == b
  {
    var p := c.p;
    var k := Quot(a.y * a.y - 1, c.d * (a.y * a.y) + 1, p);
    DenominatorNonZero(c, a.y);
    QuotLaw(a.y * a.y - 1, c.d * (a.y * a.y) + 1, p);
    EquationIsQuotient(c, a.x, a.y, k);
    EquationIsQuotient(c, b.x, b.y, k);
    SameSym(b.x * b.x, k, p);
    SameTrans(a.x * a.x, k, b.x * b.x, p);
    RootsUpToSign(a.x, b.x, p);
    if Same(a.x, b.x, p) {
      CanonicalUnique(a.x, b.x, p);
    } else {
      SumIsModulus(a.x, b.x, p);
    }
  }

  lemma SumIsModulus(x: nat, y: nat, p: nat)
    requires x < p && y < p && Zero(x + y, p)
    ensures (x == 0 && y == 0) || x + y == p
  {
    var k: int :| x + y == Multiple(k, p);
    ProductBound(k, p);
    ProductBound(k - 2, p);
    assert (k - 2) * p == k * p - 2 * p;
  }
}
