// Arithmetic in the integers modulo a prime p with p = 5 (mod 8), given as a number i whose square
// is -1: zero tests, inverses, square roots. Used with p = 2^255 - 19, but nothing here
// depends on the size of p.
module PrimeField {
  import opened NumberTheory

  // Multiples of p, kept behind a name so that proofs treat them as an ideal of the integers.
  function Multiple(k: int, p: nat): int
  {
    k * p
  }

  ghost predicate Zero(a: int, p: nat)
  {
    exists k: int :: a == Multiple(k, p)
  }

  ghost predicate Same(a: int, b: int, p: nat)
  {
    Zero(a - b, p)
  }

  lemma ZeroIsRemainder(a: int, p: nat)
    requires p > 0
    ensures Zero(a, p) <==> a % p == 0
  {
    if Zero(a, p) {
      var k: int :| a == Multiple(k, p);
      MultipleIsZero(k, p);
    }
    if a % p == 0 {
      assert a == Multiple(a / p, p);
    }
  }

  lemma SameIsCong(a: int, b: int, p: nat)
    requires p > 0
    ensures Same(a, b, p) <==> Cong(a, b, p)
  {
    ZeroIsRemainder(a - b, p);
  }

  // ------------------------------------------------------ ideal operations

  lemma Linear(a: int, s: int, b: int, t: int, p: nat)
    requires Zero(a, p) && Zero(b, p)
    ensures Zero(a * s + b * t, p)
  {
    var k: int :| a == Multiple(k, p);
    var l: int :| b == Multiple(l, p);
    CombineMultiples(k, l, s, t, p);
    assert a * s + b * t == Multiple(k * s + l * t, p);
  }

  lemma CombineMultiples(k: int, l: int, s: int, t: int, p: int)
    ensures (k * p) * s + (l * p) * t == (k * s + l * t) * p
  {}

  lemma Scale(a: int, s: int, p: nat)
    requires Zero(a, p)
    ensures Zero(a * s, p)
  {
    Linear(a, s, a, 0, p);
    assert a * s + a * 0 == a * s;
  }

  lemma Add(a: int, b: int, p: nat)
    requires Zero(a, p) && Zero(b, p)
    ensures Zero(a + b, p)
  {
    Linear(a, 1, b, 1, p);
  }

  lemma Subtract(a: int, b: int, p: nat)
    requires Zero(a, p) && Zero(b, p)
    ensures Zero(a - b, p)
  {
    Linear(a, 1, b, -1, p);
  }

  lemma SameRefl(a: int, p: nat)
    ensures Same(a, a, p)
  {
    assert a - a == Multiple(0, p);
  }

  lemma SameSym(a: int, b: int, p: nat)
    requires Same(a, b, p)
    ensures Same(b, a, p)
  {
    Scale(a - b, -1, p);
    assert (a - b) * -1 == b - a;
  }

  lemma SameTrans(a: int, b: int, c: int, p: nat)
    requires Same(a, b, p) && Same(b, c, p)
    ensures Same(a, c, p)
  {
    Add(a - b, b - c, p);
    assert (a - b) + (b - c) == a - c;
  }

  lemma SameAdd(a: int, b: int, c: int, d: int, p: nat)
    requires Same(a, b, p) && Same(c, d, p)
    ensures Same(a + c, b + d, p)
  {
    Add(a - b, c - d, p);
    assert (a - b) + (c - d) == (a + c) - (b + d);
  }

  lemma SameSub(a: int, b: int, c: int, d: int, p: nat)
    requires Same(a, b, p) && Same(c, d, p)
    ensures Same(a - c, b - d, p)
  {
    Subtract(a - b, c - d, p);
    assert (a - b) - (c - d) == (a - c) - (b - d);
  }

  lemma SameMul(a: int, b: int, c: int, d: int, p: nat)
    requires Same(a, b, p) && Same(c, d, p)
    ensures Same(a * c, b * d, p)
  {
    Linear(a - b, c, c - d, b, p);
    MulDifference(a, b, c, d);
  }

  lemma MulDifference(a: int, b: int, c: int, d: int)
    ensures a * c - b * d == (a - b) * c + (c - d) * b
  {}

  lemma SameZero(a: int, b: int, p: nat)
    requires Same(a, b, p)
    ensures Zero(a, p) <==> Zero(b, p)
  {
    if Zero(b, p) {
      Add(a - b, b, p);
    }
    if Zero(a, p) {
      Subtract(a, a - b, p);
    }
  }

  lemma SamePow(a: int, b: int, e: nat, p: nat)
    requires p > 0 && Same(a, b, p)
    ensures Same(Pow(a, e), Pow(b, e), p)
  {
    SameIsCong(a, b, p);
    PowCong(a, b, e, p);
    SameIsCong(Pow(a, e), Pow(b, e), p);
  }

  lemma RemainderSame(a: int, p: nat)
    requires p > 0
    ensures Same(a % p, a, p)
  {
    assert a % p - a == Multiple(-(a / p), p);
  }

  // Equal residues in [0, p) are equal numbers.
  lemma CanonicalUnique(a: int, b: int, p: nat)
    requires 0 <= a < p && 0 <= b < p && Same(a, b, p)
    ensures a == b
  {
    var k: int :| a - b == Multiple(k, p);
    ProductBound(k, p);
  }

  lemma SmallNonZero(a: int, p: nat)
    requires 0 < a < p
    ensures !Zero(a, p) && !Zero(-a, p)
  {
    if Zero(a, p) {
      var k: int :| a == Multiple(k, p);
      ProductBound(k, p);
    }
    if Zero(-a, p) {
      var k: int :| -a == Multiple(k, p);
      ProductBound(k, p);
    }
  }

  // ---------------------------------------------------------- prime modulus

  lemma ZeroProduct(a: int, b: int, p: nat)
    requires Prime(p)
    ensures Zero(a * b, p) <==> Zero(a, p) || Zero(b, p)
  {
    if Zero(a * b, p) {
      ZeroIsRemainder(a * b, p);
      Euclid(p, a, b);
      ZeroIsRemainder(a, p);
      ZeroIsRemainder(b, p);
    } else {
      if Zero(a, p) {
        Scale(a, b, p);
      }
      if Zero(b, p) {
        Scale(b, a, p);
      }
    }
  }

  // Cancelling a nonzero factor.
  lemma CancelFactor(k: int, a: int, b: int, p: nat)
    requires Prime(p) && !Zero(k, p) && Same(k * a, k * b, p)
    ensures Same(a, b, p)
  {
    assert k * a - k * b == k * (a - b);
    ZeroProduct(k, a - b, p);
  }

  lemma FermatSame(a: int, p: nat)
    requires Prime(p) && !Zero(a, p)
    ensures Same(Pow(a, p - 1), 1, p)
  {
    ZeroIsRemainder(a, p);
    Fermat(p, a);
    SameIsCong(Pow(a, p - 1), 1, p);
  }

  // The inverse the code computes: a^(p-2), reduced.
  ghost function Inv(a: int, p: nat): (r: int)
    requires p >= 2
    ensures 0 <= r < p
  {
    Pow(a, p - 2) % p
  }

  lemma InverseLaw(a: int, p: nat)
    requires Prime(p) && !Zero(a, p)
    ensures Same(a * Inv(a, p), 1, p)
  {
    var w := Pow(a, p - 2);
    FermatSame(a, p);
    assert Pow(a, p - 1) == a * w;
    RemainderSame(w, p);
    SameRefl(a, p);
    SameMul(a, a, w % p, w, p);
    SameTrans(a * (w % p), a * w, 1, p);
  }

  // The canonical quotient n / k.
  ghost function Quot(n: int, k: int, p: nat): (r: int)
    requires p >= 2
    ensures 0 <= r < p
  {
    (n * Inv(k, p)) % p
  }

  lemma QuotLaw(n: int, k: int, p: nat)
    requires Prime(p) && !Zero(k, p)
    ensures Same(Quot(n, k, p) * k, n, p)
  {
    RemainderSame(n * Inv(k, p), p);
    InverseLaw(k, p);
    QuotStep(Quot(n, k, p), n, Inv(k, p), k, p);
  }

  lemma QuotStep(q: int, n: int, v: int, k: int, p: nat)
    requires Same(q, n * v, p) && Same(k * v, 1, p)
    ensures Same(q * k, n, p)
  {
    SameRefl(k, p);
    SameRefl(n, p);
    SameMul(q, n * v, k, k, p);
    SameMul(n, n, k * v, 1, p);
    assert n * v * k == n * (k * v);
    SameTrans(q * k, n * v * k, n, p);
  }

  // A quotient is the only canonical solution of its equation.
  lemma QuotUnique(n: int, k: int, x: int, p: nat)
    requires Prime(p) && !Zero(k, p) && 0 <= x < p && Same(x * k, n, p)
    ensures x == Quot(n, k, p)
  {
    var y := Quot(n, k, p);
    QuotLaw(n, k, p);
    SameSym(y * k, n, p);
    SameTrans(x * k, n, y * k, p);
    CancelFactor(k, x, y, p);
    CanonicalUnique(x, y, p);
  }

  // ---------------------------------------------------------------- squares

  // A prime p = 5 (mod 8) together with a square root of -1.
  ghost predicate RootedPrime(p: nat, i: int)
  {
    Prime(p) && p % 8 == 5 && Same(i * i, -1, p)
  }

  lemma {:induction false} MinusOnePower(n: nat)
    ensures Pow(-1, 2 * n + 1) == -1
  {
    if n == 0 {
      assert Pow(-1, 1) == -1 * Pow(-1, 0);
    } else {
      MinusOnePower(n - 1);
      assert Pow(-1, 2 * n + 1) == -1 * (-1 * Pow(-1, 2 * n - 1));
    }
  }

  // (p - 1) / 4 is odd, so i^((p-1)/2) = (-1)^((p-1)/4) = -1.
  lemma RootPower(p: nat, i: int)
    requires RootedPrime(p, i)
    ensures Same(Pow(i, (p - 1) / 2), -1, p)
  {
    var n := (p - 5) / 8;
    PowDouble(i, 2 * n + 1);
    SamePow(i * i, -1, 2 * n + 1, p);
    MinusOnePower(n);
    assert 2 * (2 * n + 1) == (p - 1) / 2;
  }

  // A nonzero square raised to (p-1)/2 is 1.
  lemma SquarePower(a: int, p: nat)
    requires Prime(p) && p % 2 == 1 && !Zero(a, p)
    ensures Same(Pow(a * a, (p - 1) / 2), 1, p)
  {
    PowDouble(a, (p - 1) / 2);
    FermatSame(a, p);
  }

  // i is not a ratio of squares: i m^2 = g^2 forces m = 0.
  lemma RootNotSquare(p: nat, i: int, m: int, g: int)
    requires RootedPrime(p, i) && Same(i * (m * m), g * g, p)
    ensures Zero(m, p)
  {
    if !Zero(m, p) {
      NonZeroRoot(p, i, m, g);
      SquarePower(m, p);
      SquarePower(g, p);
      RootPower(p, i);
      SamePow(i * (m * m), g * g, (p - 1) / 2, p);
      PowProduct(i, m * m, (p - 1) / 2);
      SignsClash(p, Pow(i, (p - 1) / 2), Pow(m * m, (p - 1) / 2), Pow(g * g, (p - 1) / 2));
    }
  }

  lemma NonZeroRoot(p: nat, i: int, m: int, g: int)
    requires RootedPrime(p, i) && Same(i * (m * m), g * g, p) && !Zero(m, p)
    ensures !Zero(g, p)
  {
    RootNonZero(p, i);
    ZeroProduct(m, m, p);
    ZeroProduct(i, m * m, p);
    SameZero(i * (m * m), g * g, p);
    ZeroProduct(g, g, p);
  }

  // A product of -1 and 1 is not 1.
  lemma SignsClash(p: nat, a: int, b: int, c: int)
    requires p > 2 && Same(a, -1, p) && Same(b, 1, p) && Same(a * b, c, p)
    ensures !Same(c, 1, p)
  {
    SmallNonZero(2, p);
    SameMul(a, -1, b, 1, p);
    SameSym(a * b, -1 * 1, p);
    SameTrans(-1, a * b, c, p);
    if Same(c, 1, p) {
      SameTrans(-1, c, 1, p);
    }
  }

  lemma RootNonZero(p: nat, i: int)
    requires RootedPrime(p, i)
    ensures !Zero(i, p)
  {
    if Zero(i, p) {
      Scale(i, i, p);
      SameZero(i * i, -1, p);
      SmallNonZero(1, p);
    }
  }

  // 2 is not a ratio of squares: 2 n^2 = m^2 forces n = 0, because (1 + i)^2 = 2 i.
  lemma TwoNotSquare(p: nat, i: int, n: int, m: int)
    requires RootedPrime(p, i) && Same(2 * (n * n), m * m, p)
    ensures Zero(n, p)
  {
    var g := (1 + i) * n;
    TwoIdentity(i, n, m);
    Linear(2 * (n * n) - m * m, -i, i * i - -1, -(n * n), p);
    RootNotSquare(p, i, m, g);
    Scale(m, m, p);
    SameZero(2 * (n * n), m * m, p);
    SmallNonZero(2, p);
    ZeroProduct(2, n * n, p);
    ZeroProduct(n, n, p);
  }

  lemma TwoIdentity(i: int, n: int, m: int)
    ensures i * (m * m) - ((1 + i) * n) * ((1 + i) * n)
         == (2 * (n * n) - m * m) * -i + (i * i - -1) * -(n * n)
  {}

  // 2^((p-1)/4) is a square root of -1: (1 + i)^2 = 2 i, so 2^h i^h = ((1 + i)^2)^h = 1, and i^h = -1.
  lemma TwoPowerRoot(p: nat, i: int)
    requires RootedPrime(p, i)
    ensures (var r := Pow(2, (p - 1) / 4); Same(r * r, -1, p))
  {
    var h, g := (p - 1) / 2, 1 + i;
    PowAdd(2, (p - 1) / 4, (p - 1) / 4);
    OnePlusRoot(p, i, g);
    SamePow(g * g, 2 * i, h, p);
    SquarePower(g, p);
    PowProduct(2, i, h);
    RootPower(p, i);
    OtherFactor(p, Pow(2, h), Pow(i, h), Pow(g * g, h));
  }

  lemma OnePlusRoot(p: nat, i: int, g: int)
    requires RootedPrime(p, i) && g == 1 + i
    ensures Same(g * g, 2 * i, p) && !Zero(g, p)
  {
    assert g * g - 2 * i == i * i - -1;
    SmallNonZero(2, p);
    RootNonZero(p, i);
    ZeroProduct(2, i, p);
    SameZero(g * g, 2 * i, p);
    ZeroProduct(g, g, p);
  }

  // If w v = 1 and v = -1, then w = -1.
  lemma OtherFactor(p: nat, w: int, v: int, c: int)
    requires Same(c, w * v, p) && Same(c, 1, p) && Same(v, -1, p)
    ensures Same(w, -1, p)
  {
    SameRefl(w, p);
    SameMul(w, w, v, -1, p);
    SameSym(c, w * v, p);
    SameTrans(w * v, c, 1, p);
    SameSym(w * v, w * -1, p);
    SameTrans(w * -1, w * v, 1, p);
    Scale(w * -1 - 1, -1, p);
    assert (w * -1 - 1) * -1 == w - -1;
  }
}
