// Elementary number theory behind the curve arithmetic: Euclid's lemma, powers, and
// Fermat's little theorem, all for an arbitrary prime.
module NumberTheory {

  ghost predicate Divides(k: int, n: int)
    requires k != 0
  {
    n % k == 0
  }

  ghost predicate Prime(p: nat)
  {
    p > 1 && forall k: nat :: 1 < k < p ==> !Divides(k, p)
  }

  ghost predicate Cong(a: int, b: int, p: nat)
    requires p > 0
  {
    (a - b) % p == 0
  }

  function Pow(b: int, e: nat): int
  {
    if e == 0 then 1 else b * Pow(b, e - 1)
  }

  // ---------------------------------------------------------------- multiples

  lemma MultipleIsZero(k: int, p: nat)
    requires p > 0
    ensures (k * p) % p == 0
  {
    RemainderUnique(k * p, k, 0, p);
  }

  lemma RemainderUnique(a: int, q: int, r: int, p: nat)
    requires p > 0 && 0 <= r < p && a == q * p + r
    ensures a % p == r && a / p == q
  {
    var d := a / p - q;
    assert a == (a / p) * p + a % p;
    assert d * p == r - a % p by {
      assert d * p == (a / p) * p - q * p;
    }
    ProductBound(d, p);
  }

  lemma ProductBound(d: int, p: nat)
    ensures d >= 1 ==> d * p >= p
    ensures d <= -1 ==> d * p <= 0 - p
  {
    if d >= 1 {
      assert d * p == (d - 1) * p + p;
    } else if d <= -1 {
      assert d * p == (d + 1) * p - p;
    }
  }

  // A zero remainder is an exact multiple.
  lemma Quotient(a: int, p: nat) returns (k: int)
    requires p > 0 && a % p == 0
    ensures a == k * p
  {
    k := a / p;
  }

  // Every integer combination of multiples of p is a multiple of p.
  lemma Combine(a: int, s: int, b: int, t: int, p: nat)
    requires p > 0 && a % p == 0 && b % p == 0
    ensures (a * s + b * t) % p == 0
  {
    var k := Quotient(a, p);
    var l := Quotient(b, p);
    assert a * s + b * t == (k * s + l * t) * p by {
      assert a * s == (k * s) * p;
      assert b * t == (l * t) * p;
    }
    MultipleIsZero(k * s + l * t, p);
  }

  lemma CongAdd(a: int, b: int, c: int, d: int, p: nat)
    requires p > 0 && Cong(a, b, p) && Cong(c, d, p)
    ensures Cong(a + c, b + d, p)
  {
    Combine(a - b, 1, c - d, 1, p);
  }

  lemma CongMul(a: int, b: int, c: int, d: int, p: nat)
    requires p > 0 && Cong(a, b, p) && Cong(c, d, p)
    ensures Cong(a * c, b * d, p)
  {
    Combine(a - b, c, c - d, b, p);
    assert a * c - b * d == (a - b) * c + (c - d) * b;
  }

  lemma CongTrans(a: int, b: int, c: int, p: nat)
    requires p > 0 && Cong(a, b, p) && Cong(b, c, p)
    ensures Cong(a, c, p)
  {
    Combine(a - b, 1, b - c, 1, p);
  }

  // ------------------------------------------------------------ Euclid's lemma

  // A prime that divides a * b with 0 < a < p divides b, by the Euclidean algorithm on a.
  lemma {:induction false} EuclidSmall(p: nat, a: nat, b: int)
    requires Prime(p) && 0 < a < p && (a * b) % p == 0
    ensures b % p == 0
    decreases a
  {
    if a > 1 {
      var r := p % a;
      assert !Divides(a, p);
      TimesRemainder(p, p / a, a, r, b);
      RemainderUnique(p, 1, 0, p);
      Combine(p, b, a * b, -(p / a), p);
      EuclidSmall(p, r, b);
    }
  }

  lemma TimesRemainder(p: int, q: int, a: int, r: int, b: int)
    requires p == q * a + r
    ensures r * b == p * b + (a * b) * -q && r * b == p * b - (q * a) * b
  {
    assert p * b == (q * a) * b + r * b;
    assert (q * a) * b == q * (a * b);
  }

  lemma Euclid(p: nat, a: int, b: int)
    requires Prime(p) && (a * b) % p == 0
    ensures a % p == 0 || b % p == 0
  {
    var r := a % p;
    if r != 0 {
      TimesRemainder(a, a / p, p, r, b);
      RemainderUnique(p, 1, 0, p);
      Combine(a * b, 1, p, -((a / p) * b), p);
      assert p * -((a / p) * b) == -((a / p) * p) * b;
      EuclidSmall(p, r, b);
    }
  }

  // -------------------------------------------------------------------- powers

  lemma {:induction false} PowAdd(b: int, m: nat, n: nat)
    ensures Pow(b, m + n) == Pow(b, m) * Pow(b, n)
  {
    if m > 0 {
      PowAdd(b, m - 1, n);
      assert b * (Pow(b, m - 1) * Pow(b, n)) == (b * Pow(b, m - 1)) * Pow(b, n);
    }
  }

  lemma {:induction false} PowProduct(a: int, b: int, e: nat)
    ensures Pow(a * b, e) == Pow(a, e) * Pow(b, e)
  {
    if e > 0 {
      PowProduct(a, b, e - 1);
      Interchange(a, b, Pow(a, e - 1), Pow(b, e - 1));
    }
  }

  lemma Interchange(a: int, b: int, x: int, y: int)
    ensures (a * b) * (x * y) == (a * x) * (b * y)
  {}

  lemma PowDouble(b: int, e: nat)
    ensures Pow(b * b, e) == Pow(b, 2 * e)
  {
    PowProduct(b, b, e);
    PowAdd(b, e, e);
  }

  lemma {:induction false} PowCong(a: int, b: int, e: nat, p: nat)
    requires p > 0 && Cong(a, b, p)
    ensures Cong(Pow(a, e), Pow(b, e), p)
  {
    if e > 0 {
      PowCong(a, b, e - 1, p);
      CongMul(a, b, Pow(a, e - 1), Pow(b, e - 1), p);
    }
  }

  lemma {:induction false} PowOne(e: nat)
    ensures Pow(1, e) == 1
  {
    if e > 0 {
      PowOne(e - 1);
    }
  }

  lemma {:induction false} PowZero(e: nat)
    requires e > 0
    ensures Pow(0, e) == 0
  {}

  // ------------------------------------------------- Fermat's little theorem

  function Choose(n: nat, k: nat): nat
  {
    if k == 0 then 1 else if n == 0 then 0 else Choose(n - 1, k - 1) + Choose(n - 1, k)
  }

  lemma {:induction false} ChooseBeyond(n: nat, k: nat)
    requires k > n
    ensures Choose(n, k) == 0
  {
    if n > 0 {
      ChooseBeyond(n - 1, k - 1);
      ChooseBeyond(n - 1, k);
    }
  }

  // k * C(n, k) = n * C(n - 1, k - 1).
  lemma {:induction false} Absorption(n: nat, k: nat)
    requires n >= 1 && k >= 1
    ensures k * Choose(n, k) == n * Choose(n - 1, k - 1)
  {
    if n == 1 {
      if k >= 2 {
        ChooseBeyond(0, k - 1);
        ChooseBeyond(0, k);
      }
    } else {
      Absorption(n - 1, k);
      if k >= 2 {
        Absorption(n - 1, k - 1);
        AbsorptionStep(n, k, Choose(n - 1, k - 1), Choose(n - 1, k), Choose(n - 2, k - 2), Choose(n - 2, k - 1));
      }
    }
  }

  lemma AbsorptionStep(n: int, k: int, c: int, e: int, f: int, g: int)
    requires k * e == (n - 1) * g && (k - 1) * c == (n - 1) * f && c == f + g
    ensures k * (c + e) == n * c
  {
    assert (n - 1) * c == (n - 1) * f + (n - 1) * g;
  }

  lemma PrimeDividesChoose(p: nat, k: nat)
    requires Prime(p) && 0 < k < p
    ensures Choose(p, k) % p == 0
  {
    Absorption(p, k);
    MultipleIsZero(Choose(p - 1, k - 1), p);
    assert k * Choose(p, k) == Choose(p - 1, k - 1) * p;
    EuclidSmall(p, k, Choose(p, k));
  }

  // The first k terms of the binomial expansion of (a + 1)^n.
  function BinomialSum(a: int, n: nat, k: nat): int
  {
    if k == 0 then 0 else BinomialSum(a, n, k - 1) + Choose(n, k - 1) * Pow(a, k - 1)
  }

  lemma {:induction false} BinomialStep(a: int, n: nat, k: nat)
    requires n > 0
    ensures BinomialSum(a, n, k + 1) == a * BinomialSum(a, n - 1, k) + BinomialSum(a, n - 1, k + 1)
  {
    if k == 0 {
      assert BinomialSum(a, n, 1) == BinomialSum(a, n, 0) + Choose(n, 0) * Pow(a, 0) == 1;
      assert BinomialSum(a, n - 1, 1) == BinomialSum(a, n - 1, 0) + Choose(n - 1, 0) * Pow(a, 0) == 1;
    } else {
      BinomialStep(a, n, k - 1);
      BinomialTerm(a, Choose(n - 1, k - 1), Choose(n - 1, k), Pow(a, k - 1), BinomialSum(a, n - 1, k - 1));
    }
  }

  lemma BinomialTerm(a: int, c: int, e: int, w: int, s: int)
    ensures (c + e) * (a * w) == c * (a * w) + e * (a * w)
    ensures a * (s + c * w) == a * s + c * (a * w)
  {}

  lemma {:induction false} BinomialTheorem(a: int, n: nat)
    ensures BinomialSum(a, n, n + 1) == Pow(a + 1, n)
  {
    if n == 0 {
      assert BinomialSum(a, 0, 1) == BinomialSum(a, 0, 0) + Choose(0, 0) * Pow(a, 0);
    } else {
      BinomialStep(a, n, n);
      BinomialTheorem(a, n - 1);
      ChooseBeyond(n - 1, n);
      BinomialEnd(BinomialSum(a, n - 1, n + 1), BinomialSum(a, n - 1, n), Choose(n - 1, n), Pow(a, n));
      NextPower(a, Pow(a + 1, n - 1));
    }
  }

  lemma BinomialEnd(sum: int, front: int, c: int, w: int)
    requires c == 0 && sum == front + c * w
    ensures sum == front
  {}

  lemma NextPower(a: int, w: int)
    ensures (a + 1) * w == a * w + w
  {}

  lemma {:induction false} MiddleTermsVanish(p: nat, a: int, k: nat)
    requires Prime(p) && 1 <= k <= p
    ensures Cong(BinomialSum(a, p, k), 1, p)
  {
    if k == 1 {
      assert BinomialSum(a, p, 1) == BinomialSum(a, p, 0) + Choose(p, 0) * Pow(a, 0) == 1;
    } else {
      MiddleTermsVanish(p, a, k - 1);
      PrimeDividesChoose(p, k - 1);
      Combine(BinomialSum(a, p, k - 1) - 1, 1, Choose(p, k - 1), Pow(a, k - 1), p);
    }
  }

  lemma {:induction false} FermatPower(p: nat, a: nat)
    requires Prime(p)
    ensures Cong(Pow(a, p), a, p)
  {
    if a == 0 {
      PowZero(p);
    } else {
      FermatPower(p, a - 1);
      BinomialTheorem(a - 1, p);
      MiddleTermsVanish(p, a - 1, p);
      ChooseAll(p);
      BinomialLast(a - 1, p);
      CongAdd(BinomialSum(a - 1, p, p), 1, Pow(a - 1, p), a - 1, p);
    }
  }

  lemma BinomialLast(a: int, n: nat)
    requires Choose(n, n) == 1
    ensures BinomialSum(a, n, n + 1) == BinomialSum(a, n, n) + Pow(a, n)
  {}

  lemma {:induction false} ChooseAll(n: nat)
    ensures Choose(n, n) == 1
  {
    if n > 0 {
      ChooseAll(n - 1);
      ChooseBeyond(n - 1, n);
    }
  }

  // Fermat: a nonzero residue raised to p - 1 is 1.
  lemma Fermat(p: nat, a: int)
    requires Prime(p) && a % p != 0
    ensures Cong(Pow(a, p - 1), 1, p)
  {
    var r := a % p;
    assert Cong(a, r, p) by {
      assert a - r == (a / p) * p;
      MultipleIsZero(a / p, p);
    }
    FermatPower(p, r);
    assert Pow(r, p) - r == r * (Pow(r, p - 1) - 1);
    EuclidSmall(p, r, Pow(r, p - 1) - 1);
    PowCong(a, r, p - 1, p);
    CongTrans(Pow(a, p - 1), Pow(r, p - 1), 1, p);
  }
}
