// Field arithmetic of apps/pwa/src/ed25519.ts on JavaScript integers: the truncating remainder, its
// normalisation, square-and-multiply and the inverse.
module FieldArithmetic {
  import opened NumberTheory
  import opened PrimeField
  import opened LittleEndian

  // ------------------------------------------------------------- constants

  const FIELD_BITS: nat := 255
  const POINT_BYTES: nat := 32

  function FieldPrime(): (p: nat)
    ensures p == Pow(2, FIELD_BITS) - 19 && p > 1000000 && p % 8 == 5
  {
    PowAdd(2, FIELD_BITS - 25, 25);
    TwentyFive();
    PowerPositive(2, FIELD_BITS - 25);
    Pow(2, FIELD_BITS) - 19
  }

  lemma TwentyFive()
    ensures Pow(2, 25) == 33554432
  {
    calc {
      Pow(2, 25);
    == { PowAdd(2, 10, 15); PowAdd(2, 5, 10); PowAdd(2, 5, 5); }
      Pow(2, 5) * Pow(2, 5) * (Pow(2, 5) * (Pow(2, 5) * Pow(2, 5)));
    == { assert Pow(2, 5) == 2 * Pow(2, 4) == 4 * Pow(2, 3) == 8 * Pow(2, 2) == 16 * Pow(2, 1) == 32 * Pow(2, 0); }
      33554432;
    }
  }

  const P: nat := FieldPrime()

  const ORDER: nat := (PowerPositive(2, FIELD_BITS - 3); Pow(2, FIELD_BITS - 3) + 27742317777372353535851937790883648493)

  const D: int := Mod(-121665 * FieldInverse(121666))

  const D2: int := Mod(2 * D)

  const SQRT_M1: int := FieldPower(2, (P - 1) / 4)

  // ------------------------------------------------------------------ field

  // The remainder operator of JavaScript: it truncates, so the result has the sign of the dividend.
  function JsRem(a: int, m: nat): (r: int)
    requires m > 0
    ensures 0 - m < r < m && (a >= 0 ==> r >= 0) && (a <= 0 ==> r <= 0)
  {
    if a >= 0 then a % m else -((-a) % m)
  }

  lemma JsRemSame(a: int, m: nat)
    requires m > 0
    ensures Same(JsRem(a, m), a, m)
    ensures a >= 0 ==> JsRem(a, m) == a % m
  {
    RemainderSame(a, m);
    RemainderSame(-a, m);
    if a < 0 {
      Scale((-a) % m - (-a), -1, m);
      assert ((-a) % m - (-a)) * -1 == JsRem(a, m) - a;
    }
  }

  // The one representative of a residue class in [0, P).
  function Mod(value: int): (r: int)
    ensures 0 <= r < P
    ensures Same(r, value, P)
  {
    JsRemSame(value, P);
    ModShift(JsRem(value, P), value);
    var reduced := JsRem(value, P);
    if reduced < 0 then reduced + P else reduced
  }

  lemma ModShift(r: int, value: int)
    requires Same(r, value, P)
    ensures Same(r + P, value, P)
  {
    assert P == Multiple(1, P);
    Add(r - value, P, P);
  }

  // What `power` and `inverse` compute.
  function FieldPower(base: int, exponent: int): (r: int)
    ensures 0 <= r < P
  {
    if exponent <= 0 then 1 else Pow(base, exponent) % P
  }

  function FieldInverse(value: int): (r: int)
    ensures 0 <= r < P
  {
    FieldPower(value, P - 2)
  }

  lemma FieldPowerSame(base: int, exponent: nat)
    ensures Same(FieldPower(base, exponent), Pow(base, exponent), P)
  {
    if exponent == 0 {
      SameRefl(1, P);
    } else {
      RemainderSame(Pow(base, exponent), P);
    }
  }

  // Square-and-multiply computes the power.
  method Power(base: int, exponent: int) returns (result: int)
    ensures result == FieldPower(base, exponent)
  {
    result := 1;
    var square := Mod(base);
    var remaining := exponent;
    if exponent > 0 {
      SamePow(square, base, exponent, P);
      SameRefl(1, P);
      assert 1 * Pow(square, exponent) == Pow(square, exponent);
    }
    while remaining > 0
      invariant 0 <= result < P && 0 <= square < P
      invariant exponent <= 0 ==> remaining == exponent && result == 1
      invariant exponent > 0 ==> remaining >= 0 && Same(result * Pow(square, remaining), Pow(base, exponent), P)
      decreases remaining
    {
      PowerRound(result, square, remaining, Pow(base, exponent));
      if remaining % 2 == 1 {
        result := JsRem(result * square, P);
      }
      square := JsRem(square * square, P);
      remaining := remaining / 2;
    }
    if exponent > 0 {
      PowerEnd(result, square, base, exponent);
    }
  }

  lemma PowerEnd(result: int, square: int, base: int, exponent: nat)
    requires 0 <= result < P && Same(result * Pow(square, 0), Pow(base, exponent), P)
    ensures result == FieldPower(base, exponent)
  {
    assert result * Pow(square, 0) == result;
    FieldPowerSame(base, exponent);
    SameSym(FieldPower(base, exponent), Pow(base, exponent), P);
    SameTrans(result, Pow(base, exponent), FieldPower(base, exponent), P);
    CanonicalUnique(result, FieldPower(base, exponent), P);
  }

  // One round of the loop, in the numbers the code computes.
  lemma PowerRound(r: int, s: int, n: nat, goal: int)
    requires 0 <= r < P && 0 <= s < P && n > 0 && Same(r * Pow(s, n), goal, P)
    ensures (var r', s' := if n % 2 == 1 then JsRem(r * s, P) else r, JsRem(s * s, P);
             0 <= r' < P && 0 <= s' < P && Same(r' * Pow(s', n / 2), goal, P))
  {
    assert r * s >= 0 && s * s >= 0;
    JsRemSame(r * s, P);
    JsRemSame(s * s, P);
    SameRefl(r, P);
    PowerStep(P, r, s, if n % 2 == 1 then JsRem(r * s, P) else r, JsRem(s * s, P), n, goal);
  }

  // One round keeps result * square^remaining.
  lemma PowerStep(p: nat, r: int, s: int, r': int, s': int, n: nat, goal: int)
    requires p > 0 && n > 0 && Same(r * Pow(s, n), goal, p)
    requires Same(r', if n % 2 == 1 then r * s else r, p) && Same(s', s * s, p)
    ensures Same(r' * Pow(s', n / 2), goal, p)
  {
    var m := n / 2;
    SamePow(s', s * s, m, p);
    PowDouble(s, m);
    if n % 2 == 1 {
      SameMul(r', r * s, Pow(s', m), Pow(s, 2 * m), p);
      assert Pow(s, n) == s * Pow(s, 2 * m);
      assert (r * s) * Pow(s, 2 * m) == r * Pow(s, n);
    } else {
      SameMul(r', r, Pow(s', m), Pow(s, 2 * m), p);
    }
    SameTrans(r' * Pow(s', m), r * Pow(s, n), goal, p);
  }

  method Inverse(value: int) returns (r: int)
    ensures r == FieldInverse(value)
    ensures Prime(P) && value % P != 0 ==> Same(value * r, 1, P)
  {
    r := Power(value, P - 2);
    if Prime(P) && value % P != 0 {
      InverseIsTrue(value);
    }
  }

  lemma InverseIsTrue(value: int)
    requires Prime(P) && value % P != 0
    ensures FieldInverse(value) == Inv(value, P) && Same(value * FieldInverse(value), 1, P)
  {
    ZeroIsRemainder(value, P);
    InverseLaw(value, P);
  }
}
