// The Ed25519 group of apps/pwa/src/ed25519.ts: addition in extended coordinates, double-and-add, and
// the strict 32-byte point codec, proved against the affine group of module EdwardsGroup.
// Primality of 2^255 - 19 is the one hypothesis: `Prime(P)`.
module Ed25519 {
  import opened Results
  import opened NumberTheory
  import opened PrimeField
  import opened LittleEndian
  import opened BigEndian
  import opened FieldArithmetic
  import opened EdwardsCurve
  import opened EdwardsGroup
  import opened ExtendedPoints
  import opened Decompression
  import opened CurveConstants

  const IDENTITY: Extended := Extended(0, 1, 1, 0)

  // -------------------------------------------------------------- the group

  function AddPoints(left: Extended, right: Extended): Extended
  {
    var a := JsRem((left.y - left.x) * (right.y - right.x), P);
    var b := JsRem((left.y + left.x) * (right.y + right.x), P);
    var c := JsRem(left.t * D2 * right.t, P);
    var d := JsRem(left.z * 2 * right.z, P);
    var e := b - a;
    var f := d - c;
    var g := d + c;
    var h := b + a;
    Extended(Mod(e * f), Mod(g * h), Mod(f * g), Mod(e * h))
  }

  function NegatePoint(point: Extended): Extended
  {
    Extended(Mod(-point.x), point.y, point.z, Mod(-point.t))
  }

  // Addition is complete and closed: for any two points of the curve, equal, opposite or neutral,
  // the result is a point of the curve and stands for the affine sum.
  lemma AddPointsIsSum(left: Extended, right: Extended)
    requires Prime(P) && Valid(CURVE, left) && Valid(CURVE, right)
    ensures Valid(CURVE, AddPoints(left, right))
    ensures AffineOf(CURVE, AddPoints(left, right)) == Sum(CURVE, AffineOf(CURVE, left), AffineOf(CURVE, right))
  {
    CurveIsGood();
    var m, n, o, q := AddPointsProducts(left, right);
    UnifiedAddition(CURVE, left, right, m, n, o, q, AddPoints(left, right));
  }

  lemma AddPointsProducts(left: Extended, right: Extended) returns (m: int, n: int, o: int, q: int)
    ensures Same(m, (left.y - left.x) * (right.y - right.x), P) && Same(n, (left.y + left.x) * (right.y + right.x), P)
    ensures Same(o, left.t * (2 * D) * right.t, P) && Same(q, left.z * 2 * right.z, P)
    ensures (var s := AddPoints(left, right);
             && Same(s.x, (n - m) * (q - o), P) && Same(s.y, (q + o) * (n + m), P)
             && Same(s.t, (n - m) * (n + m), P) && Same(s.z, (q - o) * (q + o), P))
  {
    m := JsRem((left.y - left.x) * (right.y - right.x), P);
    n := JsRem((left.y + left.x) * (right.y + right.x), P);
    o := JsRem(left.t * D2 * right.t, P);
    q := JsRem(left.z * 2 * right.z, P);
    JsRemSame((left.y - left.x) * (right.y - right.x), P);
    JsRemSame((left.y + left.x) * (right.y + right.x), P);
    JsRemSame(left.t * D2 * right.t, P);
    JsRemSame(left.z * 2 * right.z, P);
    DoubledConstant(left.t, D2, 2 * D, right.t, o);
    AddPointsOf(left, right, m, n, o, q);
    FourProducts(n - m, q - o, q + o, n + m, AddPoints(left, right));
  }

  lemma AddPointsOf(left: Extended, right: Extended, m: int, n: int, o: int, q: int)
    requires m == JsRem((left.y - left.x) * (right.y - right.x), P) && n == JsRem((left.y + left.x) * (right.y + right.x), P)
    requires o == JsRem(left.t * D2 * right.t, P) && q == JsRem(left.z * 2 * right.z, P)
    ensures AddPoints(left, right)
         == Extended(Mod((n - m) * (q - o)), Mod((q + o) * (n + m)), Mod((q - o) * (q + o)), Mod((n - m) * (n + m)))
  {}

  lemma FourProducts(e: int, f: int, g: int, h: int, s: Extended)
    requires s == Extended(Mod(e * f), Mod(g * h), Mod(f * g), Mod(e * h))
    ensures Same(s.x, e * f, P) && Same(s.y, g * h, P) && Same(s.z, f * g, P) && Same(s.t, e * h, P)
  {}

  lemma DoubledConstant(s: int, k: int, k': int, t: int, c: int)
    requires Same(k, k', P) && Same(c, s * k * t, P)
    ensures Same(c, s * k' * t, P)
  {
    SameRefl(s, P);
    SameRefl(t, P);
    SameMul(s, s, k, k', P);
    SameMul(s * k, s * k', t, t, P);
    SameTrans(c, s * k * t, s * k' * t, P);
  }

  lemma IdentityIsNeutral()
    requires Prime(P)
    ensures Valid(CURVE, IDENTITY) && AffineOf(CURVE, IDENTITY) == NEUTRAL
  {
    CurveIsGood();
    NeutralOnCurve(CURVE);
    UnitPoint(NEUTRAL, 0);
  }

  // A point with Z = 1.
  lemma UnitPoint(a: Affine, t: int)
    requires Prime(P) && OnCurve(CURVE, a) && Same(t, a.x * a.y, P)
    ensures Valid(CURVE, Extended(a.x, a.y, 1, t)) && AffineOf(CURVE, Extended(a.x, a.y, 1, t)) == a
  {
    CurveIsGood();
    SmallNonZero(1, P);
    SameRefl(a.x, P);
    SameRefl(a.y, P);
    SameSym(t, a.x * a.y, P);
    RepresentsValid(CURVE, Extended(a.x, a.y, 1, t), a);
  }

  lemma NegatePointIsOpposite(point: Extended)
    requires Prime(P) && Valid(CURVE, point)
    ensures Valid(CURVE, NegatePoint(point))
    ensures AffineOf(CURVE, NegatePoint(point)) == Opposite(CURVE, AffineOf(CURVE, point))
  {
    var a := AffineOf(CURVE, point);
    CurveIsGood();
    ValidRepresents(CURVE, point);
    SumOpposite(CURVE, a);
    NegatedPoint(a.x, a.y, (-a.x) % P, point);
    RepresentsValid(CURVE, NegatePoint(point), Opposite(CURVE, a));
  }

  lemma NegatedPoint(x: int, y: int, x': int, point: Extended)
    requires x' == (-x) % P && Represents(CURVE, point, Affine(x, y))
    ensures Represents(CURVE, NegatePoint(point), Affine(x', y))
  {
    RemainderSame(-x, P);
    NegatedCoordinate(x, x', point.z, point.x, Mod(-point.x));
    SameRefl(y, P);
    SameMul(x', -x, y, y, P);
    NegatedProduct(x, y);
    NegatedCoordinate(x * y, x' * y, point.z, point.t, Mod(-point.t));
  }

  lemma NegatedProduct(x: int, y: int)
    ensures -x * y == -(x * y)
  {}

  lemma NegatedCoordinate(s: int, s': int, z: int, x: int, x': int)
    requires Same(s * z, x, P) && Same(s', -s, P) && Same(x', -x, P)
    ensures Same(s' * z, x', P)
  {
    SameRefl(z, P);
    SameMul(s', -s, z, z, P);
    Scale(s * z - x, -1, P);
    assert (s * z - x) * -1 == -s * z - -x;
    SameTrans(s' * z, -s * z, -x, P);
    SameSym(x', -x, P);
    SameTrans(s' * z, -x, x', P);
  }

  // How often a scalar adds a point: not at all when it is negative.
  function Times(scalar: int): nat
  {
    if scalar > 0 then scalar else 0
  }

  // What the rounds of double-and-add make of any coordinates, least significant bit first.
  function Ladder(result: Extended, addend: Extended, remaining: int): Extended
    decreases remaining
  {
    if remaining <= 0 then result
    else Ladder(if remaining % 2 == 1 then AddPoints(result, addend) else result, AddPoints(addend, addend), remaining / 2)
  }

  // On a point of the curve it is repeated addition.
  method ScalarMult(point: Extended, scalar: int) returns (result: Extended)
    ensures result == Ladder(IDENTITY, point, scalar)
    ensures Prime(P) && Valid(CURVE, point) ==>
      Valid(CURVE, result) && AffineOf(CURVE, result) == Multiply(CURVE, Times(scalar), AffineOf(CURVE, point))
  {
    result := IDENTITY;
    var addend := point;
    var remaining := scalar;
    while remaining > 0
      invariant Ladder(result, addend, remaining) == Ladder(IDENTITY, point, scalar)
      decreases remaining
    {
      if remaining % 2 == 1 {
        result := AddPoints(result, addend);
      }
      addend := AddPoints(addend, addend);
      remaining := remaining / 2;
    }
    if Prime(P) && Valid(CURVE, point) {
      LadderStart(point, scalar);
      LadderIsMultiple(IDENTITY, point, scalar, Multiply(CURVE, Times(scalar), AffineOf(CURVE, point)));
    }
  }

  // The rounds keep result + remaining * addend, so the end holds the multiple.
  lemma {:induction false} LadderIsMultiple(result: Extended, addend: Extended, remaining: int, goal: Affine)
    requires Prime(P) && LadderInvariant(result, addend, remaining, goal)
    ensures Valid(CURVE, Ladder(result, addend, remaining)) && AffineOf(CURVE, Ladder(result, addend, remaining)) == goal
    decreases remaining
  {
    if remaining <= 0 {
      LadderEnd(result, addend, remaining, goal);
    } else {
      LadderRound(result, addend, remaining, goal);
      LadderIsMultiple(if remaining % 2 == 1 then AddPoints(result, addend) else result, AddPoints(addend, addend),
                       remaining / 2, goal);
    }
  }

  // Both points are valid and result + remaining * addend is the goal.
  ghost predicate LadderInvariant(result: Extended, addend: Extended, remaining: int, goal: Affine)
  {
    && Valid(CURVE, result) && Valid(CURVE, addend)
    && Sum(CURVE, AffineOf(CURVE, result), Multiply(CURVE, Times(remaining), AffineOf(CURVE, addend))) == goal
  }

  lemma LadderStart(point: Extended, scalar: int)
    requires Prime(P) && Valid(CURVE, point)
    ensures LadderInvariant(IDENTITY, point, scalar, Multiply(CURVE, Times(scalar), AffineOf(CURVE, point)))
  {
    CurveIsGood();
    ValidRepresents(CURVE, point);
    IdentityIsNeutral();
    MultiplyClosed(CURVE, Times(scalar), AffineOf(CURVE, point));
    SumNeutral(CURVE, Multiply(CURVE, Times(scalar), AffineOf(CURVE, point)));
  }

  lemma LadderEnd(result: Extended, addend: Extended, remaining: int, goal: Affine)
    requires Prime(P) && LadderInvariant(result, addend, remaining, goal) && remaining <= 0
    ensures AffineOf(CURVE, result) == goal
  {
    CurveIsGood();
    ValidRepresents(CURVE, result);
    SumNeutral(CURVE, AffineOf(CURVE, result));
  }

  lemma LadderRound(result: Extended, addend: Extended, remaining: nat, goal: Affine)
    requires Prime(P) && LadderInvariant(result, addend, remaining, goal) && remaining > 0
    ensures LadderInvariant(if remaining % 2 == 1 then AddPoints(result, addend) else result,
                            AddPoints(addend, addend), remaining / 2, goal)
  {
    CurveIsGood();
    ValidRepresents(CURVE, result);
    ValidRepresents(CURVE, addend);
    AddPointsIsSum(result, addend);
    AddPointsIsSum(addend, addend);
    LadderStep(CURVE, AffineOf(CURVE, result), AffineOf(CURVE, addend), remaining);
  }

  // r + n b = (r + b if n is odd, else r) + (n / 2) (b + b).
  lemma LadderStep(c: Curve, r: Affine, b: Affine, n: nat)
    requires Good(c) && OnCurve(c, r) && OnCurve(c, b) && n > 0
    ensures Sum(c, r, Multiply(c, n, b))
         == Sum(c, if n % 2 == 1 then Sum(c, r, b) else r, Multiply(c, n / 2, Sum(c, b, b)))
  {
    var m := n / 2;
    MultiplySmall(c, b);
    MultiplyProduct(c, m, 2, 2 * m, b);
    if n % 2 == 1 {
      MultiplyAdd(c, 1, 2 * m, b);
      MultiplyClosed(c, 2 * m, b);
      Associative(c, r, b, Multiply(c, 2 * m, b));
    }
  }

  lemma MultiplySmall(c: Curve, b: Affine)
    requires Good(c) && OnCurve(c, b)
    ensures Multiply(c, 1, b) == b && Multiply(c, 2, b) == Sum(c, b, b)
  {
    NeutralOnCurve(c);
    SumNeutral(c, b);
    assert Multiply(c, 1, b) == Sum(c, Multiply(c, 0, b), b);
    assert Multiply(c, 2, b) == Sum(c, Multiply(c, 1, b), b);
  }

  // -------------------------------------------------------- byte conversion

  datatype Ed25519Error = WrongLength | NegativeNumber | TooLarge | NotReduced | NotOnCurve | NegativeZero

  method BytesToBigIntLE(bytes: seq<byte>) returns (value: nat)
    ensures value == ValueLE(bytes)
  {
    value := 0;
    var index := |bytes| - 1;
    while index >= 0
      invariant -1 <= index < |bytes|
      invariant value == ValueLE(bytes[index + 1..])
      decreases index
    {
      assert bytes[index..][1..] == bytes[index + 1..];
      value := value * 256 + bytes[index];
      index := index - 1;
    }
  }

  method BigIntToBytesLE(value: int, length: nat) returns (r: Result<array<byte>, Ed25519Error>)
    ensures r.Ok? <==> 0 <= value < Pow(256, length)
    ensures r.Ok? ==> fresh(r.value) && r.value[..] == BytesLE(value, length) && ValueLE(r.value[..]) == value
    ensures r.Err? ==> r.error == if value < 0 then NegativeNumber else TooLarge
  {
    if value < 0 {
      return Err(NegativeNumber);
    }
    PowerPositive(2, length * 8);
    ShiftIsZero(value, length);
    if value / Pow(2, length * 8) != 0 {
      return Err(TooLarge);
    }
    var bytes := new byte[length](_ => 0);
    var remaining := value;
    var index := 0;
    while index < length
      invariant 0 <= index <= length && remaining >= 0
      invariant BytesLE(value, length) == bytes[..index] + BytesLE(remaining, length - index)
    {
      ghost var before := bytes[..index];
      bytes[index] := remaining % 256;
      assert bytes[..index + 1] == before + [remaining % 256];
      remaining := remaining / 256;
      index := index + 1;
    }
    assert bytes[..] == bytes[..index];
    ReadWritten(value, length);
    return Ok(bytes);
  }

  lemma ShiftIsZero(value: nat, length: nat)
    ensures Pow(2, length * 8) > 0 && (value / Pow(2, length * 8) == 0 <==> value < Pow(256, length))
  {
    PowerPositive(2, length * 8);
    PowerOfPower(2, 8, length, length * 8);
    assert Pow(2, 8) == 2 * Pow(2, 7) == 4 * Pow(2, 6) == 8 * Pow(2, 5) == 16 * Pow(2, 4) == 32 * Pow(2, 3)
        == 64 * Pow(2, 2) == 128 * Pow(2, 1) == 256;
    var m := Pow(2, length * 8);
    if value < m {
      RemainderUnique(value, 0, value, m);
    } else {
      assert value == (value / m) * m + value % m;
    }
  }

  method ReduceWideScalar(bytes: seq<byte>) returns (r: Result<nat, Ed25519Error>)
    ensures r == if |bytes| == 64 then Ok(ValueLE(bytes) % ORDER) else Err(WrongLength)
  {
    if |bytes| != 64 {
      return Err(WrongLength);
    }
    var value := BytesToBigIntLE(bytes);
    return Ok(value % ORDER);
  }

  method ScalarFromBigEndian(bytes: seq<byte>) returns (scalar: nat)
    ensures scalar == ValueBE(bytes) % ORDER && scalar < ORDER
  {
    var value := 0;
    var index := 0;
    while index < |bytes|
      invariant 0 <= index <= |bytes|
      invariant value == ValueBE(bytes[..index])
    {
      assert bytes[..index + 1][..index] == bytes[..index];
      value := value * 256 + bytes[index];
      index := index + 1;
    }
    assert bytes[..index] == bytes;
    scalar := value % ORDER;
  }

  // -------------------------------------------------------- the point codec

  // The canonical encoding of section 5.1.2 of RFC 8032: y, and the parity of x in the top bit.
  function Encoded(a: Affine): (b: seq<byte>)
    requires a.y >= 0
    ensures |b| == POINT_BYTES
  {
    BytesLE(a.y + (a.x % 2) * Half(POINT_BYTES), POINT_BYTES)
  }

  // What a byte string decodes to: the curve point with that encoding, if there is one.
  ghost function Decoded(bytes: seq<byte>): Option<Affine>
  {
    if a: Affine :| OnCurve(CURVE, a) && Encoded(a) == bytes then Some(a) else None
  }

  lemma EncodedInjective(a: Affine, b: Affine)
    requires Prime(P) && OnCurve(CURVE, a) && OnCurve(CURVE, b) && Encoded(a) == Encoded(b)
    ensures a == b
  {
    CurveIsGood();
    EncodedParts(a);
    EncodedParts(b);
    ParityDecides(CURVE, a, b);
  }

  lemma EncodedParts(a: Affine)
    requires 0 <= a.y < P
    ensures ValueLE(Encoded(a)) % Half(POINT_BYTES) == a.y && ValueLE(Encoded(a)) / Half(POINT_BYTES) == a.x % 2
  {
    HalfIsTop();
    WholeIsTwoHalves();
    TopAndRest(a.y, a.x % 2, Half(POINT_BYTES));
    ReadWritten(a.y + (a.x % 2) * Half(POINT_BYTES), POINT_BYTES);
  }

  lemma WholeIsTwoHalves()
    ensures Pow(256, POINT_BYTES) == 2 * Half(POINT_BYTES)
  {}

  lemma TopAndRest(y: nat, b: nat, h: nat)
    requires y < h && b <= 1
    ensures y + b * h < 2 * h && (y + b * h) % h == y && (y + b * h) / h == b
  {
    assert b == 0 || b == 1;
    RemainderUnique(y + b * h, b, y, h);
  }

  lemma HalfIsTop()
    ensures Half(POINT_BYTES) == Pow(2, FIELD_BITS) == P + 19
  {
    HalfValue();
    PrimeValue();
  }

  // Every curve point is the one its encoding decodes to, and nothing else decodes.
  lemma DecodedIsInverse(a: Affine, bytes: seq<byte>)
    requires Prime(P) && OnCurve(CURVE, a)
    ensures Decoded(bytes) == Some(a) <==> bytes == Encoded(a)
  {
    if bytes == Encoded(a) {
      EncodedInjective(Decoded(bytes).value, a);
    }
  }

  lemma CanonicalRemainder(a: int)
    ensures Mod(a) == a % P
  {
    RemainderSame(a, P);
    SameSym(a % P, a, P);
    SameTrans(Mod(a), a, a % P, P);
    CanonicalUnique(Mod(a), a % P, P);
  }

  lemma NonZeroRemainder(z: int)
    requires !Zero(z, P)
    ensures z % P != 0
  {
    ZeroIsRemainder(z, P);
  }

  // The affine point that given coordinates are read as; for Z = 0 it is the code's own answer, (0, 0).
  lemma CompressedCoordinates(point: Extended, x: int, y: int)
    requires x == Mod(point.x * FieldInverse(point.z)) && y == Mod(point.y * FieldInverse(point.z))
    ensures AffineOf(CURVE, point) == Affine(x, y)
  {
    assert FieldInverse(point.z) == Inv(point.z, P);
    CanonicalRemainder(point.x * FieldInverse(point.z));
    CanonicalRemainder(point.y * FieldInverse(point.z));
  }

  lemma TopByte(x: int, y: int)
    requires 0 <= y < P
    ensures y < Pow(256, POINT_BYTES)
    ensures (var s := BytesLE(y, POINT_BYTES);
             Encoded(Affine(x, y)) == s[POINT_BYTES - 1 := s[POINT_BYTES - 1] % 128 + 128 * (x % 2)])
  {
    HalfIsTop();
    WholeIsTwoHalves();
    SetTopBit(y, POINT_BYTES, x % 2);
  }

  // Compression depends only on the affine point, whatever Z it is given with.
  method CompressPoint(point: Extended) returns (encoded: array<byte>)
    ensures fresh(encoded) && encoded[..] == Encoded(AffineOf(CURVE, point))
  {
    var zInverse := Inverse(point.z);
    var x := Mod(point.x * zInverse);
    var y := Mod(point.y * zInverse);
    CompressedCoordinates(point, x, y);
    TopByte(x, y);
    var result := BigIntToBytesLE(y, POINT_BYTES);
    encoded := result.value;
    encoded[31] := encoded[31] % 128 + 128 * (x % 2);
  }

  // ---- the square root of decompression

  ghost predicate HasRoot(y: int)
  {
    exists x: int :: Satisfies(CURVE, Affine(x, y))
  }

  // What the code divides to get x^2.
  ghost predicate IsQuotient(candidate: int, y: int)
  {
    0 <= candidate < P && Same(candidate * (D * (y * y) + 1), y * y - 1, P)
  }

  lemma CandidateIsQuotient(y: int, ySquared: int, numerator: int, denominator: int, candidate: int)
    requires Prime(P) && ySquared == JsRem(y * y, P)
    requires numerator == Mod(ySquared - 1) && denominator == Mod(D * ySquared + 1)
    requires candidate == JsRem(numerator * FieldInverse(denominator), P)
    ensures IsQuotient(candidate, y)
  {
    CurveIsGood();
    JsRemSame(y * y, P);
    DenominatorNonZero(CURVE, y);
    ReducedDenominator(D, y * y, ySquared, denominator);
    ReducedNumerator(y * y, ySquared, numerator);
    SameZero(denominator, D * (y * y) + 1, P);
    NonZeroRemainder(denominator);
    InverseIsTrue(denominator);
    JsRemSame(numerator * FieldInverse(denominator), P);
    QuotStep(candidate, numerator, FieldInverse(denominator), denominator, P);
    SameRefl(candidate, P);
    SameMul(candidate, candidate, denominator, D * (y * y) + 1, P);
    SameSym(candidate * denominator, candidate * (D * (y * y) + 1), P);
    SameTrans(candidate * (D * (y * y) + 1), candidate * denominator, numerator, P);
    SameTrans(candidate * (D * (y * y) + 1), numerator, y * y - 1, P);
    assert candidate >= 0 by {
      ProductNonNegative(numerator, FieldInverse(denominator));
    }
  }

  lemma ProductNonNegative(a: nat, b: nat)
    ensures a * b >= 0
  {}

  lemma ReducedNumerator(s: int, s': int, n: int)
    requires Same(s', s, P) && Same(n, s' - 1, P)
    ensures Same(n, s - 1, P)
  {
    SameRefl(1, P);
    SameSub(s', s, 1, 1, P);
    SameTrans(n, s' - 1, s - 1, P);
  }

  lemma ReducedDenominator(d: int, s: int, s': int, k: int)
    requires Same(s', s, P) && Same(k, d * s' + 1, P)
    ensures Same(k, d * s + 1, P)
  {
    SameRefl(1, P);
    SameRefl(d, P);
    SameMul(d, d, s', s, P);
    SameAdd(d * s', d * s, 1, 1, P);
    SameTrans(k, d * s' + 1, d * s + 1, P);
  }

  lemma QuotientDecides(candidate: int, x: int, y: int)
    requires Prime(P) && IsQuotient(candidate, y)
    ensures Satisfies(CURVE, Affine(x, y)) <==> Same(x * x, candidate, P)
  {
    CurveIsGood();
    EquationIsQuotient(CURVE, x, y, candidate);
  }

  lemma SquareTest(x: int, candidate: int)
    requires 0 <= candidate < P && x >= 0
    ensures JsRem(x * x, P) == candidate <==> Same(x * x, candidate, P)
  {
    ProductNonNegative(x, x);
    JsRemSame(x * x, P);
    if Same(x * x, candidate, P) {
      SameTrans(JsRem(x * x, P), x * x, candidate, P);
      CanonicalUnique(JsRem(x * x, P), candidate, P);
    } else if JsRem(x * x, P) == candidate {
      SameSym(candidate, x * x, P);
    }
  }

  // Whenever a root exists, one of the two tries of the code finds one.
  lemma RootIsFound(candidate: int, x: int, x': int)
    requires Prime(P) && 0 <= candidate < P && x == FieldPower(candidate, (P + 3) / 8)
    requires x' == if JsRem(x * x, P) != candidate then JsRem(x * SQRT_M1, P) else x
    requires exists s: int :: Same(s * s, candidate, P)
    ensures JsRem(x' * x', P) == candidate
  {
    var s: int :| Same(s * s, candidate, P);
    CurveIsGood();
    SquareRootOfMinusOne();
    FieldPowerSame(candidate, (P + 3) / 8);
    CandidateRoot(P, SQRT_M1, candidate, s, x);
    SquareTest(x, candidate);
    if JsRem(x * x, P) != candidate {
      ProductNonNegative(x, SQRT_M1);
      JsRemSame(x * SQRT_M1, P);
      SameMul(x', x * SQRT_M1, x', x * SQRT_M1, P);
      SameTrans(x' * x', (x * SQRT_M1) * (x * SQRT_M1), candidate, P);
      SquareTest(x', candidate);
    }
  }

  // Choosing the sign: x or its negation has the wanted parity, unless x is zero.
  lemma SignChoice(x: int, x': int, sign: int, candidate: int)
    requires 0 <= x < P && 0 <= sign <= 1 && Same(x * x, candidate, P)
    requires x' == if x % 2 != sign then Mod(P - x) else x
    ensures 0 <= x' < P && Same(x' * x', candidate, P)
    ensures if x == 0 then x' == 0 else x' != 0 && x' % 2 == sign
  {
    if x % 2 != sign {
      NegatedResidue(x);
      NegatedSquare(x, x');
      SameTrans(x' * x', x * x, candidate, P);
    }
  }

  lemma NegatedResidue(x: int)
    requires 0 <= x < P
    ensures Mod(P - x) == if x == 0 then 0 else P - x
    ensures x != 0 ==> (P - x) % 2 != x % 2
    ensures Same(Mod(P - x), -x, P)
  {
    assert (P - x) - -x == Multiple(1, P);
    SameTrans(Mod(P - x), P - x, -x, P);
    assert P % 8 == 5;
    if x == 0 {
      assert Mod(P) - 0 == Mod(P) && P == Multiple(1, P);
      SameZero(Mod(P), P, P);
      CanonicalUnique(Mod(P), 0, P);
    } else {
      CanonicalUnique(Mod(P - x), P - x, P);
    }
  }

  lemma NegatedSquare(x: int, x': int)
    requires Same(x', -x, P)
    ensures Same(x' * x', x * x, P)
  {
    SameMul(x', -x, x', -x, P);
    assert -x * -x == x * x;
  }

  // Why a byte string of the model is refused.
  ghost function RefusalReason(bytes: seq<byte>): Ed25519Error
  {
    var y := ValueLE(bytes) % Half(POINT_BYTES);
    if |bytes| != POINT_BYTES then WrongLength
    else if y >= P then NotReduced
    else if !HasRoot(y) then NotOnCurve
    else NegativeZero
  }

  lemma EncodedBytes(bytes: seq<byte>, x: int)
    requires |bytes| == POINT_BYTES && x % 2 == bytes[31] / 128
    ensures Encoded(Affine(x, ValueLE(bytes) % Half(POINT_BYTES))) == bytes
  {
    TopBit(bytes);
    Reassemble(ValueLE(bytes), Half(POINT_BYTES));
    WriteRead(bytes);
  }

  lemma Reassemble(v: nat, h: nat)
    requires h > 0
    ensures v == v % h + (v / h) * h
  {}

  lemma RefusedEncoding(bytes: seq<byte>)
    requires |bytes| == POINT_BYTES
    requires ValueLE(bytes) % Half(POINT_BYTES) >= P || !HasRoot(ValueLE(bytes) % Half(POINT_BYTES))
    ensures !exists a :: OnCurve(CURVE, a) && Encoded(a) == bytes
  {
    if a :| OnCurve(CURVE, a) && Encoded(a) == bytes {
      EncodedParts(a);
      SatisfiesHasRoot(a);
      assert false;
    }
  }

  lemma SatisfiesHasRoot(a: Affine)
    requires OnCurve(CURVE, a)
    ensures HasRoot(a.y)
  {
    assert Satisfies(CURVE, Affine(a.x, a.y));
  }

  lemma NegativeZeroRefused(bytes: seq<byte>)
    requires Prime(P) && |bytes| == POINT_BYTES && bytes[31] / 128 == 1
    requires Satisfies(CURVE, Affine(0, ValueLE(bytes) % Half(POINT_BYTES)))
    ensures !exists a :: OnCurve(CURVE, a) && Encoded(a) == bytes
  {
    var y := ValueLE(bytes) % Half(POINT_BYTES);
    if a :| OnCurve(CURVE, a) && Encoded(a) == bytes {
      EncodedParts(a);
      TopBit(bytes);
      NoOtherRoot(a, y);
      assert false;
    }
  }

  // With x = 0 a root, no other x fits.
  lemma NoOtherRoot(a: Affine, y: int)
    requires Prime(P) && OnCurve(CURVE, a) && a.y == y && Satisfies(CURVE, Affine(0, y))
    ensures a.x == 0
  {
    CurveIsGood();
    var m := a.x * a.x;
    assert Equation(D, 0, y) - Equation(D, a.x, y) == m * (1 + D * (y * y)) by {
      EquationShape(D, a.x, y);
      EquationShape(D, 0, y);
    }
    Subtract(Equation(D, 0, y), Equation(D, a.x, y), P);
    DenominatorNonZero(CURVE, y);
    ZeroProduct(m, 1 + D * (y * y), P);
    ZeroProduct(a.x, a.x, P);
    if a.x != 0 {
      SmallNonZero(a.x, P);
    }
  }

  lemma NoRoot(candidate: int, x: int, x': int, y: int)
    requires Prime(P) && IsQuotient(candidate, y) && x == FieldPower(candidate, (P + 3) / 8)
    requires x' == if JsRem(x * x, P) != candidate then JsRem(x * SQRT_M1, P) else x
    requires JsRem(x' * x', P) != candidate
    ensures !HasRoot(y)
  {
    if s: int :| Satisfies(CURVE, Affine(s, y)) {
      QuotientDecides(candidate, s, y);
      RootIsFound(candidate, x, x');
    }
  }

  // What decompression promises about its outcome.
  ghost predicate Decompressed(bytes: seq<byte>, r: Result<Extended, Ed25519Error>)
  {
    match r
    case Ok(point) =>
      && Valid(CURVE, point) && point.z == 1 && OnCurve(CURVE, AffineOf(CURVE, point))
      && Encoded(AffineOf(CURVE, point)) == bytes
    case Err(error) =>
      && error == RefusalReason(bytes)
      && !exists a :: OnCurve(CURVE, a) && Encoded(a) == bytes
  }

  lemma TurnedRoot(candidate: int, x: int, x': int, y: int, sign: int)
    requires Prime(P) && IsQuotient(candidate, y) && 0 <= sign <= 1
    requires 0 <= x < P && JsRem(x * x, P) == candidate
    requires x' == if x % 2 != sign then Mod(P - x) else x
    ensures 0 <= x' < P && Satisfies(CURVE, Affine(x', y)) && (x' == 0 || x' % 2 == sign)
  {
    SquareTest(x, candidate);
    SignChoice(x, x', sign, candidate);
    QuotientDecides(candidate, x', y);
  }

  lemma RootEnds(bytes: seq<byte>, x: int, y: int, sign: int)
    requires Prime(P) && |bytes| == POINT_BYTES && y == ValueLE(bytes) % Half(POINT_BYTES) && y < P
    requires sign == bytes[31] / 128 && 0 <= x < P && Satisfies(CURVE, Affine(x, y)) && (x == 0 || x % 2 == sign)
    ensures Decompressed(bytes, if x == 0 && sign == 1 then Err(NegativeZero) else Ok(Extended(x, y, 1, Mod(x * y))))
  {
    if x == 0 && sign == 1 {
      NegativeZeroRefused(bytes);
    } else {
      AcceptedPoint(bytes, x, y);
    }
  }

  // The end of decompression: a root x in [0, P) is turned to the wanted sign.
  lemma FinishDecompression(bytes: seq<byte>, candidate: int, x: int, x': int, y: int, sign: int)
    requires Prime(P) && |bytes| == POINT_BYTES && y == ValueLE(bytes) % Half(POINT_BYTES) && y < P
    requires sign == bytes[31] / 128 && IsQuotient(candidate, y)
    requires 0 <= x < P && JsRem(x * x, P) == candidate
    requires x' == if x % 2 != sign then Mod(P - x) else x
    ensures Decompressed(bytes, if x' == 0 && sign == 1 then Err(NegativeZero) else Ok(Extended(x', y, 1, Mod(x' * y))))
  {
    TurnedRoot(candidate, x, x', y, sign);
    RootEnds(bytes, x', y, sign);
  }

  lemma AcceptedPoint(bytes: seq<byte>, x: int, y: int)
    requires Prime(P) && |bytes| == POINT_BYTES && y == ValueLE(bytes) % Half(POINT_BYTES) && y < P
    requires 0 <= x < P && x % 2 == bytes[31] / 128 && Satisfies(CURVE, Affine(x, y))
    ensures Decompressed(bytes, Ok(Extended(x, y, 1, Mod(x * y))))
  {
    EncodedBytes(bytes, x);
    UnitPoint(Affine(x, y), Mod(x * y));
  }

  // Accepts exactly the canonical encodings of curve points, and returns the point they encode.
  method DecompressPoint(bytes: seq<byte>) returns (r: Result<Extended, Ed25519Error>)
    requires Prime(P)
    ensures Decompressed(bytes, r)
    ensures r.Ok? ==> Decoded(bytes) == Some(AffineOf(CURVE, r.value))
    ensures r.Err? ==> Decoded(bytes) == None
  {
    if |bytes| != 32 {
      return Err(WrongLength);
    }
    var number := BytesToBigIntLE(bytes);
    var y := number % Half(POINT_BYTES);
    if y >= P {
      RefusedEncoding(bytes);
      return Err(NotReduced);
    }
    var sign := bytes[31] / 128;
    var ySquared := JsRem(y * y, P);
    var numerator := Mod(ySquared - 1);
    var denominator := Mod(D * ySquared + 1);
    var inverse := Inverse(denominator);
    var candidate := JsRem(numerator * inverse, P);
    CandidateIsQuotient(y, ySquared, numerator, denominator, candidate);
    var x := Power(candidate, (P + 3) / 8);
    ghost var first := x;
    if JsRem(x * x, P) != candidate {
      ProductNonNegative(x, SQRT_M1);
      x := JsRem(x * SQRT_M1, P);
    }
    if JsRem(x * x, P) != candidate {
      NoRoot(candidate, first, x, y);
      RefusedEncoding(bytes);
      return Err(NotOnCurve);
    }
    ghost var root := x;
    if x % 2 != sign {
      x := Mod(P - x);
    }
    FinishDecompression(bytes, candidate, root, x, y, sign);
    if x == 0 && sign == 1 {
      return Err(NegativeZero);
    }
    DecodedIsInverse(AffineOf(CURVE, Extended(x, y, 1, Mod(x * y))), bytes);
    return Ok(Extended(x, y, 1, Mod(x * y)));
  }

  // The three fixed encodings of the exchange are points, so loading them never fails.
  lemma FixedPointsDecode()
    requires Prime(P)
    ensures Decoded(BASE_COMPRESSED) == Some(BASE) && Decoded(M_COMPRESSED) == Some(M) && Decoded(N_COMPRESSED) == Some(N)
  {
    BaseDecodes();
    MDecodes();
    NDecodes();
  }

  lemma BaseDecodes()
    requires Prime(P)
    ensures Decoded(BASE_COMPRESSED) == Some(BASE)
  {
    BaseOnCurve();
    BaseEncoding();
    EncodingDecodes(BASE, BASE_COMPRESSED);
  }

  lemma MDecodes()
    requires Prime(P)
    ensures Decoded(M_COMPRESSED) == Some(M)
  {
    MOnCurve();
    MEncoding();
    EncodingDecodes(M, M_COMPRESSED);
  }

  lemma NDecodes()
    requires Prime(P)
    ensures Decoded(N_COMPRESSED) == Some(N)
  {
    NOnCurve();
    NEncoding();
    EncodingDecodes(N, N_COMPRESSED);
  }

  lemma EncodingDecodes(a: Affine, bytes: seq<byte>)
    requires Prime(P) && OnCurve(CURVE, a)
    requires BytesLE(a.y + (a.x % 2) * Half(POINT_BYTES), POINT_BYTES) == bytes
    ensures Decoded(bytes) == Some(a)
  {
    DecodedIsInverse(a, bytes);
  }
}
