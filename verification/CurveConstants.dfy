// The constants of curve25519 in its Edwards form: why they make the addition law complete,
// and the coordinates of the three fixed points the exchange uses.
module CurveConstants {
  import opened NumberTheory
  import opened PrimeField
  import opened LittleEndian
  import opened FieldArithmetic
  import opened EdwardsCurve

  const PRIME_VALUE: nat := 57896044618658097711785492504343953926634992332820282019728792003956564819949
  // A square root of -1 and a square root of 2 d.
  const ROOT_MINUS_ONE: nat := 19681161376707505956807079304988542015446066515923890162744021073123829784752
  const ROOT_TWICE_D: nat := 55487632915927625549282413919184614932259505768049324239291840100650878933168

  const ROOT_MULTIPLE: nat := 6690407189080634018507799843845558368979872843924222843531373839242004886245
  const TWICE_MULTIPLE: nat := 6470125913096052187458079416878450731264338945710080427977576419193736907026458186

  // A square root of 2 d; CurveIsGood shows that there is one.
  ghost function RootTwiceD(): int
  {
    if t: int :| Same(2 * D, t * t, P) then t else 0
  }

  ghost const CURVE: Curve := Curve(P, D, SQRT_M1, RootTwiceD())

  lemma PrimeValue()
    ensures P == PRIME_VALUE
  {
    var k := 33554432;
    TwentyFive();
    PowAdd(2, 25, 25);
    PowAdd(2, 50, 50);
    PowAdd(2, 100, 100);
    PowAdd(2, 200, 50);
    PowAdd(2, 250, 5);
    assert Pow(2, 5) == 2 * Pow(2, 4) == 4 * Pow(2, 3) == 8 * Pow(2, 2) == 16 * Pow(2, 1) == 32 * Pow(2, 0);
    assert Pow(2, 50) == 1125899906842624;
    assert Pow(2, 100) == 1267650600228229401496703205376;
    assert Pow(2, 200) == 1606938044258990275541962092341162602522202993782792835301376;
    assert Pow(2, 250) == 1809251394333065553493296640760748560207343510400633813116524750123642650624;
    assert FIELD_BITS == 255;
  }

  lemma RootIsRoot()
    ensures ROOT_MINUS_ONE * ROOT_MINUS_ONE + 1 == ROOT_MULTIPLE * PRIME_VALUE
    ensures ROOT_TWICE_D * ROOT_TWICE_D * 121666 + 243330
         == TWICE_MULTIPLE * PRIME_VALUE
  {}

  // -121665 = 121666 d.
  lemma ConstantQuotient()
    requires Prime(P)
    ensures Same(D * 121666, -121665, P)
  {
    SmallNonZero(121666, P);
    ZeroIsRemainder(121666, P);
    InverseIsTrue(121666);
    QuotStep(D, -121665, FieldInverse(121666), 121666, P);
  }

  // The hypotheses of the complete addition law hold for this curve.
  lemma CurveIsGood()
    requires Prime(P)
    ensures Good(CURVE)
  {
    TwiceConstantIsSquare();
    assert Same(2 * D, RootTwiceD() * RootTwiceD(), P);
    SquareRootOfMinusOne();
    ConstantNonZero();
  }

  lemma TwiceConstantIsSquare()
    requires Prime(P)
    ensures exists t: int :: Same(2 * D, t * t, P)
  {
    PrimeValue();
    RootIsRoot();
    ConstantQuotient();
    TwiceConstant(P, D, ROOT_TWICE_D, TWICE_MULTIPLE);
  }

  lemma SquareRootOfMinusOne()
    requires Prime(P)
    ensures RootedPrime(P, SQRT_M1)
  {
    var e := (P - 1) / 4;
    var i := SomeRootOfMinusOne();
    TwoPowerRoot(P, i);
    FieldPowerSame(2, e);
    SameMul(SQRT_M1, Pow(2, e), SQRT_M1, Pow(2, e), P);
    SameTrans(SQRT_M1 * SQRT_M1, Pow(2, e) * Pow(2, e), -1, P);
  }

  lemma SomeRootOfMinusOne() returns (i: int)
    requires Prime(P)
    ensures RootedPrime(P, i)
  {
    PrimeValue();
    RootIsRoot();
    assert ROOT_MINUS_ONE * ROOT_MINUS_ONE - -1 == Multiple(ROOT_MULTIPLE, P);
    i := ROOT_MINUS_ONE;
  }

  lemma ConstantNonZero()
    requires Prime(P)
    ensures !Zero(D, P)
  {
    ConstantQuotient();
    if Zero(D, P) {
      Scale(D, 121666, P);
      SameZero(D * 121666, -121665, P);
      SmallNonZero(121665, P);
      assert false;
    }
  }

  lemma TwiceConstant(p: nat, d: int, t: int, k: int)
    requires Prime(p) && p > 1000000 && Same(d * 121666, -121665, p)
    requires t * t * 121666 + 243330 == k * p
    ensures Same(2 * d, t * t, p)
  {
    assert (t * t) * 121666 - -243330 == Multiple(k, p);
    Scale(d * 121666 - -121665, 2, p);
    assert (d * 121666 - -121665) * 2 == 121666 * (2 * d) - -243330;
    SameSym((t * t) * 121666, -243330, p);
    SameTrans(121666 * (2 * d), -243330, 121666 * (t * t), p);
    SmallNonZero(121666, p);
    CancelFactor(121666, 2 * d, t * t, p);
  }

  // ------------------------------------------------------- the three fixed points

  const BASE: Affine :=
    Affine(15112221349535400772501151409588531511454012693041857206046113283949847762202,
           46316835694926478169428394003475163141307993866256225615783033603165251855960)

  const BASE_COMPRESSED: seq<byte> :=
    [0x58, 0x66, 0x66, 0x66, 0x66, 0x66, 0x66, 0x66]
    + ([0x66, 0x66, 0x66, 0x66, 0x66, 0x66, 0x66, 0x66]
    + ([0x66, 0x66, 0x66, 0x66, 0x66, 0x66, 0x66, 0x66]
    + [0x66, 0x66, 0x66, 0x66, 0x66, 0x66, 0x66, 0x66]))

  const M: Affine :=
    Affine(56797357330922913988458593931122727936228661521514257091994679493501599747208,
           8204578689594358005372171711129318668375319275647443160930343040183052652309)

  const M_COMPRESSED: seq<byte> :=
    [0x15, 0xcf, 0xd1, 0x8e, 0x38, 0x59, 0x52, 0x98]
    + ([0x2b, 0x6a, 0x8f, 0x8c, 0x78, 0x54, 0x96, 0x3b]
    + ([0x58, 0xe3, 0x43, 0x88, 0xc8, 0xe6, 0xda, 0xe8]
    + [0x91, 0xdb, 0x75, 0x64, 0x81, 0xa0, 0x23, 0x12]))

  const N: Affine :=
    Affine(19859997596809371560572533813761263760519810596029049894518304267365992636715,
           30537998347346252243850043725805156294608304431216408003238882613177304895472)

  const N_COMPRESSED: seq<byte> :=
    [0xf0, 0x4f, 0x2e, 0x7e, 0xb7, 0x34, 0xb2, 0xa8]
    + ([0xf8, 0xb4, 0x72, 0xea, 0xf9, 0xc3, 0xc6, 0x32]
    + ([0x57, 0x6a, 0xc6, 0x4a, 0xea, 0x65, 0x0b, 0x49]
    + [0x6a, 0x8a, 0x20, 0xff, 0x00, 0xe5, 0x83, 0xc3]))

  // A check on integers that puts a point on the curve.
  lemma PointCheck(x: nat, y: nat, k: int)
    requires Prime(P) && x < P && y < P
    requires 121666 * (y * y - x * x - 1) + 121665 * (x * y) * (x * y) == k * P
    ensures OnCurve(CURVE, Affine(x, y))
  {
    ConstantQuotient();
    EquationScaled(P, D, x * y, y * y - x * x - 1, k);
    assert Equation(D, x, y) == y * y - x * x - 1 - D * (x * y) * (x * y);
    SmallNonZero(121666, P);
    ZeroProduct(121666, Equation(D, x, y), P);
  }

  lemma EquationScaled(p: nat, d: int, q: int, s: int, k: int)
    requires Same(d * 121666, -121665, p) && 121666 * s + 121665 * q * q == k * p
    ensures Zero(121666 * (s - d * q * q), p)
  {
    Scale(d * 121666 - -121665, -(q * q), p);
    ScaledIdentity(d, q, s);
    assert 121666 * s + 121665 * q * q == Multiple(k, p);
    Add(121666 * s + 121665 * q * q, (d * 121666 - -121665) * -(q * q), p);
  }

  lemma ScaledIdentity(d: int, q: int, s: int)
    ensures 121666 * (s - d * q * q) == (121666 * s + 121665 * q * q) + (d * 121666 - -121665) * -(q * q)
  {}

  lemma BaseOnCurve()
    requires Prime(P)
    ensures OnCurve(CURVE, BASE)
  {
    PrimeValue();
    PointCheck(BASE.x, BASE.y, 1029558766636053315094376144190116918109560434971611326036325770389160036273743711698554476340584398030315712211750104992760583404644161868319152974424524814438960398115779510233666180283652908619946518584965584742162782692124127606030);
  }

  lemma MOnCurve()
    requires Prime(P)
    ensures OnCurve(CURVE, M)
  {
    PrimeValue();
    PointCheck(M.x, M.y, 456336906596189051993764413469798979842832038098501378927528446453043193434116192553534400305772980712723889967583104516815347182519153920114279024926608682698694964857970971209897155676146363608148646310920215376539054871906627801584);
  }

  lemma NOnCurve()
    requires Prime(P)
    ensures OnCurve(CURVE, N)
  {
    PrimeValue();
    PointCheck(N.x, N.y, 772958689584392061957346987980749309242631316283353416005472726014766897751817510976984225457738382767849918707240179890289177311984835217316907440087418812953285397317645682182878077644039266045746781113288198099775707745623622019772);
  }

  const WORD_BYTES: nat := 8

  // Four groups of eight bytes make one number.
  lemma FourWords(v: nat, a: nat, b: nat, c: nat, d: nat, bcd: nat, cd: nat)
    requires v == a + 0x1_0000_0000_0000_0000 * bcd && a < 0x1_0000_0000_0000_0000
    requires bcd == b + 0x1_0000_0000_0000_0000 * cd && b < 0x1_0000_0000_0000_0000
    requires cd == c + 0x1_0000_0000_0000_0000 * d && c < 0x1_0000_0000_0000_0000
    ensures BytesLE(v, POINT_BYTES)
         == BytesLE(a, WORD_BYTES) + (BytesLE(b, WORD_BYTES) + (BytesLE(c, WORD_BYTES) + BytesLE(d, WORD_BYTES)))
  {
    AppendWord(v, a, bcd, 3 * WORD_BYTES);
    AppendWord(bcd, b, cd, 2 * WORD_BYTES);
    AppendWord(cd, c, d, WORD_BYTES);
  }

  lemma AppendWord(v: nat, lo: nat, hi: nat, n: nat)
    requires lo < 0x1_0000_0000_0000_0000 && v == lo + 0x1_0000_0000_0000_0000 * hi
    ensures BytesLE(v, WORD_BYTES + n) == BytesLE(lo, WORD_BYTES) + BytesLE(hi, n)
  {
    EightBytes();
    AppendBytes(lo, hi, WORD_BYTES, n);
  }

  lemma WordBytes(v: nat, a: nat, b: nat, c: nat, d: nat, e: nat, f: nat, g: nat, h: nat)
    requires a < 256 && b < 256 && c < 256 && d < 256 && e < 256 && f < 256 && g < 256 && h < 256
    requires v == a + 256 * (b + 256 * (c + 256 * (d + 256 * (e + 256 * (f + 256 * (g + 256 * h))))))
    ensures BytesLE(v, WORD_BYTES) == [a, b, c, d, e, f, g, h]
  {
    var w := e + 256 * (f + 256 * (g + 256 * h));
    FourBytes(w, e, f, g, h);
    FourBytes(a + 256 * (b + 256 * (c + 256 * d)), a, b, c, d);
    assert Pow(256, 4) == 256 * Pow(256, 3) == 65536 * Pow(256, 2) == 16777216 * Pow(256, 1);
    AppendBytes(a + 256 * (b + 256 * (c + 256 * d)), w, 4, 4);
  }

  lemma FourBytes(v: nat, a: nat, b: nat, c: nat, d: nat)
    requires a < 256 && b < 256 && c < 256 && d < 256
    requires v == a + 256 * (b + 256 * (c + 256 * d))
    ensures BytesLE(v, 4) == [a, b, c, d]
  {
    assert BytesLE(v, 4) == [a] + BytesLE(b + 256 * (c + 256 * d), 3);
    assert BytesLE(b + 256 * (c + 256 * d), 3) == [b] + BytesLE(c + 256 * d, 2);
    assert BytesLE(c + 256 * d, 2) == [c] + BytesLE(d, 1);
    assert BytesLE(d, 1) == [d] + BytesLE(0, 0);
  }

  lemma EightBytes()
    ensures Pow(256, WORD_BYTES) == 0x1_0000_0000_0000_0000
  {
    PowAdd(256, 4, 4);
    assert Pow(256, 4) == 256 * Pow(256, 3) == 65536 * Pow(256, 2) == 16777216 * Pow(256, 1);
  }

  lemma BaseBytes()
    ensures BytesLE(46316835694926478169428394003475163141307993866256225615783033603165251855960, POINT_BYTES) == BASE_COMPRESSED
  {
    WordBytes(7378697629483820632, 0x58, 0x66, 0x66, 0x66, 0x66, 0x66, 0x66, 0x66);
    WordBytes(7378697629483820646, 0x66, 0x66, 0x66, 0x66, 0x66, 0x66, 0x66, 0x66);
    WordBytes(7378697629483820646, 0x66, 0x66, 0x66, 0x66, 0x66, 0x66, 0x66, 0x66);
    WordBytes(7378697629483820646, 0x66, 0x66, 0x66, 0x66, 0x66, 0x66, 0x66, 0x66);
    FourWords(46316835694926478169428394003475163141307993866256225615783033603165251855960,
              7378697629483820632, 7378697629483820646, 7378697629483820646, 7378697629483820646,
              2510840694154672305534315769283066566440942177785613805158,
              136112946768375385385349842972707284582);
  }

  lemma BaseEncoding()
    ensures BytesLE(BASE.y + (BASE.x % 2) * Half(POINT_BYTES), POINT_BYTES) == BASE_COMPRESSED
  {
    HalfValue();
    BaseBytes();
  }

  lemma MBytes()
    ensures BytesLE(8204578689594358005372171711129318668375319275647443160930343040183052652309, POINT_BYTES) == M_COMPRESSED
  {
    WordBytes(10975933341304475413, 0x15, 0xcf, 0xd1, 0x8e, 0x38, 0x59, 0x52, 0x98);
    WordBytes(4293712171475364395, 0x2b, 0x6a, 0x8f, 0x8c, 0x78, 0x54, 0x96, 0x3b);
    WordBytes(16778977110676202328, 0x58, 0xe3, 0x43, 0x88, 0xc8, 0xe6, 0xda, 0xe8);
    WordBytes(1307064794464246673, 0x91, 0xdb, 0x75, 0x64, 0x81, 0xa0, 0x23, 0x12);
    FourWords(8204578689594358005372171711129318668375319275647443160930343040183052652309,
              10975933341304475413, 4293712171475364395, 16778977110676202328, 1307064794464246673,
              444771101979323804066560690087513155859548371069659212331,
              24111089751237735479480510320725975896);
  }

  lemma MEncoding()
    ensures BytesLE(M.y + (M.x % 2) * Half(POINT_BYTES), POINT_BYTES) == M_COMPRESSED
  {
    HalfValue();
    MBytes();
  }

  lemma NBytes()
    ensures BytesLE(88434042966004349955635536230149110221243296764036690022967674617133869715440, POINT_BYTES) == N_COMPRESSED
  {
    WordBytes(12155836306927013872, 0xf0, 0x4f, 0x2e, 0x7e, 0xb7, 0x34, 0xb2, 0xa8);
    WordBytes(3658827225432765688, 0xf8, 0xb4, 0x72, 0xea, 0xf9, 0xc3, 0xc6, 0x32);
    WordBytes(5263412646463826519, 0x57, 0x6a, 0xc6, 0x4a, 0xea, 0x65, 0x0b, 0x49);
    WordBytes(14088355851788126826, 0x6a, 0x8a, 0x20, 0xff, 0x00, 0xe5, 0x83, 0xc3);
    FourWords(88434042966004349955635536230149110221243296764036690022967674617133869715440,
              12155836306927013872, 3658827225432765688, 5263412646463826519, 14088355851788126826,
              4794019075270917918027442825010530660947033865023046989048,
              259884294817283910645970536823465077335);
  }

  lemma NEncoding()
    ensures BytesLE(N.y + (N.x % 2) * Half(POINT_BYTES), POINT_BYTES) == N_COMPRESSED
  {
    HalfValue();
    NBytes();
  }

  lemma HalfValue()
    ensures Half(POINT_BYTES) == Pow(2, FIELD_BITS) == PRIME_VALUE + 19
  {
    PrimeValue();
    assert Pow(2, 8) == 2 * Pow(2, 7) == 4 * Pow(2, 6) == 8 * Pow(2, 5) == 16 * Pow(2, 4) == 32 * Pow(2, 3)
        == 64 * Pow(2, 2) == 128 * Pow(2, 1) == 256;
    assert Pow(2, 7) == 128;
    PowerOfPower(2, 8, POINT_BYTES - 1, 248);
    PowAdd(2, 7, 248);
  }
}
