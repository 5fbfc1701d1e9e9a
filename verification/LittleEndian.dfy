// Byte strings as little-endian numbers.
module LittleEndian {
  import opened NumberTheory

  type byte = x: int | 0 <= x < 256

  function ValueLE(s: seq<byte>): nat
  {
    if s == [] then 0 else s[0] + 256 * ValueLE(s[1..])
  }

  function BytesLE(v: nat, n: nat): (s: seq<byte>)
    ensures |s| == n
  {
    if n == 0 then [] else [v % 256] + BytesLE(v / 256, n - 1)
  }

  lemma {:induction false} PowerPositive(b: nat, n: nat)
    requires b > 0
    ensures Pow(b, n) > 0
  {
    if n > 0 {
      PowerPositive(b, n - 1);
    }
  }

  lemma {:induction false} PowerOfPower(b: int, m: nat, n: nat, k: nat)
    requires k == m * n
    ensures Pow(Pow(b, m), n) == Pow(b, k)
  {
    if n > 0 {
      PowerOfPower(b, m, n - 1, m * (n - 1));
      PowAdd(b, m, m * (n - 1));
      assert m + m * (n - 1) == k;
    }
  }

  lemma {:induction false} ValueBound(s: seq<byte>)
    ensures ValueLE(s) < Pow(256, |s|)
  {
    if s != [] {
      ValueBound(s[1..]);
    }
  }

  // Reading what was written gives the number back exactly when it fits.
  lemma {:induction false} ReadWritten(v: nat, n: nat)
    ensures ValueLE(BytesLE(v, n)) == v <==> v < Pow(256, n)
  {
    if n == 0 {
    } else {
      ReadWritten(v / 256, n - 1);
      var rest := BytesLE(v / 256, n - 1);
      assert BytesLE(v, n)[1..] == rest;
      assert v / 256 < Pow(256, n - 1) <==> v < 256 * Pow(256, n - 1);
    }
  }

  // Writing what was read gives the bytes back.
  lemma {:induction false} WriteRead(s: seq<byte>)
    ensures BytesLE(ValueLE(s), |s|) == s
  {
    if s != [] {
      WriteRead(s[1..]);
      assert ValueLE(s) % 256 == s[0] && ValueLE(s) / 256 == ValueLE(s[1..]);
    }
  }

  lemma {:induction false} AppendBytes(lo: nat, hi: nat, m: nat, n: nat)
    requires lo < Pow(256, m)
    ensures BytesLE(lo + Pow(256, m) * hi, m + n) == BytesLE(lo, m) + BytesLE(hi, n)
  {
    if m == 0 {
      assert lo + Pow(256, 0) * hi == hi;
    } else {
      TimesPower(Pow(256, m - 1), hi);
      LowByte(lo, Pow(256, m - 1) * hi, lo + Pow(256, m) * hi);
      AppendBytes(lo / 256, hi, m - 1, n);
      FirstByte(lo + Pow(256, m) * hi, m + n);
      FirstByte(lo, m);
    }
  }

  lemma TimesPower(power: nat, hi: nat)
    ensures (256 * power) * hi == 256 * (power * hi) && power * hi >= 0
  {}

  // Adding a multiple of 256 leaves the low byte alone.
  lemma LowByte(lo: nat, k: nat, w: nat)
    requires w == lo + 256 * k
    ensures w % 256 == lo % 256 && w / 256 == lo / 256 + k
  {}

  lemma FirstByte(v: nat, n: nat)
    requires n > 0
    ensures BytesLE(v, n) == [v % 256] + BytesLE(v / 256, n - 1)
  {}

  // -------------------------------------------------- the top bit of a byte string

  // Half of the range of n bytes: the weight of the most significant bit.
  function Half(n: nat): (h: nat)
    requires n > 0
    ensures h > 0
  {
    PowerPositive(256, n - 1);
    128 * Pow(256, n - 1)
  }

  lemma {:induction false} TopBit(s: seq<byte>)
    requires |s| > 0
    ensures ValueLE(s) / Half(|s|) == s[|s| - 1] / 128
  {
    var h := Half(|s|);
    if |s| == 1 {
      assert ValueLE(s) == s[0];
    } else {
      TopBit(s[1..]);
      var g, v := Half(|s| - 1), ValueLE(s[1..]);
      var q := v / g;
      ValueBound(s[1..]);
      assert v == q * g + v % g;
      assert ValueLE(s) == q * h + (256 * (v % g) + s[0]) by {
        assert h == 256 * g;
        assert 256 * (q * g) == q * h;
      }
      RemainderUnique(ValueLE(s), q, 256 * (v % g) + s[0], h);
    }
  }

  lemma UpdateTail(first: byte, rest: seq<byte>, i: nat, b: byte)
    requires i < |rest|
    ensures ([first] + rest)[i + 1 := b] == [first] + rest[i := b] && ([first] + rest)[i + 1] == rest[i]
  {}

  lemma OneByteTop(v: nat, b: nat)
    requires v < Half(1) && b <= 1
    ensures BytesLE(v + b * Half(1), 1) == BytesLE(v, 1)[0 := BytesLE(v, 1)[0] % 128 + 128 * b]
  {
    assert Half(1) == 128;
    FirstByte(v, 1);
    FirstByte(v + b * 128, 1);
  }

  // The weight of the top bit, one byte further up.
  lemma HalfStep(n: nat, b: nat)
    requires n > 1 && b <= 1
    ensures b * Half(n - 1) >= 0 && b * Half(n) == 256 * (b * Half(n - 1)) && Half(n) == 256 * Half(n - 1)
  {
    assert b == 0 || b == 1;
  }

  // A change of the last byte of the rest is a change of the last byte.
  lemma SetTail(v: nat, w: nat, n: nat, b: nat)
    requires n > 1 && b <= 1 && w % 256 == v % 256
    requires (var rest := BytesLE(v / 256, n - 1); BytesLE(w / 256, n - 1) == rest[n - 2 := rest[n - 2] % 128 + 128 * b])
    ensures (var s := BytesLE(v, n); BytesLE(w, n) == s[n - 1 := s[n - 1] % 128 + 128 * b])
  {
    var rest := BytesLE(v / 256, n - 1);
    FirstByte(v, n);
    FirstByte(w, n);
    UpdateTail(v % 256, rest, n - 2, rest[n - 2] % 128 + 128 * b);
  }

  // Setting the most significant bit adds its weight.
  lemma {:induction false} SetTopBit(v: nat, n: nat, b: nat)
    requires n > 0 && v < Half(n) && b <= 1
    ensures (var s := BytesLE(v, n); BytesLE(v + b * Half(n), n) == s[n - 1 := s[n - 1] % 128 + 128 * b])
  {
    if n == 1 {
      OneByteTop(v, b);
    } else {
      HalfStep(n, b);
      LowByte(v, b * Half(n - 1), v + b * Half(n));
      SetTopBit(v / 256, n - 1, b);
      SetTail(v, v + b * Half(n), n, b);
    }
  }
}
