// Byte strings as big-endian numbers.
module BigEndian {
  import opened NumberTheory
  import opened LittleEndian

  function ValueBE(s: seq<byte>): nat
  {
    if s == [] then 0 else 256 * ValueBE(s[..|s| - 1]) + s[|s| - 1]
  }

  function BytesBE(v: nat, n: nat): (s: seq<byte>)
    ensures |s| == n
  {
    if n == 0 then [] else BytesBE(v / 256, n - 1) + [v % 256]
  }

  // Reading what was written gives the number back exactly when it fits.
  lemma {:induction false} ReadWrittenBE(v: nat, n: nat)
    ensures ValueBE(BytesBE(v, n)) == v <==> v < Pow(256, n)
  {
    if n > 0 {
      ReadWrittenBE(v / 256, n - 1);
      assert BytesBE(v, n)[..n - 1] == BytesBE(v / 256, n - 1);
    }
  }

  lemma {:induction false} WriteReadBE(s: seq<byte>)
    ensures BytesBE(ValueBE(s), |s|) == s
  {
    if s != [] {
      WriteReadBE(s[..|s| - 1]);
      assert ValueBE(s) / 256 == ValueBE(s[..|s| - 1]) && ValueBE(s) % 256 == s[|s| - 1];
    }
  }

  lemma {:induction false} ValueBoundBE(s: seq<byte>)
    ensures ValueBE(s) < Pow(256, |s|)
  {
    if s != [] {
      ValueBoundBE(s[..|s| - 1]);
    }
  }

  const U16: nat := 0x1_0000
  const U32: nat := 0x1_0000_0000
  const U64: nat := 0x1_0000_0000_0000_0000

  lemma FieldRanges()
    ensures Pow(256, 2) == U16 && Pow(256, 4) == U32 && Pow(256, 8) == U64
  {
    PowAdd(256, 4, 4);
    assert Pow(256, 2) == 256 * Pow(256, 1) == 65536;
    assert Pow(256, 4) == 256 * Pow(256, 3) == 65536 * Pow(256, 2);
  }
}
