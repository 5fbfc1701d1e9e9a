// Writing into fixed-size byte buffers, as Uint8Array.set and the DataView setters do.
module Buffers {
  import opened LittleEndian
  import opened BigEndian

  method SetBytes(target: array<byte>, source: seq<byte>, offset: nat)
    requires offset + |source| <= target.Length
    modifies target
    ensures target[..] == old(target[..offset]) + source + old(target[offset + |source|..])
    ensures target[..offset + |source|] == old(target[..offset]) + source
  {
    var i := 0;
    while i < |source|
      invariant 0 <= i <= |source|
      invariant target[..offset + i] == old(target[..offset]) + source[..i]
      invariant target[offset + i..] == old(target[offset + i..])
    {
      target[offset + i] := source[i];
      i := i + 1;
    }
    assert target[..] == target[..offset + i] + target[offset + i..];
  }

  // A big-endian field of a fixed width; a value that does not fit is cut to its low bytes.
  method SetField(target: array<byte>, value: nat, width: nat, offset: nat)
    requires offset + width <= target.Length
    modifies target
    ensures target[..] == old(target[..offset]) + BytesBE(value, width) + old(target[offset + width..])
    ensures target[..offset + width] == old(target[..offset]) + BytesBE(value, width)
  {
    var remaining := value;
    var i := width;
    while i > 0
      invariant 0 <= i <= width && remaining >= 0
      invariant target[..offset] == old(target[..offset]) && target[offset + width..] == old(target[offset + width..])
      invariant BytesBE(value, width) == BytesBE(remaining, i) + target[offset + i..offset + width]
    {
      i := i - 1;
      ghost var done := target[offset + i + 1..offset + width];
      target[offset + i] := remaining % 256;
      assert target[offset + i..offset + width] == [remaining % 256] + done;
      assert BytesBE(remaining, i + 1) == BytesBE(remaining / 256, i) + [remaining % 256];
      remaining := remaining / 256;
    }
    assert target[..] == target[..offset] + target[offset..offset + width] + target[offset + width..];
  }
}
