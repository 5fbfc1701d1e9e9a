// Carrier frames of apps/pwa/src/tunnel.ts: an eighteen byte header and a sealed body.
module CarrierCodec {
  import opened Results
  import opened LittleEndian
  import opened BigEndian
  import opened Buffers

  const MAX_PAYLOAD_LEN: nat := 65536
  const HEADER_LEN: nat := 18
  const WIRE_MAJOR: nat := 0
  const WIRE_MINOR: nat := 1
  const DATA_TYPE: nat := 0x10
  const SHORT: nat := 2
  const LONG: nat := 4

  datatype CarrierError = TooShort | BadMagic | WrongVersion(major: nat) | NotData | DeclaresTooMuch | LengthMismatch

  // The header: magic, version, type, flags, stream, length.
  function Header(major: nat, minor: nat, kind: nat, flags: nat, stream: nat, length: nat): (h: seq<byte>)
    ensures |h| == HEADER_LEN
  {
    [0x44, 0x52] + BytesBE(major, SHORT) + BytesBE(minor, SHORT) + BytesBE(kind, SHORT) + BytesBE(flags, SHORT)
    + BytesBE(stream, LONG) + BytesBE(length, LONG)
  }

  function Framed(stream: nat, body: seq<byte>): seq<byte>
  {
    Header(WIRE_MAJOR, WIRE_MINOR, DATA_TYPE, 0, stream, |body|) + body
  }

  // The field at an offset.
  function Field(frame: seq<byte>, at: nat, width: nat): nat
    requires at + width <= |frame|
  {
    ValueBE(frame[at..at + width])
  }

  function ParseCarrier(frame: seq<byte>): Result<(nat, seq<byte>), CarrierError>
  {
    if |frame| < HEADER_LEN then Err(TooShort)
    else if frame[0] != 0x44 || frame[1] != 0x52 then Err(BadMagic)
    else if Field(frame, 2, SHORT) != WIRE_MAJOR then Err(WrongVersion(Field(frame, 2, SHORT)))
    else if Field(frame, 6, SHORT) != DATA_TYPE then Err(NotData)
    else if Field(frame, 14, LONG) > MAX_PAYLOAD_LEN then Err(DeclaresTooMuch)
    else if |frame| != HEADER_LEN + Field(frame, 14, LONG) then Err(LengthMismatch)
    else Ok((Field(frame, 10, LONG), frame[HEADER_LEN..]))
  }

  // Wrapping a body: refused above the limit, and otherwise laid out in a fresh buffer.
  method Carrier(stream: nat, body: seq<byte>) returns (r: Result<array<byte>, CarrierError>)
    ensures r.Ok? <==> |body| <= MAX_PAYLOAD_LEN
    ensures r.Ok? ==> fresh(r.value) && r.value[..] == Framed(stream, body)
  {
    if |body| > MAX_PAYLOAD_LEN {
      return Err(DeclaresTooMuch);
    }
    var frame := new byte[HEADER_LEN + |body|](_ => 0);
    SetBytes(frame, [0x44, 0x52], 0);
    SetField(frame, WIRE_MAJOR, SHORT, 2);
    SetField(frame, WIRE_MINOR, SHORT, 4);
    SetField(frame, DATA_TYPE, SHORT, 6);
    SetField(frame, 0, SHORT, 8);
    SetField(frame, stream, LONG, 10);
    SetField(frame, |body|, LONG, 14);
    assert frame[..HEADER_LEN] == Header(WIRE_MAJOR, WIRE_MINOR, DATA_TYPE, 0, stream, |body|);
    SetBytes(frame, body, HEADER_LEN);
    assert frame[..] == frame[..HEADER_LEN + |body|];
    return Ok(frame);
  }

  // A field that follows known bytes, with more fields behind it.
  lemma FieldAfter(before: seq<byte>, field: seq<byte>, after: seq<byte>)
    ensures (before + field + after)[|before|..|before| + |field|] == field
  {}

  // The layout: two bytes of magic, four short fields, two long ones, the body.
  lemma ShortFields(a: seq<byte>, b: seq<byte>, c: seq<byte>, d: seq<byte>, rest: seq<byte>)
    requires |a| == |b| == |c| == |d| == SHORT
    ensures (var f := [0x44, 0x52] + a + b + c + d + rest;
             && f[0] == 0x44 && f[1] == 0x52 && f[2..2 + SHORT] == a && f[6..6 + SHORT] == c && f[10..] == rest)
  {
    var f := [0x44, 0x52] + a + b + c + d + rest;
    FieldAfter([0x44, 0x52], a, b + c + d + rest);
    assert f == [0x44, 0x52] + a + (b + c + d + rest);
    FieldAfter([0x44, 0x52] + a + b, c, d + rest);
    assert f == ([0x44, 0x52] + a + b) + c + (d + rest);
  }

  lemma LongFields(head: seq<byte>, e: seq<byte>, l: seq<byte>, body: seq<byte>)
    requires |head| == 10 && |e| == |l| == LONG
    ensures (var f := head + e + l + body;
             && f[10..10 + LONG] == e && f[14..14 + LONG] == l && f[HEADER_LEN..] == body && f[10..] == e + l + body)
  {
    FieldAfter(head, e, l + body);
    assert head + e + l + body == head + e + (l + body);
    FieldAfter(head + e, l, body);
  }

  lemma HeaderFields(major: nat, minor: nat, kind: nat, flags: nat, stream: nat, length: nat, body: seq<byte>)
    ensures (var f := Header(major, minor, kind, flags, stream, length) + body;
             && |f| == HEADER_LEN + |body| && f[0] == 0x44 && f[1] == 0x52 && f[HEADER_LEN..] == body
             && f[2..2 + SHORT] == BytesBE(major, SHORT) && f[6..6 + SHORT] == BytesBE(kind, SHORT)
             && f[10..10 + LONG] == BytesBE(stream, LONG) && f[14..14 + LONG] == BytesBE(length, LONG))
  {
    HeaderLayout(BytesBE(major, SHORT), BytesBE(minor, SHORT), BytesBE(kind, SHORT), BytesBE(flags, SHORT),
                 BytesBE(stream, LONG), BytesBE(length, LONG), body);
  }

  lemma HeaderLayout(a: seq<byte>, b: seq<byte>, c: seq<byte>, d: seq<byte>, e: seq<byte>, l: seq<byte>, body: seq<byte>)
    requires |a| == |b| == |c| == |d| == SHORT && |e| == |l| == LONG
    ensures (var f := [0x44, 0x52] + a + b + c + d + e + l + body;
             && |f| == HEADER_LEN + |body| && f[0] == 0x44 && f[1] == 0x52 && f[HEADER_LEN..] == body
             && f[2..2 + SHORT] == a && f[6..6 + SHORT] == c && f[10..10 + LONG] == e && f[14..14 + LONG] == l)
  {
    var head := [0x44, 0x52] + a + b + c + d;
    ShortFields(a, b, c, d, e + l + body);
    LongFields(head, e, l, body);
    assert head + e + l + body == head + (e + l + body);
  }

  // Parsing inverts framing, for every stream and every body within the limit.
  lemma ParseInvertsFraming(stream: nat, body: seq<byte>)
    requires stream < U32 && |body| <= MAX_PAYLOAD_LEN
    ensures ParseCarrier(Framed(stream, body)) == Ok((stream, body))
  {
    HeaderFields(WIRE_MAJOR, WIRE_MINOR, DATA_TYPE, 0, stream, |body|, body);
    FieldRanges();
    ReadWrittenBE(WIRE_MAJOR, SHORT);
    ReadWrittenBE(DATA_TYPE, SHORT);
    ReadWrittenBE(stream, LONG);
    ReadWrittenBE(|body|, LONG);
  }

  // What is accepted is a framing, up to the two fields nobody looks at: the minor version and the flags.
  lemma AcceptedIsFramed(frame: seq<byte>)
    requires ParseCarrier(frame).Ok?
    ensures (var (stream, body) := ParseCarrier(frame).value;
             && stream < U32 && |body| <= MAX_PAYLOAD_LEN
             && frame == Header(WIRE_MAJOR, Field(frame, 4, SHORT), DATA_TYPE, Field(frame, 8, SHORT), stream, |body|) + body)
  {
    FieldRanges();
    WriteReadBE(frame[2..2 + SHORT]);
    WriteReadBE(frame[4..4 + SHORT]);
    WriteReadBE(frame[6..6 + SHORT]);
    WriteReadBE(frame[8..8 + SHORT]);
    WriteReadBE(frame[10..10 + LONG]);
    WriteReadBE(frame[14..14 + LONG]);
    ValueBoundBE(frame[10..10 + LONG]);
    assert frame == frame[..2] + frame[2..4] + frame[4..6] + frame[6..8] + frame[8..10] + frame[10..14] + frame[14..18] + frame[18..];
  }
}
