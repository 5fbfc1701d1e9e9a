// Decoding what the daemon sends on a proxied stream: `decodeMessage` and its bounds-checked `Reader` in
// apps/pwa/src/proxy.ts.
module ProxyReader {
  import opened Results
  import opened NumberTheory
  import opened LittleEndian
  import opened BigEndian
  import opened Utf8
  import opened ProxyCodec

  // Text as the decoder gives it: exact, or with replacement characters for ill-formed bytes.
  datatype Text = Exact(text: string) | Replaced(bytes: seq<byte>)

  datatype Inbound =
    | ResponseStart(id: nat, status: nat, headers: map<Text, Text>)
    | ResponseBody(chunk: seq<byte>)
    | ResponseEnd
    | Failure(id: nat, reason: Text)
    | WsOpened(id: nat, status: nat, headers: map<Text, Text>)
    | WsText(id: nat, text: Text)
    | WsClose(id: nat)

  datatype DecodeError = WrongVersion(version: nat) | OutOfBounds | ShorterThanDeclared | BinaryFrame | UnknownType(tag: nat)

  // How far JavaScript's numbers are apart: one below 2^53, twice as far with every further bit.
  function Spacing(value: nat): (gap: nat)
    ensures gap > 0
  {
    if value < MAX_SAFE then 1 else 2 * Spacing(value / 2)
  }

  // The nearest JavaScript number, of two equally near ones the even multiple.
  function AsNumber(value: nat): nat
  {
    var gap := Spacing(value);
    var low, over := value / gap, value % gap;
    (if 2 * over < gap || (2 * over == gap && low % 2 == 0) then low else low + 1) * gap
  }

  lemma NumberSurvivesIff(value: nat)
    ensures AsNumber(value) == value <==> value % Spacing(value) == 0
    ensures value <= MAX_SAFE ==> AsNumber(value) == value
    ensures 2 * AsNumber(value) <= 2 * value + Spacing(value) && 2 * value <= 2 * AsNumber(value) + Spacing(value)
  {
    var gap := Spacing(value);
    var low, over := value / gap, value % gap;
    assert value == low * gap + over;
    assert (low + 1) * gap == low * gap + gap;
    if value <= MAX_SAFE {
      SpacingOfSafe(value);
    }
  }

  // Fifty-three bits are kept.
  lemma {:induction false} SpacingKeepsBits(value: nat)
    requires value >= MAX_SAFE
    ensures MAX_SAFE / 2 * Spacing(value) <= value < MAX_SAFE * Spacing(value)
  {
    if value / 2 < MAX_SAFE {
      assert Spacing(value) == 2;
    } else {
      SpacingKeepsBits(value / 2);
    }
  }

  lemma SpacingOfSafe(value: nat)
    requires value <= MAX_SAFE
    ensures value % Spacing(value) == 0
  {
    if value == MAX_SAFE {
      assert Spacing(value) == 2 * Spacing(value / 2) && Spacing(value / 2) == 1;
    }
  }

  function AsText(bytes: seq<byte>): Text
  {
    match TextDecoded(bytes)
    case Some(text) => Exact(text)
    case None => Replaced(bytes)
  }

  // The platform's decoder, as the reader uses it.
  type TextDecoder = seq<byte> -> Text

  function LowerText(t: Text): Text
  {
    if t.Exact? then Exact(Lower(t.text)) else t
  }

  // ------------------------------------------------------------ what is read

  // A value and the position after it.
  type At<T> = Result<(T, nat), DecodeError>

  function NumberAt(b: seq<byte>, at: nat, width: nat): At<nat>
  {
    if at + width > |b| then Err(OutOfBounds) else Ok((ValueBE(b[at..at + width]), at + width))
  }

  function ChunkAt(b: seq<byte>, at: nat): At<seq<byte>>
  {
    var length :- NumberAt(b, at, U32_LEN);
    if length.1 + length.0 > |b| then Err(ShorterThanDeclared)
    else Ok((b[length.1..length.1 + length.0], length.1 + length.0))
  }

  function TextAt(b: seq<byte>, at: nat, decode: TextDecoder): At<Text>
  {
    var chunk :- ChunkAt(b, at);
    Ok((decode(chunk.0), chunk.1))
  }

  function HeaderAt(b: seq<byte>, at: nat, decode: TextDecoder): At<(Text, Text)>
  {
    var name :- TextAt(b, at, decode);
    var value :- TextAt(b, name.1, decode);
    Ok(((LowerText(name.0), value.0), value.1))
  }

  // Later headers of the same name replace earlier ones.
  function HeadersAt(b: seq<byte>, at: nat, count: nat, before: map<Text, Text>, decode: TextDecoder): At<map<Text, Text>>
    decreases count
  {
    if count == 0 then Ok((before, at))
    else
      var header :- HeaderAt(b, at, decode);
      HeadersAt(b, header.1, count - 1, before[header.0.0 := header.0.1], decode)
  }

  function HeadAt(b: seq<byte>, at: nat): Result<(nat, nat, map<Text, Text>), DecodeError>
  {
    var id :- NumberAt(b, at, U64_LEN);
    var status :- NumberAt(b, id.1, U16_LEN);
    var count :- NumberAt(b, status.1, U16_LEN);
    var headers :- HeadersAt(b, count.1, count.0, map[], AsText);
    Ok((AsNumber(id.0), status.0, headers.0))
  }

  // A missing kind byte reads as zero, and so as a close.
  function WsDataAt(b: seq<byte>, at: nat): Result<Inbound, DecodeError>
  {
    var id :- NumberAt(b, at, U64_LEN);
    var kind := if id.1 < |b| then b[id.1] else 0;
    if kind == 1 then
      var text :- TextAt(b, id.1 + 1, AsText);
      Ok(WsText(AsNumber(id.0), text.0))
    else if kind == 2 then Err(BinaryFrame)
    else Ok(WsClose(AsNumber(id.0)))
  }

  // A payload that is not a proxy message is nothing; one that claims to be is a message or an error.
  function Decoding(b: seq<byte>): Result<Option<Inbound>, DecodeError>
  {
    if |b| < 4 || b[0] != 0x50 || b[1] != 0x58 then Ok(None)
    else if b[2] != VERSION then Err(WrongVersion(b[2]))
    else if b[3] == TAG_RESPONSE_START then
      var head :- HeadAt(b, 4);
      Ok(Some(ResponseStart(head.0, head.1, head.2)))
    else if b[3] == TAG_RESPONSE_BODY then
      var chunk :- ChunkAt(b, 4);
      Ok(Some(ResponseBody(chunk.0)))
    else if b[3] == TAG_RESPONSE_END then Ok(Some(ResponseEnd))
    else if b[3] == TAG_FAILURE then
      var id :- NumberAt(b, 4, U64_LEN);
      var reason :- TextAt(b, id.1, AsText);
      Ok(Some(Failure(AsNumber(id.0), reason.0)))
    else if b[3] == TAG_WS_OPENED then
      var head :- HeadAt(b, 4);
      Ok(Some(WsOpened(head.0, head.1, head.2)))
    else if b[3] == TAG_WS_DATA then
      var message :- WsDataAt(b, 4);
      Ok(Some(message))
    else Err(UnknownType(b[3]))
  }

  // ---------------------------------------------------------------- the reader

  lemma HeadersStep(b: seq<byte>, at: nat, count: nat, before: map<Text, Text>, header: At<(Text, Text)>, decode: TextDecoder)
    requires count > 0 && header == HeaderAt(b, at, decode)
    ensures header.Err? ==> HeadersAt(b, at, count, before, decode) == Err(header.error)
    ensures header.Ok? ==>
      HeadersAt(b, at, count, before, decode) == HeadersAt(b, header.value.1, count - 1, before[header.value.0.0 := header.value.0.1], decode)
  {}

  class Reader {
    const source: seq<byte>
    const decode: TextDecoder
    var at: nat

    constructor (bytes: seq<byte>, at: nat, decode: TextDecoder)
      ensures source == bytes && this.at == at && this.decode == decode
    {
      source, this.at, this.decode := bytes, at, decode;
    }

    method ReadU8() returns (value: byte)
      modifies this
      ensures value == if old(at) < |source| then source[old(at)] else 0
      ensures at == old(at) + 1
    {
      value := if at < |source| then source[at] else 0;
      at := at + 1;
    }

    method ReadNumber(width: nat) returns (r: Result<nat, DecodeError>)
      modifies this
      ensures r == Value(NumberAt(source, old(at), width))
      ensures r.Ok? ==> at == NumberAt(source, old(at), width).value.1
    {
      if at + width > |source| {
        return Err(OutOfBounds);
      }
      var value := ValueBE(source[at..at + width]);
      at := at + width;
      return Ok(value);
    }

    method ReadChunk() returns (r: Result<seq<byte>, DecodeError>)
      modifies this
      ensures r == Value(ChunkAt(source, old(at)))
      ensures r.Ok? ==> at == ChunkAt(source, old(at)).value.1
    {
      var length :- ReadNumber(U32_LEN);
      if at + length > |source| {
        return Err(ShorterThanDeclared);
      }
      var slice := source[at..at + length];
      at := at + length;
      return Ok(slice);
    }

    method ReadText() returns (r: Result<Text, DecodeError>)
      modifies this
      ensures r == Value(TextAt(source, old(at), decode))
      ensures r.Ok? ==> at == TextAt(source, old(at), decode).value.1
    {
      var chunk :- ReadChunk();
      return Ok(decode(chunk));
    }

    method ReadHeaders() returns (r: Result<map<Text, Text>, DecodeError>)
      modifies this
      ensures match NumberAt(source, old(at), U16_LEN)
              case Err(error) => r == Err(error)
              case Ok(count) => r == Value(HeadersAt(source, count.1, count.0, map[], decode))
    {
      var count :- ReadNumber(U16_LEN);
      r := ReadPairs(count);
    }

    method ReadHeader() returns (r: Result<(Text, Text), DecodeError>)
      modifies this
      ensures r == Value(HeaderAt(source, old(at), decode))
      ensures r.Ok? ==> at == HeaderAt(source, old(at), decode).value.1
    {
      var name :- ReadText();
      var value :- ReadText();
      return Ok((LowerText(name), value));
    }

    // One of the headers still to be read.
    method ReadInto(headers: map<Text, Text>, ghost left: nat) returns (r: Result<map<Text, Text>, DecodeError>)
      requires left > 0
      modifies this
      ensures r.Err? ==> Value(HeadersAt(source, old(at), left, headers, decode)) == r
      ensures r.Ok? ==> Value(HeadersAt(source, old(at), left, headers, decode)) == Value(HeadersAt(source, at, left - 1, r.value, decode))
    {
      HeadersStep(source, at, left, headers, HeaderAt(source, at, decode), decode);
      var header :- ReadHeader();
      return Ok(headers[header.0 := header.1]);
    }

    method ReadPairs(count: nat) returns (r: Result<map<Text, Text>, DecodeError>)
      modifies this
      ensures r == Value(HeadersAt(source, old(at), count, map[], decode))
    {
      var headers: map<Text, Text> := map[];
      var index := 0;
      ghost var expected := Value(HeadersAt(source, at, count, headers, decode));
      ghost var left: nat := count;
      while index < count
        invariant 0 <= index <= count && left == count - index
        invariant Value(HeadersAt(source, at, left, headers, decode)) == expected
      {
        headers :- ReadInto(headers, left);
        index, left := index + 1, left - 1;
      }
      return Ok(headers);
    }
  }

  function Value<T>(r: At<T>): Result<T, DecodeError>
  {
    if r.Err? then Err(r.error) else Ok(r.value.0)
  }

  method DecodeMessage(payload: seq<byte>) returns (r: Result<Option<Inbound>, DecodeError>)
    ensures r == Decoding(payload)
  {
    if |payload| < 4 || payload[0] != 0x50 || payload[1] != 0x58 {
      return Ok(None);
    }
    if payload[2] != VERSION {
      return Err(WrongVersion(payload[2]));
    }
    var reader := new Reader(payload, 4, AsText);
    if payload[3] == TAG_RESPONSE_START {
      var id :- reader.ReadNumber(U64_LEN);
      var status :- reader.ReadNumber(U16_LEN);
      var headers :- reader.ReadHeaders();
      return Ok(Some(ResponseStart(AsNumber(id), status, headers)));
    } else if payload[3] == TAG_RESPONSE_BODY {
      var chunk :- reader.ReadChunk();
      return Ok(Some(ResponseBody(chunk)));
    } else if payload[3] == TAG_RESPONSE_END {
      return Ok(Some(ResponseEnd));
    } else if payload[3] == TAG_FAILURE {
      var id :- reader.ReadNumber(U64_LEN);
      var reason :- reader.ReadText();
      return Ok(Some(Failure(AsNumber(id), reason)));
    } else if payload[3] == TAG_WS_OPENED {
      var id :- reader.ReadNumber(U64_LEN);
      var status :- reader.ReadNumber(U16_LEN);
      var headers :- reader.ReadHeaders();
      return Ok(Some(WsOpened(AsNumber(id), status, headers)));
    } else if payload[3] == TAG_WS_DATA {
      var id :- reader.ReadNumber(U64_LEN);
      var kind := reader.ReadU8();
      if kind == 1 {
        var text :- reader.ReadText();
        return Ok(Some(WsText(AsNumber(id), text)));
      }
      if kind == 2 {
        return Err(BinaryFrame);
      }
      return Ok(Some(WsClose(AsNumber(id))));
    }
    return Err(UnknownType(payload[3]));
  }

  // ---------------------------------------------------------------- round trips

  lemma NumberFound(before: seq<byte>, value: nat, width: nat, after: seq<byte>)
    requires value < Pow(256, width)
    ensures NumberAt(before + BytesBE(value, width) + after, |before|, width) == Ok((value, |before| + width))
  {
    var b := before + BytesBE(value, width) + after;
    ReadWrittenBE(value, width);
    assert b[|before|..|before| + width] == BytesBE(value, width);
  }

  lemma ChunkFound(before: seq<byte>, bytes: seq<byte>)
    requires |bytes| < U32
    ensures ChunkAt(before + BytesFrom(bytes), |before|) == Ok((bytes, |before| + U32_LEN + |bytes|))
  {
    var b := before + BytesFrom(bytes);
    var prefix := before + BytesBE(|bytes|, U32_LEN);
    FieldRanges();
    NumberFound(before, |bytes|, U32_LEN, bytes);
    assert b == prefix + bytes;
    assert b[|prefix|..|prefix| + |bytes|] == bytes;
  }

  lemma TextFound(before: seq<byte>, bytes: seq<byte>)
    requires |bytes| < U32
    ensures TextAt(before + BytesFrom(bytes), |before|, AsText) == Ok((AsText(bytes), |before| + U32_LEN + |bytes|))
  {
    ChunkFound(before, bytes);
    TextOfChunk(before + BytesFrom(bytes), |before|, (bytes, |before| + U32_LEN + |bytes|));
  }

  lemma TextOfChunk(b: seq<byte>, at: nat, chunk: (seq<byte>, nat))
    requires ChunkAt(b, at) == Ok(chunk)
    ensures TextAt(b, at, AsText) == Ok((AsText(chunk.0), chunk.1))
  {}

  // What decoding a WebSocket message gives: the same id and frame, but the text as the decoder sees it.
  lemma WsDataDecodes(id: nat, frame: WsFrame)
    requires id <= MAX_SAFE && (frame.Text? ==> FitsText(frame.text))
    ensures Decoding(WsDataBytes(id, frame))
         == Ok(Some(if frame.Text? then WsText(id, AsText(Encode(frame.text))) else WsClose(id)))
  {
    var head := Prefix(TAG_WS_DATA) + BytesBE(id, U64_LEN);
    SafeNumber(id);
    match frame
    case Text(text) =>
      assert WsDataBytes(id, frame) == head + ([1] + TextBytes(text));
      TextFound(head + [1], Encode(text));
      WsTextDecodes(head, id, TextBytes(text), (AsText(Encode(text)), |head| + 1 + U32_LEN + |Encode(text)|));
    case Close =>
      assert WsDataBytes(id, frame) == head + [3];
      WsTail(head, id, [3]);
      CloseFrameAt(head + [3], id, |head|);
  }

  lemma SafeNumber(id: nat)
    requires id <= MAX_SAFE
    ensures AsNumber(id) == id && id < U64
  {
    NumberSurvivesIff(id);
  }

  lemma WsTextDecodes(head: seq<byte>, id: nat, chunk: seq<byte>, text: (Text, nat))
    requires head == Prefix(TAG_WS_DATA) + BytesBE(id, U64_LEN) && id < U64
    requires TextAt(head + [1] + chunk, |head| + 1, AsText) == Ok(text)
    ensures Decoding(head + ([1] + chunk)) == Ok(Some(WsText(AsNumber(id), text.0)))
  {
    WsTail(head, id, [1] + chunk);
    Glued(head, 1, chunk);
    TextFrameAt(head + ([1] + chunk), id, |head|, text);
  }

  lemma Glued(head: seq<byte>, kind: byte, tail: seq<byte>)
    ensures head + ([kind] + tail) == head + [kind] + tail
  {}

  lemma TextFrameAt(b: seq<byte>, id: nat, at: nat, text: (Text, nat))
    requires |b| >= 4 && b[0] == 0x50 && b[1] == 0x58 && b[2] == VERSION && b[3] == TAG_WS_DATA
    requires NumberAt(b, 4, U64_LEN) == Ok((id, at)) && at < |b| && b[at] == 1 && TextAt(b, at + 1, AsText) == Ok(text)
    ensures Decoding(b) == Ok(Some(WsText(AsNumber(id), text.0)))
  {}

  lemma CloseFrameAt(b: seq<byte>, id: nat, at: nat)
    requires |b| >= 4 && b[0] == 0x50 && b[1] == 0x58 && b[2] == VERSION && b[3] == TAG_WS_DATA
    requires NumberAt(b, 4, U64_LEN) == Ok((id, at)) && at < |b| && b[at] == 3
    ensures Decoding(b) == Ok(Some(WsClose(AsNumber(id))))
  {}

  // The head of a WebSocket message, and the kind byte that follows it.
  lemma WsTail(head: seq<byte>, id: nat, tail: seq<byte>)
    requires head == Prefix(TAG_WS_DATA) + BytesBE(id, U64_LEN) && id < U64 && tail != []
    ensures (var b := head + tail;
             && |b| >= 4 && b[0] == 0x50 && b[1] == 0x58 && b[2] == VERSION && b[3] == TAG_WS_DATA
             && NumberAt(b, 4, U64_LEN) == Ok((id, |head|)) && |head| < |b| && b[|head|] == tail[0])
  {
    FieldRanges();
    NumberFound(Prefix(TAG_WS_DATA), id, U64_LEN, tail);
  }

  // The frame comes back as it was sent exactly when it is not a text that starts with U+FEFF.
  lemma WsDataSurvivesIff(id: nat, frame: WsFrame)
    requires id <= MAX_SAFE && (frame.Text? ==> FitsText(frame.text))
    ensures Decoding(WsDataBytes(id, frame))
              == Ok(Some(if frame.Text? then WsText(id, Exact(frame.text)) else WsClose(id)))
       <==> !(frame.Text? && frame.text != "" && frame.text[0] == BOM)
  {
    WsDataDecodes(id, frame);
    if frame.Text? {
      TextSurvivesIff(frame.text);
    }
  }
}
