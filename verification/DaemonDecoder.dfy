// What the daemon reads from a proxied stream: `decode` of crates/dr-dsh-daemon/src/proxy/message.rs and its
// bounds-checked `Cursor`, against what the browser's encoders in apps/pwa/src/proxy.ts write.
module DaemonDecoder {
  import opened Results
  import opened NumberTheory
  import opened LittleEndian
  import opened BigEndian
  import opened Utf8
  import opened ProxyCodec
  import opened DaemonMessages

  const TAG_REQUEST_BODY: byte := 2
  const TAG_REQUEST_END: byte := 3

  // Everything that can be decoded: what only the browser sends, and what the daemon sends as well.
  datatype ProxyMessage =
    | RequestStart(id: u64, verb: string, target: string, headers: seq<Header>, body: seq<byte>)
    | RequestBody(bytes: seq<byte>)
    | RequestEnd
    | WsOpen(id: u64, target: string, headers: seq<Header>)
    | Both(message: Outbound)

  datatype CodecError =
    | BadMagic
    | Version(found: nat)
    | UnknownType(tag: nat)
    | Truncated(needed: int, had: nat)
    | TooLarge(declared: nat)
    | NotUtf8
    | HeadersTooLarge(total: nat)
    | UnknownFrameKind(kind: nat)

  // A string as the daemon holds it: its length is that of its bytes.
  datatype Str = Str(text: string, len: nat)

  // The platform's strict decoder, as the cursor uses it.
  type Utf8Decoder = seq<byte> -> Option<string>

  // ------------------------------------------------------------ what is read

  // A value and the bytes after it. `size` is that of the whole message, which an error mentions.
  type Got<T> = Result<(T, seq<byte>), CodecError>

  function GetSlice(rest: seq<byte>, size: nat, count: nat): Got<seq<byte>>
  {
    if count > |rest| then Err(Truncated(size - |rest| + count, size)) else Ok((rest[..count], rest[count..]))
  }

  function GetNumber(rest: seq<byte>, size: nat, width: nat): Got<nat>
  {
    var taken :- GetSlice(rest, size, width);
    Ok((ValueBE(taken.0), taken.1))
  }

  function GetU16(rest: seq<byte>, size: nat): Got<u16>
  {
    var taken :- GetSlice(rest, size, U16_LEN);
    FieldRanges();
    ValueBoundBE(taken.0);
    Ok((ValueBE(taken.0), taken.1))
  }

  function GetU64(rest: seq<byte>, size: nat): Got<u64>
  {
    var taken :- GetSlice(rest, size, U64_LEN);
    FieldRanges();
    ValueBoundBE(taken.0);
    Ok((ValueBE(taken.0), taken.1))
  }

  function GetBytes(rest: seq<byte>, size: nat): Got<seq<byte>>
  {
    var length :- GetNumber(rest, size, U32_LEN);
    if length.0 > MAX_CHUNK_BYTES then Err(CodecError.TooLarge(length.0)) else GetSlice(length.1, size, length.0)
  }

  function GetString(rest: seq<byte>, size: nat, decode: Utf8Decoder): Got<Str>
  {
    var bytes :- GetBytes(rest, size);
    match decode(bytes.0)
    case None => Err(NotUtf8)
    case Some(text) => Ok((Str(text, |bytes.0|), bytes.1))
  }

  function GetPair(rest: seq<byte>, size: nat, decode: Utf8Decoder): Got<(Str, Str)>
  {
    var name :- GetString(rest, size, decode);
    var value :- GetString(name.1, size, decode);
    Ok(((name.0, value.0), value.1))
  }

  // One header off the front.
  type PairReader = seq<byte> -> Got<(Str, Str)>

  function PairsBy(size: nat, decode: Utf8Decoder): PairReader
  {
    (rest: seq<byte>) => GetPair(rest, size, decode)
  }

  // The limit counts the text alone and is checked after every header.
  function GetPairs(one: PairReader, rest: seq<byte>, count: nat, read: seq<Header>, total: nat): Got<seq<Header>>
    decreases count
  {
    if count == 0 then Ok((read, rest))
    else
      var pair :- one(rest);
      var sum := total + pair.0.0.len + pair.0.1.len;
      if sum > MAX_HEADER_BYTES then Err(CodecError.HeadersTooLarge(sum))
      else GetPairs(one, pair.1, count - 1, read + [(pair.0.0.text, pair.0.1.text)], sum)
  }

  function GetHeaders(rest: seq<byte>, size: nat, decode: Utf8Decoder): Got<seq<Header>>
  {
    var count :- GetNumber(rest, size, U16_LEN);
    GetPairs(PairsBy(size, decode), count.1, count.0, [], 0)
  }

  function GetRequest(rest: seq<byte>, size: nat, decode: Utf8Decoder): Result<ProxyMessage, CodecError>
  {
    var id :- GetU64(rest, size);
    var verb :- GetString(id.1, size, decode);
    var target :- GetString(verb.1, size, decode);
    var headers :- GetHeaders(target.1, size, decode);
    var body :- GetBytes(headers.1, size);
    Ok(RequestStart(id.0, verb.0.text, target.0.text, headers.0, body.0))
  }

  function GetWsOpen(rest: seq<byte>, size: nat, decode: Utf8Decoder): Result<ProxyMessage, CodecError>
  {
    var id :- GetU64(rest, size);
    var target :- GetString(id.1, size, decode);
    var headers :- GetHeaders(target.1, size, decode);
    Ok(WsOpen(id.0, target.0.text, headers.0))
  }

  function GetHead(rest: seq<byte>, size: nat, decode: Utf8Decoder): Result<(u64, u16, seq<Header>), CodecError>
  {
    var id :- GetU64(rest, size);
    var status :- GetU16(id.1, size);
    var headers :- GetHeaders(status.1, size, decode);
    Ok((id.0, status.0, headers.0))
  }

  function GetFrame(rest: seq<byte>, size: nat, decode: Utf8Decoder): Result<OutFrame, CodecError>
  {
    var kind :- GetNumber(rest, size, 1);
    if kind.0 == 1 then
      var text :- GetString(kind.1, size, decode);
      Ok(OutFrame.Text(text.0.text))
    else if kind.0 == 2 then
      var bytes :- GetBytes(kind.1, size);
      Ok(OutFrame.Binary(bytes.0))
    else if kind.0 == 3 then Ok(OutFrame.Close)
    else Err(UnknownFrameKind(kind.0))
  }

  function GetWsData(rest: seq<byte>, size: nat, decode: Utf8Decoder): Result<ProxyMessage, CodecError>
  {
    var id :- GetU64(rest, size);
    var frame :- GetFrame(id.1, size, decode);
    Ok(Both(SocketData(id.0, frame)))
  }

  function GetRefusal(rest: seq<byte>, size: nat, decode: Utf8Decoder): Result<ProxyMessage, CodecError>
  {
    var id :- GetU64(rest, size);
    var reason :- GetString(id.1, size, decode);
    Ok(Both(Refusal(id.0, reason.0.text)))
  }

  // The message a tag announces. What follows it is not looked at.
  function GetMessage(tag: nat, rest: seq<byte>, size: nat, decode: Utf8Decoder): Result<ProxyMessage, CodecError>
  {
    if tag == TAG_REQUEST_START then GetRequest(rest, size, decode)
    else if tag == TAG_REQUEST_BODY then
      var chunk :- GetBytes(rest, size);
      Ok(RequestBody(chunk.0))
    else if tag == TAG_REQUEST_END then Ok(RequestEnd)
    else if tag == TAG_RESPONSE_START then
      var head :- GetHead(rest, size, decode);
      Ok(Both(ResponseHead(head.0, head.1, head.2)))
    else if tag == TAG_RESPONSE_BODY then
      var chunk :- GetBytes(rest, size);
      Ok(Both(Chunk(chunk.0)))
    else if tag == TAG_RESPONSE_END then Ok(Both(End))
    else if tag == TAG_FAILURE then GetRefusal(rest, size, decode)
    else if tag == TAG_WS_OPEN then GetWsOpen(rest, size, decode)
    else if tag == TAG_WS_OPENED then
      var head :- GetHead(rest, size, decode);
      Ok(Both(Upgraded(head.0, head.1, head.2)))
    else if tag == TAG_WS_DATA then GetWsData(rest, size, decode)
    else if tag == TAG_WS_CLOSE then Ok(Both(SocketEnd))
    else Err(UnknownType(tag))
  }

  function DecodedBy(b: seq<byte>, decode: Utf8Decoder): Result<ProxyMessage, CodecError>
  {
    var magic :- GetSlice(b, |b|, 2);
    if magic.0 != [0x50, 0x58] then Err(BadMagic)
    else
      var version :- GetNumber(magic.1, |b|, 1);
      if version.0 != VERSION then Err(Version(version.0))
      else
        var tag :- GetNumber(version.1, |b|, 1);
        GetMessage(tag.0, tag.1, |b|, decode)
  }

  function Decoded(b: seq<byte>): Result<ProxyMessage, CodecError>
  {
    DecodedBy(b, Decode)
  }

  // What a read gives, and what it leaves.
  function Value<T>(r: Got<T>): Result<T, CodecError>
  {
    if r.Err? then Err(r.error) else Ok(r.value.0)
  }

  // ---------------------------------------------------------------- the cursor

  class Cursor {
    const bytes: seq<byte>
    const decode: Utf8Decoder
    var at: nat

    predicate Valid()
      reads this
    {
      at <= |bytes|
    }

    ghost function Rest(): seq<byte>
      reads this
      requires Valid()
    {
      bytes[at..]
    }

    constructor (bytes: seq<byte>, decode: Utf8Decoder)
      ensures Valid() && this.bytes == bytes && this.decode == decode && Rest() == bytes
    {
      this.bytes, this.decode, at := bytes, decode, 0;
    }

    method Take(count: nat) returns (r: Result<seq<byte>, CodecError>)
      requires Valid()
      modifies this
      ensures Valid() && r == Value(GetSlice(old(Rest()), |bytes|, count))
      ensures r.Ok? ==> Rest() == GetSlice(old(Rest()), |bytes|, count).value.1
    {
      var end := at + count;
      if end > |bytes| {
        return Err(Truncated(end, |bytes|));
      }
      var slice := bytes[at..end];
      assert Rest()[..count] == slice && Rest()[count..] == bytes[end..];
      at := end;
      return Ok(slice);
    }

    method ReadNumber(width: nat) returns (r: Result<nat, CodecError>)
      requires Valid()
      modifies this
      ensures Valid() && r == Value(GetNumber(old(Rest()), |bytes|, width))
      ensures r.Ok? ==> Rest() == GetNumber(old(Rest()), |bytes|, width).value.1
    {
      var taken :- Take(width);
      return Ok(ValueBE(taken));
    }

    method ReadU16() returns (r: Result<u16, CodecError>)
      requires Valid()
      modifies this
      ensures Valid() && r == Value(GetU16(old(Rest()), |bytes|))
      ensures r.Ok? ==> Rest() == GetU16(old(Rest()), |bytes|).value.1
    {
      var taken :- Take(U16_LEN);
      FieldRanges();
      ValueBoundBE(taken);
      return Ok(ValueBE(taken));
    }

    method ReadU64() returns (r: Result<u64, CodecError>)
      requires Valid()
      modifies this
      ensures Valid() && r == Value(GetU64(old(Rest()), |bytes|))
      ensures r.Ok? ==> Rest() == GetU64(old(Rest()), |bytes|).value.1
    {
      var taken :- Take(U64_LEN);
      FieldRanges();
      ValueBoundBE(taken);
      return Ok(ValueBE(taken));
    }

    method ReadBytes() returns (r: Result<seq<byte>, CodecError>)
      requires Valid()
      modifies this
      ensures Valid() && r == Value(GetBytes(old(Rest()), |bytes|))
      ensures r.Ok? ==> Rest() == GetBytes(old(Rest()), |bytes|).value.1
    {
      var length :- ReadNumber(U32_LEN);
      if length > MAX_CHUNK_BYTES {
        return Err(CodecError.TooLarge(length));
      }
      r := Take(length);
    }

    method ReadString() returns (r: Result<Str, CodecError>)
      requires Valid()
      modifies this
      ensures Valid() && r == Value(GetString(old(Rest()), |bytes|, decode))
      ensures r.Ok? ==> Rest() == GetString(old(Rest()), |bytes|, decode).value.1
    {
      var taken :- ReadBytes();
      var text := decode(taken);
      if text.None? {
        return Err(NotUtf8);
      }
      return Ok(Str(text.value, |taken|));
    }

    method ReadPair() returns (r: Result<(Str, Str), CodecError>)
      requires Valid()
      modifies this
      ensures Valid() && r == Value(GetPair(old(Rest()), |bytes|, decode))
      ensures r.Ok? ==> Rest() == GetPair(old(Rest()), |bytes|, decode).value.1
    {
      var name :- ReadString();
      var value :- ReadString();
      return Ok((name, value));
    }

    method ReadHeaders() returns (r: Result<seq<Header>, CodecError>)
      requires Valid()
      modifies this
      ensures Valid() && r == Value(GetHeaders(old(Rest()), |bytes|, decode))
      ensures r.Ok? ==> Rest() == GetHeaders(old(Rest()), |bytes|, decode).value.1
    {
      var count :- ReadNumber(U16_LEN);
      r := ReadPairs(count, PairsBy(|bytes|, decode));
    }

    // One of the headers still to be read.
    method ReadInto(read: seq<Header>, total: nat, ghost left: nat, ghost one: PairReader, ghost expected: Got<seq<Header>>)
      returns (r: Result<(), CodecError>, headers: seq<Header>, sum: nat)
      requires Valid() && left > 0 && GetPairs(one, Rest(), left, read, total) == expected && ReadsPairs(one, |bytes|, decode)
      modifies this
      ensures Valid() && (r.Err? ==> expected == Err(r.error))
      ensures r.Ok? ==> GetPairs(one, Rest(), left - 1, headers, sum) == expected
    {
      headers, sum := read, total;
      OnePairRead(one, Rest(), left, read, total);
      var pair :- ReadPair();
      sum := total + pair.0.len + pair.1.len;
      if sum > MAX_HEADER_BYTES {
        return Err(CodecError.HeadersTooLarge(sum)), headers, sum;
      }
      headers := read + [(pair.0.text, pair.1.text)];
      r := Ok(());
    }

    method ReadPairs(count: nat, ghost one: PairReader) returns (r: Result<seq<Header>, CodecError>)
      requires Valid() && ReadsPairs(one, |bytes|, decode)
      modifies this
      ensures Valid() && r == Value(GetPairs(one, old(Rest()), count, [], 0))
      ensures r.Ok? ==> Rest() == GetPairs(one, old(Rest()), count, [], 0).value.1
    {
      var headers: seq<Header> := [];
      var total: nat := 0;
      var index := 0;
      ghost var left: nat := count;
      ghost var expected := GetPairs(one, Rest(), left, headers, total);
      while index < count
        invariant Valid() && 0 <= index <= count && left == count - index
        invariant GetPairs(one, Rest(), left, headers, total) == expected
      {
        var r1;
        r1, headers, total := ReadInto(headers, total, left, one, expected);
        if r1.Err? {
          return Err(r1.error);
        }
        index, left := index + 1, left - 1;
      }
      return Ok(headers);
    }
  }

  // The reader of single headers that belongs to a cursor.
  ghost predicate ReadsPairs(one: PairReader, size: nat, decode: Utf8Decoder)
  {
    forall rest {:trigger GetPair(rest, size, decode)} :: one(rest) == GetPair(rest, size, decode)
  }

  // The first of the headers, and the rest of them.
  lemma OnePairRead(one: PairReader, rest: seq<byte>, count: nat, read: seq<Header>, total: nat)
    requires count > 0
    ensures one(rest).Err? ==> GetPairs(one, rest, count, read, total) == Err(one(rest).error)
    ensures one(rest).Ok? ==>
      (var pair := one(rest).value;
       var sum := total + pair.0.0.len + pair.0.1.len;
       GetPairs(one, rest, count, read, total) ==
         if sum > MAX_HEADER_BYTES then Err(CodecError.HeadersTooLarge(sum))
         else GetPairs(one, pair.1, count - 1, read + [(pair.0.0.text, pair.0.1.text)], sum))
  {}

  method DecodeProxy(bytes: seq<byte>) returns (r: Result<ProxyMessage, CodecError>)
    ensures r == Decoded(bytes)
  {
    var cursor := new Cursor(bytes, Decode);
    var magic :- cursor.Take(2);
    if magic != [0x50, 0x58] {
      return Err(BadMagic);
    }
    var version :- cursor.ReadNumber(1);
    if version != VERSION {
      return Err(Version(version));
    }
    var tag :- cursor.ReadNumber(1);
    r := DecodeTagged(cursor, tag);
  }

  method DecodeTagged(cursor: Cursor, tag: nat) returns (r: Result<ProxyMessage, CodecError>)
    requires cursor.Valid()
    modifies cursor
    ensures r == GetMessage(tag, old(cursor.Rest()), |cursor.bytes|, cursor.decode)
  {
    if tag == TAG_REQUEST_START {
      r := DecodeRequest(cursor);
    } else if tag == TAG_REQUEST_BODY {
      var chunk :- cursor.ReadBytes();
      return Ok(RequestBody(chunk));
    } else if tag == TAG_REQUEST_END {
      return Ok(RequestEnd);
    } else if tag == TAG_RESPONSE_START {
      var head :- DecodeHead(cursor);
      return Ok(Both(ResponseHead(head.0, head.1, head.2)));
    } else if tag == TAG_RESPONSE_BODY {
      var chunk :- cursor.ReadBytes();
      return Ok(Both(Chunk(chunk)));
    } else if tag == TAG_RESPONSE_END {
      return Ok(Both(End));
    } else if tag == TAG_FAILURE {
      var id :- cursor.ReadU64();
      var reason :- cursor.ReadString();
      return Ok(Both(Refusal(id, reason.text)));
    } else if tag == TAG_WS_OPEN {
      r := DecodeWsOpen(cursor);
    } else if tag == TAG_WS_OPENED {
      var head :- DecodeHead(cursor);
      return Ok(Both(Upgraded(head.0, head.1, head.2)));
    } else if tag == TAG_WS_DATA {
      r := DecodeWsData(cursor);
    } else if tag == TAG_WS_CLOSE {
      return Ok(Both(SocketEnd));
    } else {
      return Err(UnknownType(tag));
    }
  }

  method DecodeRequest(cursor: Cursor) returns (r: Result<ProxyMessage, CodecError>)
    requires cursor.Valid()
    modifies cursor
    ensures r == GetRequest(old(cursor.Rest()), |cursor.bytes|, cursor.decode)
  {
    var id :- cursor.ReadU64();
    var verb :- cursor.ReadString();
    var target :- cursor.ReadString();
    var headers :- cursor.ReadHeaders();
    var body :- cursor.ReadBytes();
    return Ok(RequestStart(id, verb.text, target.text, headers, body));
  }

  method DecodeHead(cursor: Cursor) returns (r: Result<(u64, u16, seq<Header>), CodecError>)
    requires cursor.Valid()
    modifies cursor
    ensures r == GetHead(old(cursor.Rest()), |cursor.bytes|, cursor.decode)
  {
    var id :- cursor.ReadU64();
    var status :- cursor.ReadU16();
    var headers :- cursor.ReadHeaders();
    return Ok((id, status, headers));
  }

  method DecodeWsOpen(cursor: Cursor) returns (r: Result<ProxyMessage, CodecError>)
    requires cursor.Valid()
    modifies cursor
    ensures r == GetWsOpen(old(cursor.Rest()), |cursor.bytes|, cursor.decode)
  {
    var id :- cursor.ReadU64();
    var target :- cursor.ReadString();
    var headers :- cursor.ReadHeaders();
    return Ok(WsOpen(id, target.text, headers));
  }

  method DecodeWsData(cursor: Cursor) returns (r: Result<ProxyMessage, CodecError>)
    requires cursor.Valid()
    modifies cursor
    ensures r == GetWsData(old(cursor.Rest()), |cursor.bytes|, cursor.decode)
  {
    var id :- cursor.ReadU64();
    var kind :- cursor.ReadNumber(1);
    if kind == 1 {
      var text :- cursor.ReadString();
      return Ok(Both(SocketData(id, OutFrame.Text(text.text))));
    } else if kind == 2 {
      var bytes :- cursor.ReadBytes();
      return Ok(Both(SocketData(id, OutFrame.Binary(bytes))));
    } else if kind == 3 {
      return Ok(Both(SocketData(id, OutFrame.Close)));
    }
    return Err(UnknownFrameKind(kind));
  }

  // -------------------------------------------------------- reading what is there

  lemma SliceGot(part: seq<byte>, rest: seq<byte>, size: nat)
    ensures GetSlice(part + rest, size, |part|) == Ok((part, rest))
  {
    assert (part + rest)[..|part|] == part && (part + rest)[|part|..] == rest;
  }

  lemma NumberGot(value: nat, width: nat, rest: seq<byte>, size: nat)
    requires value < Pow(256, width)
    ensures GetNumber(BytesBE(value, width) + rest, size, width) == Ok((value, rest))
  {
    SliceGot(BytesBE(value, width), rest, size);
    ReadWrittenBE(value, width);
  }

  lemma U64Got(value: u64, rest: seq<byte>, size: nat)
    ensures GetU64(BytesBE(value, U64_LEN) + rest, size) == Ok((value, rest))
  {
    FieldRanges();
    SliceGot(BytesBE(value, U64_LEN), rest, size);
    ReadWrittenBE(value, U64_LEN);
  }

  lemma U16Got(value: u16, rest: seq<byte>, size: nat)
    ensures GetU16(BytesBE(value, U16_LEN) + rest, size) == Ok((value, rest))
  {
    FieldRanges();
    SliceGot(BytesBE(value, U16_LEN), rest, size);
    ReadWrittenBE(value, U16_LEN);
  }

  lemma Associate(a: seq<byte>, b: seq<byte>, c: seq<byte>)
    ensures a + b + c == a + (b + c)
  {}

  lemma BytesGot(bytes: seq<byte>, rest: seq<byte>, size: nat)
    requires |bytes| <= MAX_CHUNK_BYTES
    ensures GetBytes(BytesFrom(bytes) + rest, size) == Ok((bytes, rest))
  {
    FieldRanges();
    Associate(BytesBE(|bytes|, U32_LEN), bytes, rest);
    NumberGot(|bytes|, U32_LEN, bytes + rest, size);
    SliceGot(bytes, rest, size);
  }

  // ------------------------------------------------------------- encoded text

  // A decoder that reads exactly what the encoder writes.
  ghost predicate Strict(decode: Utf8Decoder)
  {
    forall bytes, text :: decode(bytes) == Some(text) <==> bytes == Encode(text)
  }

  lemma DecodeIsStrict()
    ensures Strict(Decode)
  {
    forall bytes, text ensures Decode(bytes) == Some(text) <==> bytes == Encode(text) {
      DecodeEncode(text);
      if Decode(bytes) == Some(text) {
        EncodeDecode(bytes);
      }
    }
  }

  predicate ChunkFits(text: string)
  {
    |Encode(text)| <= MAX_CHUNK_BYTES
  }

  // A text with the length of its bytes.
  function Held(text: string): Str
  {
    Str(text, |Encode(text)|)
  }

  lemma StringOfBytes(bytes: seq<byte>, rest: seq<byte>, size: nat, decode: Utf8Decoder, text: string)
    requires |bytes| <= MAX_CHUNK_BYTES && decode(bytes) == Some(text)
    ensures GetString(BytesFrom(bytes) + rest, size, decode) == Ok((Str(text, |bytes|), rest))
  {
    BytesGot(bytes, rest, size);
  }

  lemma StringGot(text: string, rest: seq<byte>, size: nat, decode: Utf8Decoder)
    requires Strict(decode) && ChunkFits(text)
    ensures GetString(TextBytes(text) + rest, size, decode) == Ok((Held(text), rest))
  {
    StringOfBytes(Encode(text), rest, size, decode, text);
  }

  lemma PairGot(header: Header, rest: seq<byte>, size: nat, decode: Utf8Decoder)
    requires Strict(decode) && ChunkFits(header.0) && ChunkFits(header.1)
    ensures GetPair(TextBytes(header.0) + (TextBytes(header.1) + rest), size, decode) == Ok(((Held(header.0), Held(header.1)), rest))
  {
    StringGot(header.0, TextBytes(header.1) + rest, size, decode);
    StringGot(header.1, rest, size, decode);
  }

  function PairSize(header: Header): nat
  {
    |Encode(header.0)| + |Encode(header.1)|
  }

  // The text of the headers, in bytes.
  function HeaderSum(headers: seq<Header>): nat
  {
    if headers == [] then 0 else PairSize(headers[0]) + HeaderSum(headers[1..])
  }

  predicate PairsFit(headers: seq<Header>)
  {
    forall i :: 0 <= i < |headers| ==> ChunkFits(headers[i].0) && ChunkFits(headers[i].1)
  }

  predicate HeadersFit(headers: seq<Header>)
  {
    |headers| < U16 && PairsFit(headers) && HeaderSum(headers) <= MAX_HEADER_BYTES
  }

  lemma SamePair(header: Header)
    ensures (header.0, header.1) == header
  {}

  lemma FirstPairGot(one: PairReader, header: Header, rest: seq<byte>, count: nat, read: seq<Header>, total: nat,
                     size: nat, decode: Utf8Decoder)
    requires ReadsPairs(one, size, decode) && Strict(decode) && ChunkFits(header.0) && ChunkFits(header.1)
    requires total + PairSize(header) <= MAX_HEADER_BYTES
    ensures GetPairs(one, TextBytes(header.0) + (TextBytes(header.1) + rest), count + 1, read, total)
         == GetPairs(one, rest, count, read + [header], total + PairSize(header))
  {
    PairGot(header, rest, size, decode);
    OnePairRead(one, TextBytes(header.0) + (TextBytes(header.1) + rest), count + 1, read, total);
    SamePair(header);
  }

  lemma HeadersInFront(headers: seq<Header>, rest: seq<byte>)
    requires headers != []
    ensures HeaderBytes(headers) + rest
         == TextBytes(headers[0].0) + (TextBytes(headers[0].1) + (HeaderBytes(headers[1..]) + rest))
  {
    Associate(TextBytes(headers[0].0) + TextBytes(headers[0].1), HeaderBytes(headers[1..]), rest);
    Associate(TextBytes(headers[0].0), TextBytes(headers[0].1), HeaderBytes(headers[1..]) + rest);
  }

  lemma AppendFirst<T>(s: seq<T>, x: T, t: seq<T>)
    ensures s + [x] + t == s + ([x] + t)
  {}

  lemma {:induction false} PairsGot(one: PairReader, headers: seq<Header>, rest: seq<byte>, read: seq<Header>, total: nat,
                                    size: nat, decode: Utf8Decoder)
    requires ReadsPairs(one, size, decode) && Strict(decode) && PairsFit(headers)
    requires total + HeaderSum(headers) <= MAX_HEADER_BYTES
    ensures GetPairs(one, HeaderBytes(headers) + rest, |headers|, read, total) == Ok((read + headers, rest))
    decreases |headers|
  {
    if headers == [] {
      assert HeaderBytes(headers) + rest == rest && read + headers == read;
    } else {
      HeadersInFront(headers, rest);
      FirstPairGot(one, headers[0], HeaderBytes(headers[1..]) + rest, |headers| - 1, read, total, size, decode);
      PairsGot(one, headers[1..], rest, read + [headers[0]], total + PairSize(headers[0]), size, decode);
      AppendFirst(read, headers[0], headers[1..]);
      assert [headers[0]] + headers[1..] == headers;
    }
  }

  lemma PairsByReads(size: nat, decode: Utf8Decoder)
    ensures ReadsPairs(PairsBy(size, decode), size, decode)
  {}

  lemma HeadersGot(headers: seq<Header>, rest: seq<byte>, size: nat, decode: Utf8Decoder)
    requires Strict(decode) && HeadersFit(headers)
    ensures GetHeaders(BytesBE(|headers|, U16_LEN) + (HeaderBytes(headers) + rest), size, decode) == Ok((headers, rest))
  {
    FieldRanges();
    NumberGot(|headers|, U16_LEN, HeaderBytes(headers) + rest, size);
    PairsByReads(size, decode);
    PairsGot(PairsBy(size, decode), headers, rest, [], 0, size, decode);
    assert [] + headers == headers;
  }

  // The four bytes every message starts with.
  lemma TagRead(tag: byte, rest: seq<byte>, decode: Utf8Decoder)
    ensures DecodedBy(Prefix(tag) + rest, decode) == GetMessage(tag, rest, |Prefix(tag) + rest|, decode)
  {
    var size := |Prefix(tag) + rest|;
    assert Prefix(tag) + rest == [0x50, 0x58] + ([VERSION] + ([tag] + rest));
    SliceGot([0x50, 0x58], [VERSION] + ([tag] + rest), size);
    ByteGot(VERSION, [tag] + rest, size);
    ByteGot(tag, rest, size);
  }

  lemma ByteGot(x: byte, rest: seq<byte>, size: nat)
    ensures GetNumber([x] + rest, size, 1) == Ok((x as nat, rest))
  {
    SliceGot([x], rest, size);
    OneByte(x);
  }

  lemma OneByte(x: byte)
    ensures ValueBE([x]) == x
  {
    assert [x][..|[x]| - 1] == [];
    assert ValueBE([x]) == 256 * ValueBE([]) + x;
  }

  // ------------------------------------------------------ what was read fits

  lemma StringSound(rest: seq<byte>, size: nat, decode: Utf8Decoder)
    requires Strict(decode) && GetString(rest, size, decode).Ok?
    ensures (var s := GetString(rest, size, decode).value.0; ChunkFits(s.text) && s == Held(s.text))
  {
    var bytes := GetBytes(rest, size).value.0;
    assert Encode(decode(bytes).value) == bytes;
  }

  lemma PairSound(rest: seq<byte>, size: nat, decode: Utf8Decoder)
    requires Strict(decode) && GetPair(rest, size, decode).Ok?
    ensures (var pair := GetPair(rest, size, decode).value.0;
             ChunkFits(pair.0.text) && pair.0 == Held(pair.0.text) && ChunkFits(pair.1.text) && pair.1 == Held(pair.1.text))
  {
    StringSound(rest, size, decode);
    StringSound(GetString(rest, size, decode).value.1, size, decode);
  }

  lemma FirstPairSound(one: PairReader, rest: seq<byte>, count: nat, read: seq<Header>, total: nat, size: nat, decode: Utf8Decoder)
    returns (header: Header, others: seq<byte>)
    requires ReadsPairs(one, size, decode) && Strict(decode) && count > 0 && GetPairs(one, rest, count, read, total).Ok?
    ensures ChunkFits(header.0) && ChunkFits(header.1) && total + PairSize(header) <= MAX_HEADER_BYTES
    ensures GetPairs(one, rest, count, read, total) == GetPairs(one, others, count - 1, read + [header], total + PairSize(header))
  {
    OnePairRead(one, rest, count, read, total);
    var pair := one(rest).value;
    assert GetPair(rest, size, decode) == Ok(pair);
    PairSound(rest, size, decode);
    header, others := (pair.0.0.text, pair.0.1.text), pair.1;
  }

  lemma {:induction false} PairsSound(one: PairReader, rest: seq<byte>, count: nat, read: seq<Header>, total: nat,
                                      size: nat, decode: Utf8Decoder) returns (more: seq<Header>)
    requires ReadsPairs(one, size, decode) && Strict(decode)
    requires GetPairs(one, rest, count, read, total).Ok? && total <= MAX_HEADER_BYTES
    ensures GetPairs(one, rest, count, read, total).value.0 == read + more
    ensures |more| == count && PairsFit(more) && total + HeaderSum(more) <= MAX_HEADER_BYTES
    decreases count
  {
    more := [];
    if count == 0 {
      assert read + more == read;
    } else {
      var header, others := FirstPairSound(one, rest, count, read, total, size, decode);
      var tail := PairsSound(one, others, count - 1, read + [header], total + PairSize(header), size, decode);
      more := [header] + tail;
      AppendFirst(read, header, tail);
      assert more[1..] == tail;
    }
  }

  lemma HeadersSound(rest: seq<byte>, size: nat, decode: Utf8Decoder)
    requires Strict(decode) && GetHeaders(rest, size, decode).Ok?
    ensures HeadersFit(GetHeaders(rest, size, decode).value.0)
    ensures |GetHeaders(rest, size, decode).value.0| == GetNumber(rest, size, U16_LEN).value.0
  {
    var count := GetNumber(rest, size, U16_LEN).value;
    FieldRanges();
    ValueBoundBE(rest[..U16_LEN]);
    PairsByReads(size, decode);
    var more := PairsSound(PairsBy(size, decode), count.1, count.0, [], 0, size, decode);
    assert [] + more == more;
  }

  // ------------------------------------------------- what the browser sends

  function RequestOf(r: Result<ProxyMessage, CodecError>): Option<Request>
  {
    match r
    case Ok(RequestStart(id, verb, target, headers, body)) => Some(Request(id, verb, target, headers, body))
    case _ => None
  }

  predicate RequestFits(r: Request)
  {
    && r.id < U64 && ChunkFits(r.verb) && ChunkFits(r.target) && HeadersFit(r.headers) && |r.body| <= MAX_CHUNK_BYTES
  }

  function RequestRest(r: Request): seq<byte>
  {
    BytesBE(r.id, U64_LEN) + (TextBytes(r.verb) + (TextBytes(r.target)
    + (BytesBE(|r.headers|, U16_LEN) + (HeaderBytes(r.headers) + BytesFrom(r.body)))))
  }

  lemma RequestGot(r: Request, size: nat, decode: Utf8Decoder)
    requires RequestFits(r) && Strict(decode)
    ensures GetRequest(RequestRest(r), size, decode) == Ok(RequestStart(r.id, r.verb, r.target, r.headers, r.body))
  {
    var b4 := BytesFrom(r.body);
    var b3 := BytesBE(|r.headers|, U16_LEN) + (HeaderBytes(r.headers) + b4);
    var b2 := TextBytes(r.target) + b3;
    U64Got(r.id, TextBytes(r.verb) + b2, size);
    StringGot(r.verb, b2, size, decode);
    StringGot(r.target, b3, size, decode);
    HeadersGot(r.headers, b4, size, decode);
    assert b4 + [] == b4;
    BytesGot(r.body, [], size);
  }

  lemma RequestSound(rest: seq<byte>, size: nat, decode: Utf8Decoder)
    requires Strict(decode) && GetRequest(rest, size, decode).Ok?
    ensures RequestOf(GetRequest(rest, size, decode)).Some? && RequestFits(RequestOf(GetRequest(rest, size, decode)).value)
  {
    var id := GetU64(rest, size).value;
    var verb := GetString(id.1, size, decode).value;
    var target := GetString(verb.1, size, decode).value;
    StringSound(id.1, size, decode);
    StringSound(verb.1, size, decode);
    HeadersSound(target.1, size, decode);
  }

  // The daemon gets a request as the browser encoded it exactly when its id is a 64-bit number, its texts
  // and its body are within the chunk limit and its headers within theirs and below 65536 in number.
  lemma RequestArrivesIff(r: Request)
    ensures RequestOf(Decoded(RequestBytes(r))) == Some(r) <==> RequestFits(r)
  {
    DecodeIsStrict();
    RequestReadIff(r, Decode);
  }

  lemma RequestReadIff(r: Request, decode: Utf8Decoder)
    requires Strict(decode)
    ensures RequestOf(DecodedBy(RequestBytes(r), decode)) == Some(r) <==> RequestFits(r)
  {
    var size := |RequestBytes(r)|;
    TagRead(TAG_REQUEST_START, RequestRest(r), decode);
    if RequestFits(r) {
      RequestGot(r, size, decode);
    }
    if GetRequest(RequestRest(r), size, decode).Ok? {
      RequestSound(RequestRest(r), size, decode);
    }
  }

  function FrameOf(r: Result<ProxyMessage, CodecError>): Option<(nat, OutFrame)>
  {
    match r
    case Ok(Both(SocketData(id, frame))) => Some((id, frame))
    case _ => None
  }

  function AsOutFrame(frame: WsFrame): OutFrame
  {
    match frame
    case Text(text) => OutFrame.Text(text)
    case Close => OutFrame.Close
  }

  // The kind and what belongs to it.
  function FrameTail(frame: WsFrame): seq<byte>
  {
    match frame
    case Text(text) => [1] + TextBytes(text)
    case Close => [3]
  }

  lemma FrameGot(frame: WsFrame, size: nat, decode: Utf8Decoder)
    requires Strict(decode) && (frame.Text? ==> ChunkFits(frame.text))
    ensures GetFrame(FrameTail(frame), size, decode) == Ok(AsOutFrame(frame))
  {
    match frame
    case Text(text) =>
      ByteGot(1, TextBytes(text), size);
      assert TextBytes(text) + [] == TextBytes(text);
      StringGot(text, [], size, decode);
    case Close =>
      assert [3] + [] == [3];
      ByteGot(3, [], size);
  }

  lemma FrameSound(rest: seq<byte>, size: nat, decode: Utf8Decoder)
    requires Strict(decode) && GetFrame(rest, size, decode).Ok? && GetFrame(rest, size, decode).value.Text?
    ensures ChunkFits(GetFrame(rest, size, decode).value.text)
  {
    StringSound(GetNumber(rest, size, 1).value.1, size, decode);
  }

  // And a WebSocket message exactly when its id fits and its text is within the chunk limit.
  lemma WsDataArrivesIff(id: nat, frame: WsFrame)
    ensures FrameOf(Decoded(WsDataBytes(id, frame))) == Some((id, AsOutFrame(frame)))
       <==> id < U64 && (frame.Text? ==> ChunkFits(frame.text))
  {
    DecodeIsStrict();
    WsDataReadIff(id, frame, Decode);
  }

  lemma WsDataReadIff(id: nat, frame: WsFrame, decode: Utf8Decoder)
    requires Strict(decode)
    ensures FrameOf(DecodedBy(WsDataBytes(id, frame), decode)) == Some((id, AsOutFrame(frame)))
       <==> id < U64 && (frame.Text? ==> ChunkFits(frame.text))
  {
    var size := |WsDataBytes(id, frame)|;
    TagRead(TAG_WS_DATA, BytesBE(id, U64_LEN) + FrameTail(frame), decode);
    if id < U64 {
      U64Got(id, FrameTail(frame), size);
      FrameReadIff(frame, size, decode);
    }
  }

  lemma FrameReadIff(frame: WsFrame, size: nat, decode: Utf8Decoder)
    requires Strict(decode)
    ensures GetFrame(FrameTail(frame), size, decode) == Ok(AsOutFrame(frame)) <==> (frame.Text? ==> ChunkFits(frame.text))
  {
    if frame.Text? ==> ChunkFits(frame.text) {
      FrameGot(frame, size, decode);
    } else if GetFrame(FrameTail(frame), size, decode).Ok? && GetFrame(FrameTail(frame), size, decode).value.Text? {
      FrameSound(FrameTail(frame), size, decode);
    }
  }

  // A longer text that the length field can hold is refused.
  lemma LongTextRefused(id: u64, text: string)
    requires MAX_CHUNK_BYTES < |Encode(text)| < U32
    ensures Decoded(WsDataBytes(id, WsFrame.Text(text))) == Err(CodecError.TooLarge(|Encode(text)|))
  {
    LongTextRead(id, text, Decode);
  }

  lemma LongTextRead(id: u64, text: string, decode: Utf8Decoder)
    requires MAX_CHUNK_BYTES < |Encode(text)| < U32
    ensures DecodedBy(WsDataBytes(id, WsFrame.Text(text)), decode) == Err(CodecError.TooLarge(|Encode(text)|))
  {
    var size := |WsDataBytes(id, WsFrame.Text(text))|;
    TagRead(TAG_WS_DATA, BytesBE(id, U64_LEN) + ([1] + TextBytes(text)), decode);
    U64Got(id, [1] + TextBytes(text), size);
    ByteGot(1, TextBytes(text), size);
    FieldRanges();
    NumberGot(|Encode(text)|, U32_LEN, Encode(text), size);
  }

  // --------------------------------------------------------------- upgrades

  function UpgradeOf(r: Result<ProxyMessage, CodecError>): Option<(nat, string, seq<Header>)>
  {
    match r
    case Ok(WsOpen(id, target, headers)) => Some((id, target, headers))
    case _ => None
  }

  // The first two bytes of a four-byte count.
  lemma UpperHalf(n: nat)
    ensures BytesBE(n, U32_LEN) == BytesBE(n / U16, U16_LEN) + BytesBE(n, U32_LEN)[2..]
  {
    assert BytesBE(n, 4) == BytesBE(n / 256 / 256, 2) + [n / 256 % 256] + [n % 256];
    assert n / 256 / 256 == n / U16;
  }

  lemma {:induction false} ValueAtMost(v: nat, width: nat)
    ensures ValueBE(BytesBE(v, width)) <= v
  {
    if width > 0 {
      ValueAtMost(v / 256, width - 1);
      assert BytesBE(v, width)[..width - 1] == BytesBE(v / 256, width - 1);
    }
  }

  // What follows the target of an upgrade.
  function UpgradeCount(headers: seq<Header>): seq<byte>
  {
    BytesBE(|headers|, U32_LEN) + HeaderBytes(headers)
  }

  // Where the daemon looks for the number of headers it finds the upper half of it.
  lemma CountGot(headers: seq<Header>, size: nat)
    ensures (var count := GetNumber(UpgradeCount(headers), size, U16_LEN); count.Ok? && count.value.0 <= |headers| / U16)
  {
    var n := |headers|;
    var low := BytesBE(n, U32_LEN)[2..];
    UpperHalf(n);
    Associate(BytesBE(n / U16, U16_LEN), low, HeaderBytes(headers));
    SliceGot(BytesBE(n / U16, U16_LEN), low + HeaderBytes(headers), size);
    ValueAtMost(n / U16, U16_LEN);
  }

  lemma TargetGot(id: u64, target: string, rest: seq<byte>, size: nat, decode: Utf8Decoder)
    requires Strict(decode) && ChunkFits(target)
    ensures (var headers := GetHeaders(rest, size, decode);
             GetWsOpen(BytesBE(id, U64_LEN) + (TextBytes(target) + rest), size, decode)
               == if headers.Err? then Err(headers.error) else Ok(WsOpen(id, target, headers.value.0)))
  {
    U64Got(id, TextBytes(target) + rest, size);
    StringGot(target, rest, size, decode);
  }

  lemma UpgradeSound(rest: seq<byte>, size: nat, decode: Utf8Decoder)
    requires Strict(decode) && GetWsOpen(rest, size, decode).Ok?
    ensures (var m := GetWsOpen(rest, size, decode).value; m.WsOpen? && ChunkFits(m.target))
  {
    StringSound(GetU64(rest, size).value.1, size, decode);
  }

  lemma UpgradeIsTagged(id: nat, target: string, headers: seq<Header>, decode: Utf8Decoder)
    ensures DecodedBy(WsOpenBytes(id, target, headers), decode)
         == GetWsOpen(BytesBE(id, U64_LEN) + (TextBytes(target) + UpgradeCount(headers)), |WsOpenBytes(id, target, headers)|, decode)
  {
    UpgradeTagged(WsOpenBytes(id, target, headers), BytesBE(id, U64_LEN) + (TextBytes(target) + UpgradeCount(headers)), decode);
  }

  lemma UpgradeTagged(b: seq<byte>, rest: seq<byte>, decode: Utf8Decoder)
    requires b == Prefix(TAG_WS_OPEN) + rest
    ensures DecodedBy(b, decode) == GetWsOpen(rest, |b|, decode)
  {
    TagRead(TAG_WS_OPEN, rest, decode);
  }

  lemma NoHeadersGot(headers: seq<Header>, size: nat, decode: Utf8Decoder)
    requires |headers| < U16
    ensures GetHeaders(UpgradeCount(headers), size, decode).Ok? && GetHeaders(UpgradeCount(headers), size, decode).value.0 == []
  {
    CountGot(headers, size);
  }

  // The browser writes the number of headers in four bytes and the daemon reads two: below 65536 headers
  // it reads zero, and every header is lost.
  lemma UpgradeLosesHeaders(id: u64, target: string, headers: seq<Header>)
    requires ChunkFits(target) && |headers| < U16
    ensures Decoded(WsOpenBytes(id, target, headers)) == Ok(WsOpen(id, target, []))
  {
    DecodeIsStrict();
    UpgradeRead(id, target, headers, Decode);
  }

  lemma UpgradeRead(id: u64, target: string, headers: seq<Header>, decode: Utf8Decoder)
    requires Strict(decode) && ChunkFits(target) && |headers| < U16
    ensures DecodedBy(WsOpenBytes(id, target, headers), decode) == Ok(WsOpen(id, target, []))
  {
    var size := |WsOpenBytes(id, target, headers)|;
    UpgradeIsTagged(id, target, headers, decode);
    TargetGot(id, target, UpgradeCount(headers), size, decode);
    NoHeadersGot(headers, size, decode);
  }

  // So an upgrade arrives as it was meant exactly when it has no headers and its target fits.
  lemma UpgradeArrivesIff(id: nat, target: string, headers: seq<Header>)
    ensures UpgradeOf(Decoded(WsOpenBytes(id, target, headers))) == Some((id, target, headers))
       <==> id < U64 && ChunkFits(target) && headers == []
  {
    DecodeIsStrict();
    UpgradeReadIff(id, target, headers, Decode);
  }

  lemma UpgradeReadIff(id: nat, target: string, headers: seq<Header>, decode: Utf8Decoder)
    requires Strict(decode)
    ensures UpgradeOf(DecodedBy(WsOpenBytes(id, target, headers), decode)) == Some((id, target, headers))
       <==> id < U64 && ChunkFits(target) && headers == []
  {
    var size := |WsOpenBytes(id, target, headers)|;
    UpgradeIsTagged(id, target, headers, decode);
    if GetWsOpen(BytesBE(id, U64_LEN) + (TextBytes(target) + UpgradeCount(headers)), size, decode).Ok? {
      UpgradeSound(BytesBE(id, U64_LEN) + (TextBytes(target) + UpgradeCount(headers)), size, decode);
    }
    if id < U64 && ChunkFits(target) {
      TargetGot(id, target, UpgradeCount(headers), size, decode);
      CountGot(headers, size);
      if headers == [] {
        UpgradeRead(id, target, headers, decode);
      } else if GetHeaders(UpgradeCount(headers), size, decode).Ok? {
        HeadersSound(UpgradeCount(headers), size, decode);
      }
    }
  }

  // The smallest example: one header is lost.
  lemma OneHeaderIsLost()
    ensures Decoded(WsOpenBytes(1, "/", [("a", "b")])) == Ok(WsOpen(1, "/", []))
  {
    assert |Encode("/")| == 1 by { assert Encode("/"[1..]) == []; }
    UpgradeLosesHeaders(1, "/", [("a", "b")]);
  }

  // ------------------------------------------------- what the daemon sends

  lemma {:induction false} SumWithinTotal(headers: seq<Header>)
    ensures HeaderTotal(headers) == HeaderSum(headers) + 8 * |headers|
  {
    if headers != [] {
      SumWithinTotal(headers[1..]);
    }
  }

  function HeadRest(id: u64, status: u16, headers: seq<Header>): seq<byte>
  {
    BytesBE(id, U64_LEN) + (BytesBE(status, U16_LEN) + (BytesBE(|headers|, U16_LEN) + HeaderBytes(headers)))
  }

  lemma HeadGot(id: u64, status: u16, headers: seq<Header>, size: nat, decode: Utf8Decoder)
    requires Strict(decode) && HeadersFit(headers)
    ensures GetHead(HeadRest(id, status, headers), size, decode) == Ok((id, status, headers))
  {
    var count := BytesBE(|headers|, U16_LEN) + HeaderBytes(headers);
    U64Got(id, BytesBE(status, U16_LEN) + count, size);
    U16Got(status, count, size);
    assert HeaderBytes(headers) + [] == HeaderBytes(headers);
    HeadersGot(headers, [], size, decode);
  }

  lemma HeadReadsBack(tag: byte, id: u64, status: u16, headers: seq<Header>, decode: Utf8Decoder)
    requires PutHead(tag, id, status, headers).Ok? && Strict(decode) && (tag == TAG_RESPONSE_START || tag == TAG_WS_OPENED)
    ensures DecodedBy(PutHead(tag, id, status, headers).value, decode)
         == Ok(Both(if tag == TAG_RESPONSE_START then ResponseHead(id, status, headers) else Upgraded(id, status, headers)))
  {
    var b := PutHead(tag, id, status, headers).value;
    HeadIsBytes(tag, id, status, headers);
    HeadGot(id, status, headers, |b|, decode);
    HeadTagged(b, tag, HeadRest(id, status, headers), (id, status, headers), decode);
  }

  lemma HeadTagged(b: seq<byte>, tag: byte, rest: seq<byte>, head: (u64, u16, seq<Header>), decode: Utf8Decoder)
    requires b == Prefix(tag) + rest && (tag == TAG_RESPONSE_START || tag == TAG_WS_OPENED)
    requires GetHead(rest, |b|, decode) == Ok(head)
    ensures DecodedBy(b, decode)
         == Ok(Both(if tag == TAG_RESPONSE_START then ResponseHead(head.0, head.1, head.2) else Upgraded(head.0, head.1, head.2)))
  {
    TagRead(tag, rest, decode);
  }

  lemma HeadIsBytes(tag: byte, id: u64, status: u16, headers: seq<Header>)
    requires PutHead(tag, id, status, headers).Ok?
    ensures PutHead(tag, id, status, headers).value == Prefix(tag) + HeadRest(id, status, headers) && HeadersFit(headers)
  {
    PairsAreBytes(headers);
    SumWithinTotal(headers);
    Grouped(Prefix(tag), BytesBE(id, U64_LEN), BytesBE(status, U16_LEN), BytesBE(|headers|, U16_LEN) + HeaderBytes(headers));
  }

  lemma Grouped(p: seq<byte>, i: seq<byte>, s: seq<byte>, h: seq<byte>)
    ensures p + i + s + h == p + (i + (s + h))
  {}

  lemma ChunkReadsBack(bytes: seq<byte>, decode: Utf8Decoder)
    requires |bytes| <= MAX_CHUNK_BYTES
    ensures DecodedBy(Prefix(TAG_RESPONSE_BODY) + BytesFrom(bytes), decode) == Ok(Both(Chunk(bytes)))
  {
    TagRead(TAG_RESPONSE_BODY, BytesFrom(bytes), decode);
    assert BytesFrom(bytes) + [] == BytesFrom(bytes);
    BytesGot(bytes, [], |Prefix(TAG_RESPONSE_BODY) + BytesFrom(bytes)|);
  }

  lemma RefusalReadsBack(id: u64, reason: string, decode: Utf8Decoder)
    requires ChunkFits(reason) && Strict(decode)
    ensures DecodedBy(Prefix(TAG_FAILURE) + BytesBE(id, U64_LEN) + TextBytes(reason), decode) == Ok(Both(Refusal(id, reason)))
  {
    var size := |Prefix(TAG_FAILURE) + BytesBE(id, U64_LEN) + TextBytes(reason)|;
    Associate(Prefix(TAG_FAILURE), BytesBE(id, U64_LEN), TextBytes(reason));
    TagRead(TAG_FAILURE, BytesBE(id, U64_LEN) + TextBytes(reason), decode);
    U64Got(id, TextBytes(reason), size);
    assert TextBytes(reason) + [] == TextBytes(reason);
    StringGot(reason, [], size, decode);
  }

  lemma FrameReadsBack(id: u64, frame: OutFrame, decode: Utf8Decoder)
    requires PutFrame(id, frame).Ok? && Strict(decode)
    ensures DecodedBy(PutFrame(id, frame).value, decode) == Ok(Both(SocketData(id, frame)))
  {
    match frame
    case Text(text) =>
      Grouped(Prefix(TAG_WS_DATA), BytesBE(id, U64_LEN), [1], TextBytes(text));
      WsDataReadIff(id, WsFrame.Text(text), decode);
    case Binary(payload) => BinaryReadsBack(id, payload, decode);
    case Close =>
      Associate(Prefix(TAG_WS_DATA), BytesBE(id, U64_LEN), [3]);
      WsDataReadIff(id, WsFrame.Close, decode);
  }

  lemma BinaryReadsBack(id: u64, payload: seq<byte>, decode: Utf8Decoder)
    requires |payload| <= MAX_CHUNK_BYTES
    ensures DecodedBy(Prefix(TAG_WS_DATA) + BytesBE(id, U64_LEN) + [2] + BytesFrom(payload), decode)
         == Ok(Both(SocketData(id, OutFrame.Binary(payload))))
  {
    var size := |Prefix(TAG_WS_DATA) + BytesBE(id, U64_LEN) + [2] + BytesFrom(payload)|;
    Grouped(Prefix(TAG_WS_DATA), BytesBE(id, U64_LEN), [2], BytesFrom(payload));
    TagRead(TAG_WS_DATA, BytesBE(id, U64_LEN) + ([2] + BytesFrom(payload)), decode);
    U64Got(id, [2] + BytesFrom(payload), size);
    ByteGot(2, BytesFrom(payload), size);
    assert BytesFrom(payload) + [] == BytesFrom(payload);
    BytesGot(payload, [], size);
  }

  lemma JustTheTag(tag: byte, decode: Utf8Decoder)
    ensures DecodedBy(Prefix(tag), decode) == GetMessage(tag, [], |Prefix(tag)|, decode)
  {
    TagRead(tag, [], decode);
    assert Prefix(tag) + [] == Prefix(tag);
  }

  // Everything the daemon can encode its own decoder reads back unchanged.
  lemma EncodedReadsBack(m: Outbound)
    requires Encoding(m).Ok?
    ensures Decoded(Encoding(m).value) == Ok(Both(m))
  {
    DecodeIsStrict();
    EncodedRead(m, Decode);
  }

  lemma EncodedRead(m: Outbound, decode: Utf8Decoder)
    requires Encoding(m).Ok? && Strict(decode)
    ensures DecodedBy(Encoding(m).value, decode) == Ok(Both(m))
  {
    match m
    case ResponseHead(id, status, headers) => HeadReadsBack(TAG_RESPONSE_START, id, status, headers, decode);
    case Chunk(bytes) => ChunkReadsBack(bytes, decode);
    case End => JustTheTag(TAG_RESPONSE_END, decode);
    case Refusal(id, reason) => RefusalReadsBack(id, reason, decode);
    case Upgraded(id, status, headers) => HeadReadsBack(TAG_WS_OPENED, id, status, headers, decode);
    case SocketData(id, frame) => FrameReadsBack(id, frame, decode);
    case SocketEnd => JustTheTag(TAG_WS_CLOSE, decode);
  }
}
