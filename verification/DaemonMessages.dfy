// What the daemon puts on a proxied stream, `encode` of crates/dr-dsh-daemon/src/proxy/message.rs, against
// what the browser's decoder makes of it. Text is Unicode text, as both ends hold it.
module DaemonMessages {
  import opened Results
  import opened LittleEndian
  import opened BigEndian
  import opened Utf8
  import CarrierCodec
  import opened ProxyCodec
  import opened ProxyReader

  const MAX_HEADER_BYTES: nat := 64 * 1024
  const MAX_CHUNK_BYTES: nat := CarrierCodec.MAX_PAYLOAD_LEN - 64
  const TAG_WS_CLOSE: byte := 11

  type u16 = x: int | 0 <= x < 0x1_0000
  type u64 = x: int | 0 <= x < 0x1_0000_0000_0000_0000

  datatype OutFrame = Text(text: string) | Binary(bytes: seq<byte>) | Close

  // The messages that travel from the daemon to the browser.
  datatype Outbound =
    | ResponseHead(id: u64, status: u16, headers: seq<Header>)
    | Chunk(bytes: seq<byte>)
    | End
    | Refusal(id: u64, reason: string)
    | Upgraded(id: u64, status: u16, headers: seq<Header>)
    | SocketData(id: u64, frame: OutFrame)
    | SocketEnd

  datatype TooBig = TooLarge(declared: nat) | HeadersTooLarge(total: nat)

  // ------------------------------------------------------------ the encoder

  function PutBytes(bytes: seq<byte>): Result<seq<byte>, TooBig>
  {
    if |bytes| > MAX_CHUNK_BYTES then Err(TooLarge(|bytes|)) else Ok(BytesFrom(bytes))
  }

  function HeaderTotal(headers: seq<Header>): nat
  {
    if headers == [] then 0
    else |Encode(headers[0].0)| + |Encode(headers[0].1)| + 8 + HeaderTotal(headers[1..])
  }

  function PutPairs(headers: seq<Header>): Result<seq<byte>, TooBig>
  {
    if headers == [] then Ok([])
    else
      var name :- PutBytes(Encode(headers[0].0));
      var value :- PutBytes(Encode(headers[0].1));
      var rest :- PutPairs(headers[1..]);
      Ok(name + value + rest)
  }

  function PutHeaders(headers: seq<Header>): Result<seq<byte>, TooBig>
  {
    if HeaderTotal(headers) > MAX_HEADER_BYTES || |headers| >= U16 then Err(HeadersTooLarge(HeaderTotal(headers)))
    else
      var pairs :- PutPairs(headers);
      Ok(BytesBE(|headers|, U16_LEN) + pairs)
  }

  function PutHead(tag: byte, id: u64, status: u16, headers: seq<Header>): Result<seq<byte>, TooBig>
  {
    var block :- PutHeaders(headers);
    Ok(Prefix(tag) + BytesBE(id, U64_LEN) + BytesBE(status, U16_LEN) + block)
  }

  function PutFrame(id: u64, frame: OutFrame): Result<seq<byte>, TooBig>
  {
    var head := Prefix(TAG_WS_DATA) + BytesBE(id, U64_LEN);
    match frame
    case Text(text) =>
      var bytes :- PutBytes(Encode(text));
      Ok(head + [1] + bytes)
    case Binary(payload) =>
      var bytes :- PutBytes(payload);
      Ok(head + [2] + bytes)
    case Close => Ok(head + [3])
  }

  function Encoding(m: Outbound): Result<seq<byte>, TooBig>
  {
    match m
    case ResponseHead(id, status, headers) => PutHead(TAG_RESPONSE_START, id, status, headers)
    case Chunk(bytes) =>
      var chunk :- PutBytes(bytes);
      Ok(Prefix(TAG_RESPONSE_BODY) + chunk)
    case End => Ok(Prefix(TAG_RESPONSE_END))
    case Refusal(id, reason) =>
      var text :- PutBytes(Encode(reason));
      Ok(Prefix(TAG_FAILURE) + BytesBE(id, U64_LEN) + text)
    case Upgraded(id, status, headers) => PutHead(TAG_WS_OPENED, id, status, headers)
    case SocketData(id, frame) => PutFrame(id, frame)
    case SocketEnd => Ok(Prefix(TAG_WS_CLOSE))
  }

  // ------------------------------------------------------------ what arrives

  predicate LeadsWithBom(s: string)
  {
    s != "" && s[0] == BOM
  }

  function Stripped(s: string): string
  {
    if LeadsWithBom(s) then s[1..] else s
  }

  function StrippedHeaders(headers: seq<Header>): (r: seq<Header>)
    ensures |r| == |headers| && forall i :: 0 <= i < |r| ==> r[i] == (Stripped(headers[i].0), Stripped(headers[i].1))
  {
    seq(|headers|, i requires 0 <= i < |headers| => (Stripped(headers[i].0), Stripped(headers[i].1)))
  }

  // Header lookup as the daemon's own `header_map` has it: names in lower case, the last value of a name.
  function HeaderMap(headers: seq<Header>): map<Text, Text>
  {
    if headers == [] then map[]
    else
      var n := |headers| - 1;
      HeaderMap(headers[..n])[Exact(Lower(headers[n].0)) := Exact(headers[n].1)]
  }

  function IdOf(m: Outbound): u64
  {
    match m
    case ResponseHead(id, _, _) => id
    case Refusal(id, _) => id
    case Upgraded(id, _, _) => id
    case SocketData(id, _) => id
    case _ => 0
  }

  function HeadersOf(m: Outbound): seq<Header>
  {
    match m
    case ResponseHead(_, _, headers) => headers
    case Upgraded(_, _, headers) => headers
    case _ => []
  }

  function TextOf(m: Outbound): string
  {
    match m
    case Refusal(_, reason) => reason
    case SocketData(_, Text(text)) => text
    case _ => ""
  }

  // What the browser makes of a message whose id, headers and text it reads like this.
  function Reading(m: Outbound, id: nat, headers: map<Text, Text>, text: Text): Result<Option<Inbound>, DecodeError>
  {
    match m
    case ResponseHead(_, status, _) => Ok(Some(ResponseStart(id, status, headers)))
    case Chunk(bytes) => Ok(Some(ResponseBody(bytes)))
    case End => Ok(Some(ResponseEnd))
    case Refusal(_, _) => Ok(Some(Failure(id, text)))
    case Upgraded(_, status, _) => Ok(Some(WsOpened(id, status, headers)))
    case SocketData(_, Text(_)) => Ok(Some(WsText(id, text)))
    case SocketData(_, Binary(_)) => Err(BinaryFrame)
    case SocketData(_, Close) => Ok(Some(WsClose(id)))
    case SocketEnd => Err(UnknownType(TAG_WS_CLOSE))
  }

  function Arrival(m: Outbound): Result<Option<Inbound>, DecodeError>
  {
    Reading(m, AsNumber(IdOf(m)), HeaderMap(StrippedHeaders(HeadersOf(m))), Exact(Stripped(TextOf(m))))
  }

  // The message the daemon meant, when the browser has such a message.
  function Meant(m: Outbound): Result<Option<Inbound>, DecodeError>
  {
    Reading(m, IdOf(m), HeaderMap(HeadersOf(m)), Exact(TextOf(m)))
  }

  // ------------------------------------------------------------- text arrives

  lemma TextRead(s: string)
    ensures AsText(Encode(s)) == Exact(Stripped(s))
  {
    TextSurvivesIff(s);
    if LeadsWithBom(s) {
      StartsWithBom(s);
      assert Encode(s)[3..] == Encode(s[1..]);
      DecodeEncode(s[1..]);
    }
  }

  lemma ChunkInside(before: seq<byte>, bytes: seq<byte>, after: seq<byte>)
    requires |bytes| < U32
    ensures ChunkAt(before + BytesFrom(bytes) + after, |before|) == Ok((bytes, |before + BytesFrom(bytes)|))
  {
    var b := before + BytesFrom(bytes) + after;
    var prefix := before + BytesBE(|bytes|, U32_LEN);
    FieldRanges();
    NumberFound(before, |bytes|, U32_LEN, bytes + after);
    assert b == prefix + (bytes + after);
    assert b[|prefix|..|prefix| + |bytes|] == bytes;
  }

  lemma TextInside(before: seq<byte>, text: string, after: seq<byte>)
    requires FitsText(text)
    ensures TextAt(before + TextBytes(text) + after, |before|, AsText) == Ok((Exact(Stripped(text)), |before + TextBytes(text)|))
  {
    ChunkInside(before, Encode(text), after);
    TextOfChunk(before + TextBytes(text) + after, |before|, (Encode(text), |before + TextBytes(text)|));
    TextRead(text);
  }

  function With(found: map<Text, Text>, header: Header): map<Text, Text>
  {
    found[Exact(Lower(Stripped(header.0))) := Exact(Stripped(header.1))]
  }

  // The decoder's map while it reads from the front.
  function Gathered(before: map<Text, Text>, headers: seq<Header>): map<Text, Text>
    decreases |headers|
  {
    if headers == [] then before
    else Gathered(With(before, headers[0]), headers[1..])
  }

  // Where the first header ends, its name and value being read.
  lemma OneHeaderRead(b: seq<byte>, at: nat, count: nat, found: map<Text, Text>, header: Header, middle: nat, end: nat)
    requires TextAt(b, at, AsText) == Ok((Exact(Stripped(header.0)), middle))
    requires TextAt(b, middle, AsText) == Ok((Exact(Stripped(header.1)), end))
    ensures HeadersAt(b, at, count + 1, found, AsText) == HeadersAt(b, end, count, With(found, header), AsText)
  {}

  lemma FirstHeaderInside(b: seq<byte>, before: seq<byte>, header: Header, rest: seq<byte>, count: nat, found: map<Text, Text>)
    requires FitsText(header.0) && FitsText(header.1)
    requires b == before + TextBytes(header.0) + TextBytes(header.1) + rest
    ensures HeadersAt(b, |before|, count + 1, found, AsText)
         == HeadersAt(b, |before + TextBytes(header.0) + TextBytes(header.1)|, count, With(found, header), AsText)
  {
    var name, value := TextBytes(header.0), TextBytes(header.1);
    AppendTwo(before + name, value, rest);
    TextInside(before, header.0, value + rest);
    TextInside(before + name, header.1, rest);
    OneHeaderRead(b, |before|, count, found, header, |before + name|, |before + name + value|);
  }

  lemma HeaderBytesSplit(before: seq<byte>, headers: seq<Header>)
    requires headers != []
    ensures before + HeaderBytes(headers)
         == before + TextBytes(headers[0].0) + TextBytes(headers[0].1) + HeaderBytes(headers[1..])
  {}

  lemma {:induction false} HeadersInside(b: seq<byte>, before: seq<byte>, headers: seq<Header>, found: map<Text, Text>)
    requires FitsHeaders(headers) && b == before + HeaderBytes(headers)
    ensures HeadersAt(b, |before|, |headers|, found, AsText) == Ok((Gathered(found, headers), |b|))
    decreases |headers|
  {
    if headers == [] {
      assert b == before;
    } else {
      var front, rest := before + TextBytes(headers[0].0) + TextBytes(headers[0].1), headers[1..];
      HeaderBytesSplit(before, headers);
      FirstHeaderInside(b, before, headers[0], HeaderBytes(rest), |rest|, found);
      HeadersInside(b, front, rest, With(found, headers[0]));
    }
  }

  lemma {:induction false} GatheredSnoc(before: map<Text, Text>, headers: seq<Header>, last: Header)
    ensures Gathered(before, headers + [last]) == With(Gathered(before, headers), last)
    decreases |headers|
  {
    if headers != [] {
      assert (headers + [last])[1..] == headers[1..] + [last];
      GatheredSnoc(With(before, headers[0]), headers[1..], last);
    }
  }

  // Reading from the front, later headers replacing earlier ones, is the daemon's lookup of what is read.
  lemma {:induction false} GatheredIsMap(headers: seq<Header>)
    ensures Gathered(map[], headers) == HeaderMap(StrippedHeaders(headers))
  {
    if headers != [] {
      var n := |headers| - 1;
      GatheredIsMap(headers[..n]);
      GatheredSnoc(map[], headers[..n], headers[n]);
      assert headers[..n] + [headers[n]] == headers;
      assert StrippedHeaders(headers)[..n] == StrippedHeaders(headers[..n]);
    }
  }

  // ---------------------------------------------------------- messages arrive

  lemma {:induction false} PairsAreBytes(headers: seq<Header>)
    ensures PutPairs(headers).Ok? <==> forall i :: 0 <= i < |headers| ==>
              |Encode(headers[i].0)| <= MAX_CHUNK_BYTES && |Encode(headers[i].1)| <= MAX_CHUNK_BYTES
    ensures PutPairs(headers).Ok? ==> PutPairs(headers).value == HeaderBytes(headers) && FitsHeaders(headers)
  {
    if headers != [] {
      PairsAreBytes(headers[1..]);
      assert forall i :: 1 <= i < |headers| ==> headers[i] == headers[1..][i - 1];
    }
  }

  lemma HeadArrives(tag: byte, id: u64, status: u16, headers: seq<Header>)
    requires PutHead(tag, id, status, headers).Ok?
    ensures (var b := PutHead(tag, id, status, headers).value;
             && |b| >= 4 && b[..4] == Prefix(tag)
             && HeadAt(b, 4) == Ok((AsNumber(id), status, HeaderMap(StrippedHeaders(headers)))))
  {
    PairsAreBytes(headers);
    var b, h := PutHead(tag, id, status, headers).value, HeaderBytes(headers);
    var before := Prefix(tag) + BytesBE(id, U64_LEN) + BytesBE(status, U16_LEN) + BytesBE(|headers|, U16_LEN);
    assert b == before + h;
    HeadNumbers(b, tag, id, status, |headers|, h);
    HeadersInside(b, before, headers, map[]);
    GatheredIsMap(headers);
    HeadOf(b, id, status, |headers|, (HeaderMap(StrippedHeaders(headers)), |b|));
  }

  // The three numbers in front of the headers.
  lemma HeadNumbers(b: seq<byte>, tag: byte, id: nat, status: nat, count: nat, h: seq<byte>)
    requires id < U64 && status < U16 && count < U16
    requires b == Prefix(tag) + BytesBE(id, U64_LEN) + BytesBE(status, U16_LEN) + BytesBE(count, U16_LEN) + h
    ensures |b| >= 16 && b[..4] == Prefix(tag) && NumberAt(b, 4, U64_LEN) == Ok((id, 12))
    ensures NumberAt(b, 12, U16_LEN) == Ok((status, 14)) && NumberAt(b, 14, U16_LEN) == Ok((count, 16))
  {
    var p, i, s, n := Prefix(tag), BytesBE(id, U64_LEN), BytesBE(status, U16_LEN), BytesBE(count, U16_LEN);
    FieldRanges();
    Regrouped(p, i, s, n, h);
    NumberFound(p, id, U64_LEN, s + n + h);
    NumberFound(p + i, status, U16_LEN, n + h);
    NumberFound(p + i + s, count, U16_LEN, h);
  }

  lemma Regrouped(p: seq<byte>, i: seq<byte>, s: seq<byte>, n: seq<byte>, h: seq<byte>)
    ensures p + i + s + n + h == p + i + (s + n + h) == p + i + s + (n + h)
    ensures |p| <= |p + i + s + n + h| && (p + i + s + n + h)[..|p|] == p
  {}

  lemma HeadOf(b: seq<byte>, id: nat, status: nat, count: nat, headers: (map<Text, Text>, nat))
    requires NumberAt(b, 4, U64_LEN) == Ok((id, 12)) && NumberAt(b, 12, U16_LEN) == Ok((status, 14))
    requires NumberAt(b, 14, U16_LEN) == Ok((count, 16)) && HeadersAt(b, 16, count, map[], AsText) == Ok(headers)
    ensures HeadAt(b, 4) == Ok((AsNumber(id), status, headers.0))
  {}

  lemma HeadDecodes(b: seq<byte>, tag: byte)
    requires |b| >= 4 && b[..4] == Prefix(tag) && HeadAt(b, 4).Ok?
    ensures (var head := HeadAt(b, 4).value;
             && (tag == TAG_RESPONSE_START ==> Decoding(b) == Ok(Some(ResponseStart(head.0, head.1, head.2))))
             && (tag == TAG_WS_OPENED ==> Decoding(b) == Ok(Some(WsOpened(head.0, head.1, head.2)))))
  {
    assert b[0] == b[..4][0] && b[1] == b[..4][1] && b[2] == b[..4][2] && b[3] == b[..4][3];
  }

  lemma ChunkArrives(bytes: seq<byte>)
    requires |bytes| <= MAX_CHUNK_BYTES
    ensures Decoding(Prefix(TAG_RESPONSE_BODY) + BytesFrom(bytes)) == Ok(Some(ResponseBody(bytes)))
  {
    ChunkFound(Prefix(TAG_RESPONSE_BODY), bytes);
  }

  lemma RefusalArrives(id: u64, reason: string)
    requires |Encode(reason)| <= MAX_CHUNK_BYTES
    ensures Decoding(Prefix(TAG_FAILURE) + BytesBE(id, U64_LEN) + TextBytes(reason))
         == Ok(Some(Failure(AsNumber(id), Exact(Stripped(reason)))))
  {
    var head := Prefix(TAG_FAILURE) + BytesBE(id, U64_LEN);
    FieldRanges();
    NumberFound(Prefix(TAG_FAILURE), id, U64_LEN, TextBytes(reason));
    TextInside(head, reason, []);
    assert head + TextBytes(reason) + [] == head + TextBytes(reason);
  }

  // The head of a WebSocket message, and the kind that follows it.
  lemma FrameHead(id: u64, kind: byte, tail: seq<byte>)
    ensures (var head := Prefix(TAG_WS_DATA) + BytesBE(id, U64_LEN);
             var b := head + [kind] + tail;
             && b[0] == 0x50 && b[1] == 0x58 && b[2] == VERSION && b[3] == TAG_WS_DATA
             && NumberAt(b, 4, U64_LEN) == Ok((id, |head|)) && |head| < |b| && b[|head|] == kind)
  {
    var head := Prefix(TAG_WS_DATA) + BytesBE(id, U64_LEN);
    WsTail(head, id, [kind] + tail);
    assert head + [kind] + tail == head + ([kind] + tail);
  }

  lemma TextFrameArrives(id: u64, text: string, b: seq<byte>)
    requires FitsText(text) && b == Prefix(TAG_WS_DATA) + BytesBE(id, U64_LEN) + [1] + TextBytes(text)
    ensures Decoding(b) == Ok(Some(WsText(AsNumber(id), Exact(Stripped(text)))))
  {
    var head := Prefix(TAG_WS_DATA) + BytesBE(id, U64_LEN);
    FrameHead(id, 1, TextBytes(text));
    TextInside(head + [1], text, []);
    assert b + [] == b;
    TextFrameAt(b, id, |head|, (Exact(Stripped(text)), |b|));
  }

  lemma FrameArrives(id: u64, frame: OutFrame)
    requires PutFrame(id, frame).Ok?
    ensures Decoding(PutFrame(id, frame).value) == Arrival(SocketData(id, frame))
  {
    var head := Prefix(TAG_WS_DATA) + BytesBE(id, U64_LEN);
    match frame
    case Text(text) => TextFrameArrives(id, text, head + [1] + TextBytes(text));
    case Binary(payload) => FrameHead(id, 2, BytesFrom(payload));
    case Close =>
      FrameHead(id, 3, []);
      assert head + [3] + [] == head + [3];
  }

  // Everything the daemon can encode arrives like this: ids beyond 2^53 rounded, a leading U+FEFF of every
  // text dropped, the headers looked up as the daemon would; a binary frame and the closing message
  // are refused.
  lemma MessageArrives(m: Outbound)
    requires Encoding(m).Ok?
    ensures (var read := Decoding(Encoding(m).value);
             match m
             case ResponseHead(id, status, headers) =>
               read == Ok(Some(ResponseStart(AsNumber(id), status, HeaderMap(StrippedHeaders(headers)))))
             case Chunk(bytes) => read == Ok(Some(ResponseBody(bytes)))
             case End => read == Ok(Some(ResponseEnd))
             case Refusal(id, reason) => read == Ok(Some(Failure(AsNumber(id), Exact(Stripped(reason)))))
             case Upgraded(id, status, headers) =>
               read == Ok(Some(WsOpened(AsNumber(id), status, HeaderMap(StrippedHeaders(headers)))))
             case SocketData(id, Text(text)) => read == Ok(Some(WsText(AsNumber(id), Exact(Stripped(text)))))
             case SocketData(id, Binary(_)) => read == Err(BinaryFrame)
             case SocketData(id, Close) => read == Ok(Some(WsClose(AsNumber(id))))
             case SocketEnd => read == Err(UnknownType(TAG_WS_CLOSE)))
    ensures Decoding(Encoding(m).value) == Arrival(m)
  {
    match m
    case ResponseHead(id, status, headers) =>
      HeadArrives(TAG_RESPONSE_START, id, status, headers);
      HeadDecodes(Encoding(m).value, TAG_RESPONSE_START);
    case Chunk(bytes) => ChunkArrives(bytes);
    case End =>
    case Refusal(id, reason) => RefusalArrives(id, reason);
    case Upgraded(id, status, headers) =>
      HeadArrives(TAG_WS_OPENED, id, status, headers);
      HeadDecodes(Encoding(m).value, TAG_WS_OPENED);
    case SocketData(id, frame) => FrameArrives(id, frame);
    case SocketEnd =>
  }

  // -------------------------------------------------------- what survives

  // No later header has the same name.
  predicate IsLast(headers: seq<Header>, i: nat)
    requires i < |headers|
  {
    forall j :: i < j < |headers| ==> Lower(headers[j].0) != Lower(headers[i].0)
  }

  lemma {:induction false} MapKeys(headers: seq<Header>, name: string)
    ensures Exact(name) in HeaderMap(headers) <==> exists i: nat :: i < |headers| && Lower(headers[i].0) == name
  {
    if headers != [] {
      var n := |headers| - 1;
      MapKeys(headers[..n], name);
      if i: nat :| i < |headers| && Lower(headers[i].0) == name {
        assert i < n ==> headers[..n][i] == headers[i];
      }
    }
  }

  lemma {:induction false} MapKeysAreText(headers: seq<Header>, k: Text)
    requires k in HeaderMap(headers)
    ensures k.Exact? && HeaderMap(headers)[k].Exact?
  {
    if headers != [] && k != Exact(Lower(headers[|headers| - 1].0)) {
      MapKeysAreText(headers[..|headers| - 1], k);
    }
  }

  lemma {:induction false} MapValue(headers: seq<Header>, i: nat)
    requires i < |headers| && IsLast(headers, i)
    ensures Exact(Lower(headers[i].0)) in HeaderMap(headers)
    ensures HeaderMap(headers)[Exact(Lower(headers[i].0))] == Exact(headers[i].1)
  {
    var n := |headers| - 1;
    if i < n {
      assert headers[..n][i] == headers[i];
      assert forall j :: i < j < n ==> headers[..n][j] == headers[j];
      MapValue(headers[..n], i);
    }
  }

  lemma {:induction false} LastOf(headers: seq<Header>, i: nat) returns (j: nat)
    requires i < |headers|
    ensures i <= j < |headers| && IsLast(headers, j) && Lower(headers[j].0) == Lower(headers[i].0)
    decreases |headers| - i
  {
    if k :| i < k < |headers| && Lower(headers[k].0) == Lower(headers[i].0) {
      j := LastOf(headers, k);
    } else {
      j := i;
    }
  }

  function Boms(s: string): nat
  {
    if LeadsWithBom(s) then 1 + Boms(s[1..]) else 0
  }

  lemma {:induction false} LowerKeepsBoms(s: string)
    ensures Boms(Lower(s)) == Boms(s)
  {
    if LeadsWithBom(s) {
      LowerKeepsBoms(s[1..]);
      assert Lower(s)[1..] == Lower(s[1..]);
    }
  }

  lemma {:induction false} MostBoms(headers: seq<Header>, n: nat) returns (i: nat)
    requires 0 < n <= |headers|
    ensures i < n && forall j :: 0 <= j < n ==> Boms(headers[j].0) <= Boms(headers[i].0)
  {
    i := 0;
    if n > 1 {
      i := MostBoms(headers, n - 1);
      i := if Boms(headers[n - 1].0) > Boms(headers[i].0) then n - 1 else i;
    }
  }

  // A name with the most leading U+FEFF is nobody's name once one of them is dropped.
  lemma MarkedNameIsLost(headers: seq<Header>, i: nat)
    requires i < |headers| && LeadsWithBom(headers[i].0)
    ensures HeaderMap(StrippedHeaders(headers)) != HeaderMap(headers)
  {
    var k := MostBoms(headers, |headers|);
    var read := StrippedHeaders(headers);
    var name := Lower(headers[k].0);
    MapKeys(headers, name);
    MapKeys(read, name);
    assert Boms(headers[i].0) > 0;
    LowerKeepsBoms(headers[k].0);
    forall j: nat | j < |read| ensures Lower(read[j].0) != name {
      LowerKeepsBoms(read[j].0);
      assert Boms(headers[j].0) == if LeadsWithBom(headers[j].0) then 1 + Boms(read[j].0) else Boms(read[j].0);
    }
  }

  lemma NamesStay(headers: seq<Header>, i: nat)
    requires i < |headers| && forall j :: 0 <= j < |headers| ==> !LeadsWithBom(headers[j].0)
    ensures StrippedHeaders(headers)[i].0 == headers[i].0
    ensures IsLast(StrippedHeaders(headers), i) <==> IsLast(headers, i)
  {
    assert forall j :: 0 <= j < |headers| ==> StrippedHeaders(headers)[j].0 == headers[j].0;
  }

  lemma MarkedValueIsLost(headers: seq<Header>, i: nat)
    requires i < |headers| && IsLast(headers, i) && LeadsWithBom(headers[i].1)
    requires forall j :: 0 <= j < |headers| ==> !LeadsWithBom(headers[j].0)
    ensures HeaderMap(StrippedHeaders(headers)) != HeaderMap(headers)
  {
    NamesStay(headers, i);
    MapValue(headers, i);
    MapValue(StrippedHeaders(headers), i);
  }

  predicate UnmarkedHeaders(headers: seq<Header>)
  {
    && (forall i :: 0 <= i < |headers| ==> !LeadsWithBom(headers[i].0))
    && (forall i: nat :: i < |headers| && IsLast(headers, i) ==> !LeadsWithBom(headers[i].1))
  }

  lemma UnmarkedValue(headers: seq<Header>, k: Text)
    requires UnmarkedHeaders(headers)
    ensures k in HeaderMap(StrippedHeaders(headers)) <==> k in HeaderMap(headers)
    ensures k in HeaderMap(headers) ==> HeaderMap(StrippedHeaders(headers))[k] == HeaderMap(headers)[k]
  {
    var read := StrippedHeaders(headers);
    if k in HeaderMap(read) {
      MapKeysAreText(read, k);
    }
    if k in HeaderMap(headers) {
      MapKeysAreText(headers, k);
    }
    if k.Exact? {
      MapKeys(headers, k.text);
      MapKeys(read, k.text);
      assert forall i :: 0 <= i < |headers| ==> read[i].0 == headers[i].0;
      if i: nat :| i < |headers| && Lower(headers[i].0) == k.text {
        var j := LastOf(headers, i);
        NamesStay(headers, j);
        MapValue(headers, j);
        MapValue(read, j);
      }
    }
  }

  // The browser's lookup is the daemon's exactly when no name and no last value of a name is marked.
  lemma HeadersSurviveIff(headers: seq<Header>)
    ensures HeaderMap(StrippedHeaders(headers)) == HeaderMap(headers) <==> UnmarkedHeaders(headers)
  {
    if UnmarkedHeaders(headers) {
      forall k ensures (k in HeaderMap(StrippedHeaders(headers)) <==> k in HeaderMap(headers))
        && (k in HeaderMap(headers) ==> HeaderMap(StrippedHeaders(headers))[k] == HeaderMap(headers)[k])
      {
        UnmarkedValue(headers, k);
      }
    } else if i: nat :| i < |headers| && LeadsWithBom(headers[i].0) {
      MarkedNameIsLost(headers, i);
    } else {
      var i: nat :| i < |headers| && IsLast(headers, i) && LeadsWithBom(headers[i].1);
      MarkedValueIsLost(headers, i);
    }
  }

  // Whatever the daemon can encode reaches the browser as it was meant exactly when the browser has such a
  // message, the id is a number JavaScript has and none of the texts that count starts with U+FEFF.
  lemma MessageSurvivesIff(m: Outbound)
    requires Encoding(m).Ok?
    ensures Meant(m).Ok? && Decoding(Encoding(m).value) == Meant(m)
       <==> && !m.SocketEnd? && !(m.SocketData? && m.frame.Binary?)
            && IdOf(m) % Spacing(IdOf(m)) == 0 && !LeadsWithBom(TextOf(m)) && UnmarkedHeaders(HeadersOf(m))
  {
    MessageArrives(m);
    NumberSurvivesIff(IdOf(m));
    HeadersSurviveIff(HeadersOf(m));
  }

  // What the daemon can encode: chunks and texts up to the chunk limit, header blocks up to theirs.
  lemma EncodesIff(m: Outbound)
    ensures Encoding(m).Ok? <==>
      match m
      case Chunk(bytes) => |bytes| <= MAX_CHUNK_BYTES
      case Refusal(_, reason) => |Encode(reason)| <= MAX_CHUNK_BYTES
      case SocketData(_, Text(text)) => |Encode(text)| <= MAX_CHUNK_BYTES
      case SocketData(_, Binary(bytes)) => |bytes| <= MAX_CHUNK_BYTES
      case _ => HeaderTotal(HeadersOf(m)) <= MAX_HEADER_BYTES && forall i :: 0 <= i < |HeadersOf(m)| ==>
                  |Encode(HeadersOf(m)[i].0)| <= MAX_CHUNK_BYTES && |Encode(HeadersOf(m)[i].1)| <= MAX_CHUNK_BYTES
  {
    PairsAreBytes(HeadersOf(m));
    CountFits(HeadersOf(m));
  }

  // A block within its limit never has too many headers for its count.
  lemma {:induction false} CountFits(headers: seq<Header>)
    ensures 8 * |headers| <= HeaderTotal(headers)
  {
    if headers != [] {
      CountFits(headers[1..]);
    }
  }

  // -------------------------------------------------------- the encoding method

  // The buffer after a part was appended.
  function Appended(out: seq<byte>, part: Result<seq<byte>, TooBig>): Result<seq<byte>, TooBig>
  {
    if part.Err? then part else Ok(out + part.value)
  }

  method WriteBytes(out: seq<byte>, bytes: seq<byte>) returns (r: Result<seq<byte>, TooBig>)
    ensures r == Appended(out, PutBytes(bytes))
  {
    if |bytes| > MAX_CHUNK_BYTES {
      return Err(TooLarge(|bytes|));
    }
    return Ok(out + (BytesBE(|bytes|, U32_LEN) + bytes));
  }

  method WriteHeaders(before: seq<byte>, headers: seq<Header>) returns (r: Result<seq<byte>, TooBig>)
    ensures r == Appended(before, PutHeaders(headers))
  {
    var total := 0;
    var i := 0;
    while i < |headers|
      invariant 0 <= i <= |headers| && total + HeaderTotal(headers[i..]) == HeaderTotal(headers)
    {
      assert headers[i..][1..] == headers[i + 1..];
      total := total + |Encode(headers[i].0)| + |Encode(headers[i].1)| + 8;
      i := i + 1;
    }
    if total > MAX_HEADER_BYTES || |headers| >= U16 {
      return Err(HeadersTooLarge(total));
    }
    var out := before + BytesBE(|headers|, U16_LEN);
    ghost var counted := out;
    i := 0;
    assert headers[0..] == headers;
    while i < |headers|
      invariant 0 <= i <= |headers|
      invariant Appended(out, PutPairs(headers[i..])) == Appended(counted, PutPairs(headers))
    {
      PairAppended(out, headers[i..]);
      assert headers[i..][1..] == headers[i + 1..];
      out :- WriteBytes(out, Encode(headers[i].0));
      out :- WriteBytes(out, Encode(headers[i].1));
      i := i + 1;
    }
    assert out + [] == out;
    r := Ok(out);
    PartAppended(before, BytesBE(|headers|, U16_LEN), PutPairs(headers));
  }

  lemma PairAppended(out: seq<byte>, headers: seq<Header>)
    requires headers != []
    ensures (var name, value := PutBytes(Encode(headers[0].0)), PutBytes(Encode(headers[0].1));
             Appended(out, PutPairs(headers)) ==
               if name.Err? then name else if value.Err? then value
               else Appended(out + name.value + value.value, PutPairs(headers[1..])))
  {
    var name, value, rest := PutBytes(Encode(headers[0].0)), PutBytes(Encode(headers[0].1)), PutPairs(headers[1..]);
    if name.Ok? && value.Ok? && rest.Ok? {
      assert PutPairs(headers) == Ok(name.value + value.value + rest.value);
      AppendThree(out, name.value, value.value, rest.value);
    }
  }

  lemma AppendTwo(out: seq<byte>, a: seq<byte>, b: seq<byte>)
    ensures out + (a + b) == out + a + b
  {}

  lemma AppendThree(out: seq<byte>, a: seq<byte>, b: seq<byte>, c: seq<byte>)
    ensures out + (a + b + c) == out + a + b + c
  {}

  // Appends the message, or refuses what is too large for the carrier.
  method EncodeMessage(message: Outbound, before: seq<byte>) returns (r: Result<seq<byte>, TooBig>)
    ensures r == Appended(before, Encoding(message))
  {
    var out := before + [0x50, 0x58, VERSION];
    match message
    case ResponseHead(id, status, headers) =>
      out := out + [TAG_RESPONSE_START] + BytesBE(id, U64_LEN) + BytesBE(status, U16_LEN);
      r := WriteHeaders(out, headers);
      HeadAppended(before, TAG_RESPONSE_START, id, status, PutHeaders(headers));
    case Chunk(bytes) =>
      out := out + [TAG_RESPONSE_BODY];
      assert out == before + Prefix(TAG_RESPONSE_BODY);
      r := WriteBytes(out, bytes);
      PartAppended(before, Prefix(TAG_RESPONSE_BODY), PutBytes(bytes));
    case End =>
      r := Ok(out + [TAG_RESPONSE_END]);
      assert out + [TAG_RESPONSE_END] == before + Prefix(TAG_RESPONSE_END);
    case Refusal(id, reason) =>
      out := out + [TAG_FAILURE] + BytesBE(id, U64_LEN);
      assert out == before + (Prefix(TAG_FAILURE) + BytesBE(id, U64_LEN));
      r := WriteBytes(out, Encode(reason));
      PartAppended(before, Prefix(TAG_FAILURE) + BytesBE(id, U64_LEN), PutBytes(Encode(reason)));
    case Upgraded(id, status, headers) =>
      out := out + [TAG_WS_OPENED] + BytesBE(id, U64_LEN) + BytesBE(status, U16_LEN);
      r := WriteHeaders(out, headers);
      HeadAppended(before, TAG_WS_OPENED, id, status, PutHeaders(headers));
    case SocketData(id, frame) =>
      out := out + [TAG_WS_DATA] + BytesBE(id, U64_LEN);
      assert out == before + (Prefix(TAG_WS_DATA) + BytesBE(id, U64_LEN));
      r := WriteFrame(out, frame);
      FrameAppended(before, id, frame);
    case SocketEnd =>
      r := Ok(out + [TAG_WS_CLOSE]);
      assert out + [TAG_WS_CLOSE] == before + Prefix(TAG_WS_CLOSE);
  }

  function KindAndBody(frame: OutFrame): Result<seq<byte>, TooBig>
  {
    match frame
    case Text(text) => Appended([1], PutBytes(Encode(text)))
    case Binary(payload) => Appended([2], PutBytes(payload))
    case Close => Ok([3])
  }

  method WriteFrame(out: seq<byte>, frame: OutFrame) returns (r: Result<seq<byte>, TooBig>)
    ensures r == Appended(out, KindAndBody(frame))
  {
    match frame
    case Text(text) =>
      r := WriteBytes(out + [1], Encode(text));
      PartAppended(out, [1], PutBytes(Encode(text)));
    case Binary(payload) =>
      r := WriteBytes(out + [2], payload);
      PartAppended(out, [2], PutBytes(payload));
    case Close => r := Ok(out + [3]);
  }

  lemma PartAppended(before: seq<byte>, head: seq<byte>, part: Result<seq<byte>, TooBig>)
    ensures Appended(before + head, part) == Appended(before, Appended(head, part))
  {
    if part.Ok? {
      assert before + head + part.value == before + (head + part.value);
    }
  }

  lemma HeadAppended(before: seq<byte>, tag: byte, id: u64, status: u16, block: Result<seq<byte>, TooBig>)
    ensures (var head := Prefix(tag) + BytesBE(id, U64_LEN) + BytesBE(status, U16_LEN);
             var out := before + [0x50, 0x58, VERSION] + [tag] + BytesBE(id, U64_LEN) + BytesBE(status, U16_LEN);
             Appended(out, block) == Appended(before, Appended(head, block)))
  {
    var head := Prefix(tag) + BytesBE(id, U64_LEN) + BytesBE(status, U16_LEN);
    assert before + [0x50, 0x58, VERSION] + [tag] + BytesBE(id, U64_LEN) + BytesBE(status, U16_LEN) == before + head;
    PartAppended(before, head, block);
  }

  lemma FrameAppended(before: seq<byte>, id: u64, frame: OutFrame)
    ensures (var head := Prefix(TAG_WS_DATA) + BytesBE(id, U64_LEN);
             Appended(before + head, KindAndBody(frame)) == Appended(before, PutFrame(id, frame)))
  {
    var head := Prefix(TAG_WS_DATA) + BytesBE(id, U64_LEN);
    PartAppended(before, head, KindAndBody(frame));
    match frame
    case Text(text) => PartAppended(head, [1], PutBytes(Encode(text)));
    case Binary(payload) => PartAppended(head, [2], PutBytes(payload));
    case Close =>
  }
}
