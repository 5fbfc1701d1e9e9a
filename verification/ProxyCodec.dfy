// Proxy messages of apps/pwa/src/proxy.ts: the encoders of requests and WebSocket messages, and the
// bounds-checked reader that decodes what the daemon sends. Text is Unicode text without lone surrogates.
module ProxyCodec {
  import opened Results
  import opened NumberTheory
  import opened LittleEndian
  import opened BigEndian
  import opened Buffers
  import opened Decimal
  import opened Utf8

  const VERSION: byte := 1
  const TAG_REQUEST_START: byte := 1
  const TAG_RESPONSE_START: byte := 4
  const TAG_RESPONSE_BODY: byte := 5
  const TAG_RESPONSE_END: byte := 6
  const TAG_FAILURE: byte := 7
  const TAG_WS_OPEN: byte := 8
  const TAG_WS_OPENED: byte := 9
  const TAG_WS_DATA: byte := 10

  const U16_LEN: nat := 2
  const U32_LEN: nat := 4
  const U64_LEN: nat := 8
  const MAX_SAFE: nat := 0x20_0000_0000_0000

  type Header = (string, string)

  function Prefix(tag: byte): seq<byte>
  {
    [0x50, 0x58, VERSION, tag]
  }

  // Bytes behind their length.
  function BytesFrom(value: seq<byte>): seq<byte>
  {
    BytesBE(|value|, U32_LEN) + value
  }

  function TextBytes(text: string): seq<byte>
  {
    BytesFrom(Encode(text))
  }

  function HeaderBytes(headers: seq<Header>): seq<byte>
  {
    if headers == [] then [] else TextBytes(headers[0].0) + TextBytes(headers[0].1) + HeaderBytes(headers[1..])
  }

  // ---------------------------------------------------------------- requests

  datatype Request = Request(id: nat, verb: string, target: string, headers: seq<Header>, body: seq<byte>)

  datatype EncodeError = NotOriginForm

  predicate OriginForm(target: string)
  {
    "/" <= target && !("//" <= target) && forall i :: 0 <= i < |target| - 1 ==> !(target[i] == '.' && target[i + 1] == '.')
  }

  // A path that names no host and climbs nowhere.
  lemma OriginFormMeans(target: string)
    ensures OriginForm(target)
       <==> target != "" && target[0] == '/' && !(|target| > 1 && target[1] == '/')
            && forall i {:trigger target[i..i + 2]} :: 0 <= i <= |target| - 2 ==> target[i..i + 2] != ".."
  {
    StartsLike(target);
    forall i {:trigger target[i..i + 2]} | 0 <= i <= |target| - 2 ensures target[i..i + 2] == ".." <==> target[i] == '.' && target[i + 1] == '.' {
      TwoDots(target, i);
    }
    if !OriginForm(target) && target != "" && target[0] == '/' && !(|target| > 1 && target[1] == '/') {
      var i :| 0 <= i < |target| - 1 && target[i] == '.' && target[i + 1] == '.';
      TwoDots(target, i);
    }
  }

  lemma StartsLike(s: string)
    ensures "/" <= s <==> s != "" && s[0] == '/'
    ensures "//" <= s <==> |s| > 1 && s[0] == '/' && s[1] == '/'
  {}

  lemma TwoDots(s: string, i: nat)
    requires i + 2 <= |s|
    ensures s[i..i + 2] == ".." <==> s[i] == '.' && s[i + 1] == '.'
  {
    var two := s[i..i + 2];
    assert two[0] == s[i] && two[1] == s[i + 1];
  }

  function Lower(s: string): string
  {
    seq(|s|, i requires 0 <= i < |s| => if 'A' <= s[i] <= 'Z' then (s[i] as int + 32) as char else s[i])
  }

  predicate SameLetter(c: char, d: char)
  {
    || c == d
    || ('A' <= c <= 'Z' && d as int == c as int + 32)
    || ('A' <= d <= 'Z' && c as int == d as int + 32)
  }

  // Names that differ at most in the case of ASCII letters, and no others, are one name.
  lemma SameNameIff(s: string, t: string)
    ensures Lower(s) == Lower(t) <==> |s| == |t| && forall i :: 0 <= i < |s| ==> SameLetter(s[i], t[i])
  {
    if Lower(s) == Lower(t) {
      forall i | 0 <= i < |s| ensures SameLetter(s[i], t[i]) {
        assert Lower(s)[i] == Lower(t)[i];
      }
    }
  }

  const CONTENT_LENGTH: string := "content-length"

  predicate NamesLength(headers: seq<Header>)
  {
    exists i :: 0 <= i < |headers| && Lower(headers[i].0) == CONTENT_LENGTH
  }

  // The request as it goes out: a body without a declared length gets one.
  function Normalized(r: Request): Request
  {
    if r.body != [] && !NamesLength(r.headers) then r.(headers := r.headers + [(CONTENT_LENGTH, DecimalText(|r.body|))])
    else r
  }

  function RequestBytes(r: Request): seq<byte>
  {
    Prefix(TAG_REQUEST_START) + (BytesBE(r.id, U64_LEN) + (TextBytes(r.verb) + (TextBytes(r.target)
    + (BytesBE(|r.headers|, U16_LEN) + (HeaderBytes(r.headers) + BytesFrom(r.body))))))
  }

  function WsOpenBytes(id: nat, target: string, headers: seq<Header>): seq<byte>
  {
    Prefix(TAG_WS_OPEN) + (BytesBE(id, U64_LEN) + (TextBytes(target)
    + (BytesBE(|headers|, U32_LEN) + HeaderBytes(headers))))
  }

  // What the field widths can hold.
  predicate FitsText(text: string)
  {
    |Encode(text)| < U32
  }

  predicate FitsHeaders(headers: seq<Header>)
  {
    forall i :: 0 <= i < |headers| ==> FitsText(headers[i].0) && FitsText(headers[i].1)
  }

  predicate Fits(r: Request)
  {
    r.id < U64 && FitsText(r.verb) && FitsText(r.target) && |r.headers| < U16 && FitsHeaders(r.headers) && |r.body| < U32
  }

  // ------------------------------------------------------- the layout, read back

  // A reader for the layout as it is written. It shows that the bytes determine the message; what the daemon
  // makes of them is another matter, and module DaemonDecoder.

  function TakeNumber(b: seq<byte>, width: nat): Option<(nat, seq<byte>)>
  {
    if |b| < width then None else Some((ValueBE(b[..width]), b[width..]))
  }

  function TakeBytes(b: seq<byte>): (r: Option<(seq<byte>, seq<byte>)>)
    ensures r.Some? ==> |r.value.1| < |b|
  {
    match TakeNumber(b, U32_LEN)
    case None => None
    case Some((n, rest)) => if |rest| < n then None else Some((rest[..n], rest[n..]))
  }

  function TakeText(b: seq<byte>): (r: Option<(string, seq<byte>)>)
    ensures r.Some? ==> |r.value.1| < |b|
  {
    match TakeBytes(b)
    case None => None
    case Some((bytes, rest)) => if Decode(bytes).None? then None else Some((Decode(bytes).value, rest))
  }

  function TakeHeaders(b: seq<byte>, count: nat): Option<(seq<Header>, seq<byte>)>
    decreases count
  {
    if count == 0 then Some(([], b))
    else
      match TakeText(b)
      case None => None
      case Some((name, afterName)) =>
        match TakeText(afterName)
        case None => None
        case Some((value, rest)) =>
          match TakeHeaders(rest, count - 1)
          case None => None
          case Some((others, end)) => Some(([(name, value)] + others, end))
  }

  function ReadRequest(b: seq<byte>): Option<Request>
  {
    if !(Prefix(TAG_REQUEST_START) <= b) then None
    else
      match TakeNumber(b[4..], U64_LEN)
      case None => None
      case Some((id, b1)) =>
        match TakeText(b1)
        case None => None
        case Some((verb, b2)) =>
          match TakeText(b2)
          case None => None
          case Some((target, b3)) =>
            match TakeNumber(b3, U16_LEN)
            case None => None
            case Some((count, b4)) =>
              match TakeHeaders(b4, count)
              case None => None
              case Some((headers, b5)) =>
                match TakeBytes(b5)
                case None => None
                case Some((body, b6)) => if b6 != [] then None else Some(Request(id, verb, target, headers, body))
  }

  function ReadWsOpen(b: seq<byte>): Option<(nat, string, seq<Header>)>
  {
    if !(Prefix(TAG_WS_OPEN) <= b) then None
    else
      match TakeNumber(b[4..], U64_LEN)
      case None => None
      case Some((id, b1)) =>
        match TakeText(b1)
        case None => None
        case Some((target, b2)) =>
          match TakeNumber(b2, U32_LEN)
          case None => None
          case Some((count, b3)) =>
            match TakeHeaders(b3, count)
            case None => None
            case Some((headers, b4)) => if b4 != [] then None else Some((id, target, headers))
  }

  lemma NumberTaken(value: nat, width: nat, rest: seq<byte>)
    requires value < Pow(256, width)
    ensures TakeNumber(BytesBE(value, width) + rest, width) == Some((value, rest))
  {
    ReadWrittenBE(value, width);
    assert (BytesBE(value, width) + rest)[..width] == BytesBE(value, width);
  }

  lemma BytesTaken(value: seq<byte>, rest: seq<byte>)
    requires |value| < U32
    ensures TakeBytes(BytesFrom(value) + rest) == Some((value, rest))
  {
    FieldRanges();
    NumberTaken(|value|, U32_LEN, value + rest);
    assert BytesFrom(value) + rest == BytesBE(|value|, U32_LEN) + (value + rest);
    assert (value + rest)[..|value|] == value && (value + rest)[|value|..] == rest;
  }

  lemma TextTaken(text: string, rest: seq<byte>)
    requires FitsText(text)
    ensures TakeText(TextBytes(text) + rest) == Some((text, rest))
  {
    BytesTaken(Encode(text), rest);
    DecodeEncode(text);
  }

  lemma FirstHeaderTaken(header: Header, others: seq<byte>, count: nat)
    requires FitsText(header.0) && FitsText(header.1) && TakeHeaders(others, count).Some?
    ensures TakeHeaders(TextBytes(header.0) + (TextBytes(header.1) + others), count + 1)
         == Some(([header] + TakeHeaders(others, count).value.0, TakeHeaders(others, count).value.1))
  {
    TextTaken(header.0, TextBytes(header.1) + others);
    TextTaken(header.1, others);
  }

  lemma {:induction false} HeadersTaken(headers: seq<Header>, rest: seq<byte>)
    requires FitsHeaders(headers)
    ensures TakeHeaders(HeaderBytes(headers) + rest, |headers|) == Some((headers, rest))
  {
    if headers == [] {
      assert HeaderBytes(headers) + rest == rest;
    } else {
      var others := HeaderBytes(headers[1..]) + rest;
      assert HeaderBytes(headers) + rest == TextBytes(headers[0].0) + (TextBytes(headers[0].1) + others);
      HeadersTaken(headers[1..], rest);
      FirstHeaderTaken(headers[0], others, |headers| - 1);
      assert [headers[0]] + headers[1..] == headers;
    }
  }

  lemma PrefixTaken(tag: byte, rest: seq<byte>)
    ensures Prefix(tag) <= Prefix(tag) + rest && (Prefix(tag) + rest)[4..] == rest
  {}

  // The layout gives every request back that fits the fields.
  lemma RequestReadsBack(r: Request)
    requires Fits(r)
    ensures ReadRequest(RequestBytes(r)) == Some(r)
  {
    var body := BytesFrom(r.body);
    var b4 := HeaderBytes(r.headers) + body;
    var b3 := BytesBE(|r.headers|, U16_LEN) + b4;
    var b2 := TextBytes(r.target) + b3;
    var b1 := TextBytes(r.verb) + b2;
    FieldRanges();
    PrefixTaken(TAG_REQUEST_START, BytesBE(r.id, U64_LEN) + b1);
    NumberTaken(r.id, U64_LEN, b1);
    TextTaken(r.verb, b2);
    TextTaken(r.target, b3);
    NumberTaken(|r.headers|, U16_LEN, b4);
    HeadersTaken(r.headers, body);
    BytesTaken(r.body, []);
    assert body + [] == body;
  }

  lemma WsOpenReadsBack(id: nat, target: string, headers: seq<Header>)
    requires id < U64 && FitsText(target) && |headers| < U32 && FitsHeaders(headers)
    ensures ReadWsOpen(WsOpenBytes(id, target, headers)) == Some((id, target, headers))
  {
    var b3 := HeaderBytes(headers);
    var b2 := BytesBE(|headers|, U32_LEN) + b3;
    var b1 := TextBytes(target) + b2;
    FieldRanges();
    PrefixTaken(TAG_WS_OPEN, BytesBE(id, U64_LEN) + b1);
    NumberTaken(id, U64_LEN, b1);
    TextTaken(target, b2);
    NumberTaken(|headers|, U32_LEN, b3);
    HeadersTaken(headers, []);
    assert b3 + [] == b3;
  }

  lemma WsOpenEncodingInjective(id: nat, target: string, headers: seq<Header>, id': nat, target': string, headers': seq<Header>)
    requires id < U64 && FitsText(target) && |headers| < U32 && FitsHeaders(headers)
    requires id' < U64 && FitsText(target') && |headers'| < U32 && FitsHeaders(headers')
    ensures WsOpenBytes(id, target, headers) == WsOpenBytes(id', target', headers') <==> id == id' && target == target' && headers == headers'
  {
    WsOpenReadsBack(id, target, headers);
    WsOpenReadsBack(id', target', headers');
  }

  // Two requests are encoded alike exactly when they are alike after the length header is added.
  lemma RequestEncodingInjective(r: Request, s: Request)
    requires Fits(Normalized(r)) && Fits(Normalized(s))
    ensures RequestBytes(Normalized(r)) == RequestBytes(Normalized(s)) <==> Normalized(r) == Normalized(s)
  {
    RequestReadsBack(Normalized(r));
    RequestReadsBack(Normalized(s));
  }

  // --------------------------------------------------------------- the encoders

  function Flattened(parts: seq<seq<byte>>): seq<byte>
  {
    if parts == [] then [] else parts[0] + Flattened(parts[1..])
  }

  lemma {:induction false} FlattenedAppend(a: seq<seq<byte>>, b: seq<seq<byte>>)
    ensures Flattened(a + b) == Flattened(a) + Flattened(b)
  {
    if a == [] {
      assert a + b == b;
    } else {
      assert (a + b)[1..] == a[1..] + b;
      FlattenedAppend(a[1..], b);
    }
  }

  lemma FlattenedOne(part: seq<byte>)
    ensures Flattened([part]) == part
  {
    assert [part][1..] == [];
  }

  method Concat(parts: seq<seq<byte>>) returns (out: array<byte>)
    ensures fresh(out) && out[..] == Flattened(parts)
  {
    var total := 0;
    var i := 0;
    while i < |parts|
      invariant 0 <= i <= |parts| && total == |Flattened(parts[..i])|
    {
      NextPart(parts, i);
      total := total + |parts[i]|;
      i := i + 1;
    }
    assert parts[..i] == parts;
    out := new byte[total](_ => 0);
    var at := 0;
    i := 0;
    while i < |parts|
      invariant 0 <= i <= |parts| && at == |Flattened(parts[..i])| <= total
      invariant out.Length == total && out[..at] == Flattened(parts[..i])
    {
      NextPart(parts, i);
      PartFits(parts, i);
      SetBytes(out, parts[i], at);
      at := at + |parts[i]|;
      i := i + 1;
    }
    assert parts[..i] == parts;
    assert out[..] == out[..at];
  }

  lemma NextPart(parts: seq<seq<byte>>, i: nat)
    requires i < |parts|
    ensures Flattened(parts[..i + 1]) == Flattened(parts[..i]) + parts[i]
  {
    assert parts[..i + 1] == parts[..i] + [parts[i]];
    FlattenedAppend(parts[..i], [parts[i]]);
    FlattenedOne(parts[i]);
  }

  lemma PartFits(parts: seq<seq<byte>>, i: nat)
    requires i < |parts|
    ensures |Flattened(parts[..i])| + |parts[i]| <= |Flattened(parts)|
  {
    NextPart(parts, i);
    assert parts == parts[..i + 1] + parts[i + 1..];
    FlattenedAppend(parts[..i + 1], parts[i + 1..]);
  }

  lemma Prepended(part: seq<byte>, parts: seq<seq<byte>>)
    ensures Flattened([part] + parts) == part + Flattened(parts)
  {
    assert ([part] + parts)[1..] == parts;
  }

  lemma NextHeader(parts: seq<seq<byte>>, headers: seq<Header>, i: nat)
    requires i < |headers|
    ensures (var name, value := TextBytes(headers[i].0), TextBytes(headers[i].1);
             Flattened(parts + [name, value]) + HeaderBytes(headers[i + 1..]) == Flattened(parts) + HeaderBytes(headers[i..]))
  {
    var name, value := TextBytes(headers[i].0), TextBytes(headers[i].1);
    assert headers[i..][1..] == headers[i + 1..];
    FlattenedAppend(parts, [name, value]);
    assert [name, value] == [name] + [value];
    Prepended(name, [value]);
    FlattenedOne(value);
    ThreeSeqs(Flattened(parts), name + value, HeaderBytes(headers[i + 1..]));
  }

  lemma ThreeSeqs(a: seq<byte>, b: seq<byte>, c: seq<byte>)
    ensures (a + b) + c == a + (b + c)
  {}

  method HeaderParts(headers: seq<Header>) returns (parts: seq<seq<byte>>)
    ensures Flattened(parts) == HeaderBytes(headers)
  {
    parts := [];
    var i := 0;
    assert headers[0..] == headers;
    while i < |headers|
      invariant 0 <= i <= |headers|
      invariant Flattened(parts) + HeaderBytes(headers[i..]) == HeaderBytes(headers)
    {
      NextHeader(parts, headers, i);
      parts := parts + [TextBytes(headers[i].0), TextBytes(headers[i].1)];
      i := i + 1;
    }
    assert Flattened(parts) + [] == Flattened(parts);
  }

  method EncodeRequest(id: nat, verb: string, target: string, headers: seq<Header>, body: seq<byte>)
    returns (r: Result<array<byte>, EncodeError>)
    ensures r.Ok? <==> target != "" && target[0] == '/' && !(|target| > 1 && target[1] == '/')
                       && forall i {:trigger target[i..i + 2]} :: 0 <= i <= |target| - 2 ==> target[i..i + 2] != ".."
    ensures r.Ok? ==> fresh(r.value) && r.value[..] == RequestBytes(Normalized(Request(id, verb, target, headers, body)))
  {
    OriginFormMeans(target);
    if !OriginForm(target) {
      return Err(NotOriginForm);
    }
    var all := headers;
    if body != [] && !NamesLength(headers) {
      all := all + [(CONTENT_LENGTH, DecimalText(|body|))];
    }
    var head := [Prefix(TAG_REQUEST_START), BytesBE(id, U64_LEN), TextBytes(verb), TextBytes(target), BytesBE(|all|, U16_LEN)];
    var middle := HeaderParts(all);
    SevenParts(head[0], head[1], head[2], head[3], head[4], middle, BytesFrom(body));
    var out := Concat(head + middle + [BytesFrom(body)]);
    return Ok(out);
  }

  lemma SevenParts(a: seq<byte>, b: seq<byte>, c: seq<byte>, d: seq<byte>, e: seq<byte>, middle: seq<seq<byte>>, z: seq<byte>)
    ensures Flattened([a, b, c, d, e] + middle + [z]) == a + (b + (c + (d + (e + (Flattened(middle) + z)))))
  {
    assert [a, b, c, d, e] + middle + [z] == [a] + ([b] + ([c] + ([d] + ([e] + (middle + [z])))));
    FlattenedOne(z);
    FlattenedAppend(middle, [z]);
    Prepended(e, middle + [z]);
    Prepended(d, [e] + (middle + [z]));
    Prepended(c, [d] + ([e] + (middle + [z])));
    Prepended(b, [c] + ([d] + ([e] + (middle + [z]))));
    Prepended(a, [b] + ([c] + ([d] + ([e] + (middle + [z])))));
  }

  method EncodeWsOpen(id: nat, target: string, headers: seq<Header>) returns (r: Result<array<byte>, EncodeError>)
    ensures r.Ok? <==> target != "" && target[0] == '/' && !(|target| > 1 && target[1] == '/')
                       && forall i {:trigger target[i..i + 2]} :: 0 <= i <= |target| - 2 ==> target[i..i + 2] != ".."
    ensures r.Ok? ==> fresh(r.value) && r.value[..] == WsOpenBytes(id, target, headers)
  {
    OriginFormMeans(target);
    if !OriginForm(target) {
      return Err(NotOriginForm);
    }
    var middle := HeaderParts(headers);
    var head := [Prefix(TAG_WS_OPEN), BytesBE(id, U64_LEN), TextBytes(target), BytesBE(|headers|, U32_LEN)];
    FiveParts(head[0], head[1], head[2], head[3], middle);
    var out := Concat(head + middle);
    return Ok(out);
  }

  lemma FiveParts(a: seq<byte>, b: seq<byte>, c: seq<byte>, d: seq<byte>, middle: seq<seq<byte>>)
    ensures Flattened([a, b, c, d] + middle) == a + (b + (c + (d + Flattened(middle))))
  {
    assert [a, b, c, d] + middle == [a] + ([b] + ([c] + ([d] + middle)));
    Prepended(d, middle);
    Prepended(c, [d] + middle);
    Prepended(b, [c] + ([d] + middle));
    Prepended(a, [b] + ([c] + ([d] + middle)));
  }

  datatype WsFrame = Text(text: string) | Close

  // A close carries no payload at all.
  function WsDataBytes(id: nat, frame: WsFrame): seq<byte>
  {
    Prefix(TAG_WS_DATA) + (BytesBE(id, U64_LEN)
    + (match frame case Text(text) => [1] + TextBytes(text) case Close => [3]))
  }

  method EncodeWsData(id: nat, frame: WsFrame) returns (out: array<byte>)
    ensures fresh(out) && out[..] == WsDataBytes(id, frame)
  {
    var kind: byte := if frame.Text? then 1 else 3;
    var body := if frame.Text? then TextBytes(frame.text) else [];
    FiveParts(Prefix(TAG_WS_DATA), BytesBE(id, U64_LEN), [kind], body, []);
    out := Concat([Prefix(TAG_WS_DATA), BytesBE(id, U64_LEN), [kind], body] + []);
  }
}
