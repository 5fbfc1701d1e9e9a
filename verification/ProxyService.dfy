// What the daemon checks before it performs a request: `validate_target` and `request_body` of
// crates/dr-dsh-daemon/src/proxy/service.rs, against the requests the browser encodes.
module ProxyService {
  import opened Results
  import opened LittleEndian
  import opened BigEndian
  import Decimal
  import opened ProxyCodec
  import ProxyReader
  import opened DaemonMessages
  import opened DaemonDecoder

  datatype Refused =
    | NoLeadingSlash
    | NamesHost
    | Traversal
    | Whitespace
    | NotANumber(declared: string)
    | WrongSize(size: nat, arrived: nat)

  // What is asked of the loopback origin.
  datatype Forwarded = Forwarded(verb: string, target: string, headers: seq<Header>, body: seq<byte>)

  predicate HasDots(s: string)
  {
    exists i :: 0 <= i < |s| - 1 && s[i] == '.' && s[i + 1] == '.'
  }

  function ValidTarget(target: string): Result<string, Refused>
  {
    if !("/" <= target) then Err(NoLeadingSlash)
    else if "//" <= target then Err(NamesHost)
    else if HasDots(target) || '\\' in target then Err(Traversal)
    else if '\r' in target || '\n' in target || ' ' in target then Err(Whitespace)
    else Ok(target)
  }

  // Unicode white space.
  predicate IsWhite(c: char)
  {
    || '\t' <= c <= '\r' || c == ' ' || c == '\U{0085}' || c == '\U{00A0}' || c == '\U{1680}' || '\U{2000}' <= c <= '\U{200A}'
    || c == '\U{2028}' || c == '\U{2029}' || c == '\U{202F}' || c == '\U{205F}' || c == '\U{3000}'
  }

  function TrimStart(s: string): string
  {
    if s != "" && IsWhite(s[0]) then TrimStart(s[1..]) else s
  }

  function TrimEnd(s: string): string
  {
    if s != "" && IsWhite(s[|s| - 1]) then TrimEnd(s[..|s| - 1]) else s
  }

  // An unsigned 64-bit number in decimal; a plus sign in front is allowed.
  function ParseSize(s: string): Option<nat>
  {
    var digits := if "+" <= s then s[1..] else s;
    if digits == "" || !Decimal.AllDigits(digits) || Decimal.Value(digits) >= U64 then None
    else
      ValueOfDigits(digits);
      Some(Decimal.Value(digits))
  }

  lemma {:induction false} ValueOfDigits(digits: string)
    requires Decimal.AllDigits(digits)
    ensures Decimal.Value(digits) >= 0
  {
    if digits != "" {
      ValueOfDigits(digits[..|digits| - 1]);
    }
  }

  // The body counts only when its length is declared, and the last declaration has to be its length.
  function RequestBody(headers: seq<Header>, body: seq<byte>): Result<seq<byte>, Refused>
  {
    var found := HeaderMap(headers);
    var name := ProxyReader.Exact(CONTENT_LENGTH);
    if name !in found then Ok([])
    else
      MapKeysAreText(headers, name);
      var declared := found[name].text;
      match ParseSize(TrimEnd(TrimStart(declared)))
      case None => Err(NotANumber(declared))
      case Some(size) => if size != |body| then Err(WrongSize(size, |body|)) else Ok(body)
  }

  function Performed(r: Request): Result<Forwarded, Refused>
  {
    var target :- ValidTarget(r.target);
    var body :- RequestBody(r.headers, r.body);
    Ok(Forwarded(r.verb, target, r.headers, body))
  }

  // ------------------------------------------------------ what a value declares

  predicate AllWhite(s: string)
  {
    forall i :: 0 <= i < |s| ==> IsWhite(s[i])
  }

  predicate Writes(s: string, n: nat)
  {
    var digits := if "+" <= s then s[1..] else s;
    digits != "" && Decimal.AllDigits(digits) && Decimal.Value(digits) == n
  }

  // White space, then digits that write the number, perhaps behind a plus sign, then white space.
  ghost predicate Declares(value: string, n: nat)
  {
    exists i, j :: 0 <= i <= j <= |value| && AllWhite(value[..i]) && Writes(value[i..j], n) && AllWhite(value[j..])
  }

  lemma {:induction false} StartTrimmed(s: string) returns (i: nat)
    ensures i <= |s| && TrimStart(s) == s[i..] && AllWhite(s[..i])
  {
    i := 0;
    if s != "" && IsWhite(s[0]) {
      i := StartTrimmed(s[1..]);
      i := i + 1;
      assert forall k :: 1 <= k < i ==> s[k] == s[1..][..i - 1][k - 1];
    }
  }

  lemma {:induction false} EndTrimmed(s: string) returns (j: nat)
    ensures j <= |s| && TrimEnd(s) == s[..j] && AllWhite(s[j..])
  {
    j := |s|;
    if s != "" && IsWhite(s[|s| - 1]) {
      var n := |s| - 1;
      j := EndTrimmed(s[..n]);
      assert forall k :: j <= k < n ==> s[k] == s[..n][j..][k - j];
    }
  }

  lemma {:induction false} StartTrimmedTo(s: string, i: nat)
    requires i < |s| && AllWhite(s[..i]) && !IsWhite(s[i])
    ensures TrimStart(s) == s[i..]
  {
    if i > 0 {
      assert IsWhite(s[..i][0]);
      assert s[1..][..i - 1] == s[..i][1..];
      StartTrimmedTo(s[1..], i - 1);
    }
  }

  lemma {:induction false} EndTrimmedTo(s: string, j: nat)
    requires 0 < j <= |s| && AllWhite(s[j..]) && !IsWhite(s[j - 1])
    ensures TrimEnd(s) == s[..j]
  {
    var n := |s| - 1;
    if j <= n {
      assert IsWhite(s[j..][n - j]);
      assert s[..n][j..] == s[j..][..n - j];
      EndTrimmedTo(s[..n], j);
    }
  }

  lemma WritesNoWhite(s: string, n: nat)
    requires Writes(s, n)
    ensures s != "" && !IsWhite(s[0]) && !IsWhite(s[|s| - 1])
  {
    assert "+" <= s ==> s[|s| - 1] == s[1..][|s| - 2];
  }

  lemma TrimmedBetween(value: string) returns (i: nat, j: nat)
    ensures i <= j <= |value| && TrimEnd(TrimStart(value)) == value[i..j] && AllWhite(value[..i]) && AllWhite(value[j..])
  {
    i := StartTrimmed(value);
    var k := EndTrimmed(value[i..]);
    j := i + k;
    assert value[i..][..k] == value[i..j] && value[i..][k..] == value[j..];
  }

  lemma TrimmedTo(value: string, i: nat, j: nat)
    requires i < j <= |value| && AllWhite(value[..i]) && AllWhite(value[j..])
    requires !IsWhite(value[i]) && !IsWhite(value[j - 1])
    ensures TrimEnd(TrimStart(value)) == value[i..j]
  {
    StartTrimmedTo(value, i);
    var rest := value[i..];
    assert rest[j - i..] == value[j..] && rest[..j - i] == value[i..j] && rest[j - i - 1] == value[j - 1];
    EndTrimmedTo(rest, j - i);
  }

  lemma ParsesIff(s: string, n: nat)
    ensures ParseSize(s) == Some(n) <==> Writes(s, n) && n < U64
  {}

  lemma EndsOfSlice(s: string, i: nat, j: nat)
    requires i < j <= |s|
    ensures s[i..j][0] == s[i] && s[i..j][j - i - 1] == s[j - 1]
  {}

  lemma TrimmedToWord(value: string, i: nat, j: nat, word: string)
    requires i <= j <= |value| && word == value[i..j] && AllWhite(value[..i]) && AllWhite(value[j..])
    requires word != "" && !IsWhite(word[0]) && !IsWhite(word[|word| - 1])
    ensures TrimEnd(TrimStart(value)) == word
  {
    EndsOfSlice(value, i, j);
    TrimmedTo(value, i, j);
  }

  lemma DeclarationParses(value: string, n: nat)
    requires Declares(value, n) && n < U64
    ensures ParseSize(TrimEnd(TrimStart(value))) == Some(n)
  {
    var i, j :| 0 <= i <= j <= |value| && AllWhite(value[..i]) && Writes(value[i..j], n) && AllWhite(value[j..]);
    WritesNoWhite(value[i..j], n);
    ParsesIff(value[i..j], n);
    TrimmedToWord(value, i, j, value[i..j]);
  }

  lemma ParsedDeclares(value: string, n: nat)
    requires ParseSize(TrimEnd(TrimStart(value))) == Some(n)
    ensures Declares(value, n) && n < U64
  {
    var i, j := TrimmedBetween(value);
    ParsesIff(value[i..j], n);
  }

  // The daemon reads exactly the 64-bit numbers that a value declares.
  lemma DeclaredIff(value: string, n: nat)
    ensures ParseSize(TrimEnd(TrimStart(value))) == Some(n) <==> Declares(value, n) && n < U64
  {
    if Declares(value, n) && n < U64 {
      DeclarationParses(value, n);
    }
    if ParseSize(TrimEnd(TrimStart(value))) == Some(n) {
      ParsedDeclares(value, n);
    }
  }

  // ------------------------------------------------------------ the body check

  lemma LengthDecides(headers: seq<Header>, body: seq<byte>, i: nat)
    requires i < |headers| && Lower(headers[i].0) == CONTENT_LENGTH && IsLast(headers, i) && |body| < U64
    ensures RequestBody(headers, body) == Ok(body) <==> Declares(headers[i].1, |body|)
    ensures RequestBody(headers, body).Err? <==> !Declares(headers[i].1, |body|)
  {
    MapValue(headers, i);
    DeclaredIff(headers[i].1, |body|);
  }

  lemma NoLengthNoBody(headers: seq<Header>, body: seq<byte>)
    requires !NamesLength(headers)
    ensures RequestBody(headers, body) == Ok([])
  {
    MapKeys(headers, CONTENT_LENGTH);
  }

  // A refusal says which declaration was not a number, or what was declared and what arrived.
  lemma LengthRefused(headers: seq<Header>, body: seq<byte>, i: nat, n: nat)
    requires i < |headers| && Lower(headers[i].0) == CONTENT_LENGTH && IsLast(headers, i)
    ensures RequestBody(headers, body) == Err(NotANumber(headers[i].1)) <==> NoSize(headers[i].1)
    ensures RequestBody(headers, body) == Err(WrongSize(n, |body|)) <==> Declares(headers[i].1, n) && n < U64 && n != |body|
  {
    MapValue(headers, i);
    DeclaredIff(headers[i].1, n);
    NoSizeIff(headers[i].1);
  }

  ghost predicate NoSize(value: string)
  {
    forall n: nat :: n < U64 ==> !Declares(value, n)
  }

  lemma NoSizeIff(value: string)
    ensures ParseSize(TrimEnd(TrimStart(value))) == None <==> NoSize(value)
  {
    var size := ParseSize(TrimEnd(TrimStart(value)));
    if size.Some? {
      DeclaredIff(value, size.value);
    }
    forall n: nat | n < U64 && size == None ensures !Declares(value, n) {
      DeclaredIff(value, n);
    }
  }

  // ----------------------------------------------------------- from end to end

  // The browser's requests arrive with the caller's headers, and behind them, exactly when there is a body and
  // no header names a length, one more that writes the size of the body in digits.
  lemma SentHeaders(r: Request)
    requires RequestFits(Normalized(r))
    ensures (var got := RequestOf(Decoded(RequestBytes(Normalized(r))));
             && got.Some? && got.value.id == r.id && got.value.verb == r.verb && got.value.target == r.target && got.value.body == r.body
             && r.headers <= got.value.headers
             && (r.body == [] || NamesLength(r.headers) ==> got.value.headers == r.headers)
             && (r.body != [] && !NamesLength(r.headers) ==>
                   && |got.value.headers| == |r.headers| + 1
                   && got.value.headers[|r.headers|].0 == "content-length"
                   && (var size := got.value.headers[|r.headers|].1;
                       size != "" && Decimal.AllDigits(size) && Decimal.Value(size) == |r.body|)))
  {
    RequestArrivesIff(Normalized(r));
    Decimal.PaddedReadsBack(|r.body|, 1);
    Decimal.PaddedDigits(|r.body|, 1);
  }

  lemma DigitsDeclare(size: string, n: nat)
    requires size != "" && Decimal.AllDigits(size) && Decimal.Value(size) == n
    ensures Declares(size, n)
  {
    assert size[0..|size|] == size && size[0] != '+';
    assert Writes(size[0..|size|], n);
  }

  // The last of the headers that name a length.
  lemma LastLength(headers: seq<Header>) returns (i: nat)
    requires NamesLength(headers)
    ensures i < |headers| && IsLast(headers, i) && Lower(headers[i].0) == CONTENT_LENGTH
  {
    var j :| 0 <= j < |headers| && Lower(headers[j].0) == CONTENT_LENGTH;
    i := LastOf(headers, j);
  }

  // All the headers of a request that goes out.
  predicate WithLength(all: seq<Header>, headers: seq<Header>, body: seq<byte>)
  {
    if body == [] || NamesLength(headers) then all == headers
    else
      && headers <= all && |all| == |headers| + 1 && Lower(all[|headers|].0) == CONTENT_LENGTH
      && all[|headers|].1 != "" && Decimal.AllDigits(all[|headers|].1) && Decimal.Value(all[|headers|].1) == |body|
  }

  lemma OwnLengthIsRight(all: seq<Header>, headers: seq<Header>, body: seq<byte>)
    requires WithLength(all, headers, body) && !NamesLength(headers) && |body| < U64
    ensures RequestBody(all, body) == Ok(body)
  {
    if body == [] {
      NoLengthNoBody(all, body);
    } else {
      DigitsDeclare(all[|headers|].1, |body|);
      LengthDecides(all, body, |headers|);
    }
  }

  lemma BodyTakenIff(all: seq<Header>, headers: seq<Header>, body: seq<byte>)
    requires WithLength(all, headers, body) && |body| < U64
    ensures RequestBody(all, body).Ok? <==> LengthIsRight(headers, body)
    ensures RequestBody(all, body).Ok? ==> RequestBody(all, body).value == body
  {
    if NamesLength(headers) {
      var i := LastLength(headers);
      LengthDecides(headers, body, i);
      OnlyLastLength(headers, body, i);
    } else {
      OwnLengthIsRight(all, headers, body);
    }
  }

  lemma TargetPassesIff(target: string)
    ensures ValidTarget(target).Ok? <==> PlainTarget(target)
    ensures ValidTarget(target).Ok? ==> ValidTarget(target).value == target
  {}

  lemma LengthAdded(r: Request)
    ensures WithLength(Normalized(r).headers, r.headers, r.body)
  {
    Decimal.PaddedReadsBack(|r.body|, 1);
    Decimal.PaddedDigits(|r.body|, 1);
    assert Lower("content-length") == CONTENT_LENGTH;
  }

  lemma SentWithLength(r: Request)
    requires RequestFits(Normalized(r))
    ensures (var got := RequestOf(Decoded(RequestBytes(Normalized(r))));
             got.Some? && got.value == r.(headers := got.value.headers) && WithLength(got.value.headers, r.headers, r.body))
  {
    RequestArrivesIff(Normalized(r));
    LengthAdded(r);
  }

  // Without a length of the caller's own the daemon takes the body as it was given to the encoder.
  lemma SentBodyIsTaken(r: Request)
    requires RequestFits(Normalized(r)) && !NamesLength(r.headers)
    ensures (var got := RequestOf(Decoded(RequestBytes(Normalized(r))));
             got.Some? && RequestBody(got.value.headers, got.value.body) == Ok(r.body))
  {
    SentWithLength(r);
    OwnLengthIsRight(RequestOf(Decoded(RequestBytes(Normalized(r)))).value.headers, r.headers, r.body);
  }

  // A path of its own origin, without what could be read as another line or another way to write a slash.
  predicate PlainTarget(target: string)
  {
    OriginForm(target) && forall i :: 0 <= i < |target| ==> target[i] != '\\' && target[i] != '\r' && target[i] != '\n' && target[i] != ' '
  }

  // The caller's own declaration, if there is one, is right.
  ghost predicate LengthIsRight(headers: seq<Header>, body: seq<byte>)
  {
    forall i: nat :: i < |headers| && IsLast(headers, i) && Lower(headers[i].0) == CONTENT_LENGTH ==> Declares(headers[i].1, |body|)
  }

  // Of the requests the encoder accepts the daemon performs exactly those with a plain target and, where the
  // caller names a length, the right one; and what it performs is what the caller asked for.
  lemma PerformedIff(r: Request)
    requires RequestFits(Normalized(r))
    ensures (var got := RequestOf(Decoded(RequestBytes(Normalized(r))));
             && got.Some?
             && (Performed(got.value).Ok? <==> PlainTarget(r.target) && LengthIsRight(r.headers, r.body))
             && (Performed(got.value).Ok? ==> Performed(got.value).value == Forwarded(r.verb, r.target, got.value.headers, r.body)))
  {
    SentWithLength(r);
    BodyTakenIff(RequestOf(Decoded(RequestBytes(Normalized(r)))).value.headers, r.headers, r.body);
    TargetPassesIff(r.target);
  }

  lemma OnlyLastLength(headers: seq<Header>, body: seq<byte>, i: nat)
    requires i < |headers| && IsLast(headers, i) && Lower(headers[i].0) == CONTENT_LENGTH
    ensures LengthIsRight(headers, body) <==> Declares(headers[i].1, |body|)
  {
    forall j: nat | j < |headers| && IsLast(headers, j) && Lower(headers[j].0) == CONTENT_LENGTH ensures j == i {
    }
  }
}
