// UTF-8, and the TextDecoder of the browser: it drops a leading byte order mark.
module Utf8 {
  import opened Results
  import opened LittleEndian

  // The bytes of an ASCII text, one per character.
  function Ascii(text: string): (b: seq<byte>)
    ensures |b| == |text|
  {
    seq(|text|, i requires 0 <= i < |text| => (text[i] as int) % 128)
  }

  function EncodeChar(c: char): (b: seq<byte>)
    ensures 1 <= |b| <= 4
  {
    var n := c as int;
    if n < 0x80 then [n]
    else if n < 0x800 then [0xc0 + n / 0x40, 0x80 + n % 0x40]
    else if n < 0x1_0000 then [0xe0 + n / 0x1000, 0x80 + n / 0x40 % 0x40, 0x80 + n % 0x40]
    else [0xf0 + n / 0x4_0000, 0x80 + n / 0x1000 % 0x40, 0x80 + n / 0x40 % 0x40, 0x80 + n % 0x40]
  }

  function Encode(s: string): seq<byte>
  {
    if s == "" then [] else EncodeChar(s[0]) + Encode(s[1..])
  }

  // How many bytes a character takes, by its first byte.
  function Width(first: byte): nat
  {
    if first < 0x80 then 1 else if first < 0xe0 then 2 else if first < 0xf0 then 3 else 4
  }

  // The number that the first bytes spell.
  function Spelled(b: seq<byte>): int
    requires b != [] && Width(b[0]) <= |b|
  {
    var w := Width(b[0]);
    var first := b[0] as int;
    if w == 1 then first
    else if w == 2 then (first - 0xc0) * 0x40 + Low(b[1])
    else if w == 3 then (first - 0xe0) * 0x1000 + Low(b[1]) * 0x40 + Low(b[2])
    else (first - 0xf0) * 0x4_0000 + Low(b[1]) * 0x1000 + Low(b[2]) * 0x40 + Low(b[3])
  }

  // The bits a continuation byte carries.
  function Low(b: byte): int
  {
    b as int - 0x80
  }

  predicate Scalar(n: int)
  {
    0 <= n < 0xd800 || 0xe000 <= n < 0x11_0000
  }

  // The first character, if the bytes are its one proper encoding.
  function FirstChar(b: seq<byte>): Option<char>
    requires b != []
  {
    if |b| < Width(b[0]) || !Scalar(Spelled(b)) then None
    else
      var c := Spelled(b) as char;
      if EncodeChar(c) <= b then Some(c) else None
  }

  // Well-formed bytes as text. Ill-formed ones have no exact text.
  function Decode(b: seq<byte>): Option<string>
  {
    if b == [] then Some("")
    else
      match FirstChar(b)
      case None => None
      case Some(c) =>
        var rest := Decode(b[|EncodeChar(c)|..]);
        if rest.None? then None else Some([c] + rest.value)
  }

  lemma EncodedIsSpelled(c: char)
    ensures Width(EncodeChar(c)[0]) == |EncodeChar(c)| && Spelled(EncodeChar(c)) == c as int
  {
    var n := c as int;
    SixBits(n);
    SixBits(n / 0x40);
    SixBits(n / 0x1000);
    if n >= 0x1_0000 {
      FourBytes(n, EncodeChar(c));
    } else if n >= 0x800 {
      ThreeBytes(n, EncodeChar(c));
    }
  }

  lemma SixBits(n: nat)
    ensures n == n / 0x40 * 0x40 + n % 0x40
  {}

  lemma ThreeBytes(n: nat, b: seq<byte>)
    requires 0x800 <= n < 0x1_0000 && b == [0xe0 + n / 0x1000, 0x80 + n / 0x40 % 0x40, 0x80 + n % 0x40]
    ensures Width(b[0]) == 3 && Spelled(b) == n
  {
    assert n / 0x40 / 0x40 == n / 0x1000;
  }

  lemma FourBytes(n: nat, b: seq<byte>)
    requires 0x1_0000 <= n < 0x11_0000
    requires b == [0xf0 + n / 0x4_0000, 0x80 + n / 0x1000 % 0x40, 0x80 + n / 0x40 % 0x40, 0x80 + n % 0x40]
    ensures Width(b[0]) == 4 && Spelled(b) == n
  {
    assert n / 0x40 / 0x40 == n / 0x1000 && n / 0x1000 / 0x40 == n / 0x4_0000;
  }

  lemma FirstCharOfEncoded(c: char, rest: seq<byte>)
    ensures FirstChar(EncodeChar(c) + rest) == Some(c)
  {
    var b := EncodeChar(c) + rest;
    EncodedIsSpelled(c);
    assert forall i :: 0 <= i < |EncodeChar(c)| ==> b[i] == EncodeChar(c)[i];
    assert Spelled(b) == Spelled(EncodeChar(c));
  }

  lemma {:induction false} DecodeEncode(s: string)
    ensures Decode(Encode(s)) == Some(s)
  {
    if s != "" {
      var rest := Encode(s[1..]);
      FirstCharOfEncoded(s[0], rest);
      DecodeEncode(s[1..]);
      assert (EncodeChar(s[0]) + rest)[|EncodeChar(s[0])|..] == rest;
      assert [s[0]] + s[1..] == s;
    }
  }

  // The decoder is strict: what it reads is the encoding of the text.
  lemma {:induction false} EncodeDecode(b: seq<byte>)
    requires Decode(b).Some?
    ensures Encode(Decode(b).value) == b
    decreases |b|
  {
    if b != [] {
      var c, rest := DecodeFirst(b);
      EncodeDecode(rest);
      EncodeFirst(c, Decode(rest).value);
    }
  }

  lemma DecodeFirst(b: seq<byte>) returns (c: char, rest: seq<byte>)
    requires b != [] && Decode(b).Some?
    ensures b == EncodeChar(c) + rest && |rest| < |b|
    ensures Decode(rest).Some? && Decode(b).value == [c] + Decode(rest).value
  {
    c := FirstChar(b).value;
    rest := b[|EncodeChar(c)|..];
    PrefixAndRest(EncodeChar(c), b);
  }

  lemma PrefixAndRest(p: seq<byte>, b: seq<byte>)
    requires p <= b
    ensures b == p + b[|p|..]
  {}

  lemma EncodeFirst(c: char, rest: string)
    ensures Encode([c] + rest) == EncodeChar(c) + Encode(rest)
  {
    assert ([c] + rest)[1..] == rest;
  }

  const BOM: char := '\U{FEFF}'

  // What `new TextDecoder().decode` gives for well-formed bytes.
  function TextDecoded(b: seq<byte>): Option<string>
  {
    if EncodeChar(BOM) <= b then Decode(b[3..]) else Decode(b)
  }

  lemma StartsWithBom(s: string)
    requires s != ""
    ensures EncodeChar(BOM) <= Encode(s) <==> s[0] == BOM
  {
    FirstCharOfEncoded(s[0], Encode(s[1..]));
    if EncodeChar(BOM) <= Encode(s) {
      var rest := Encode(s)[|EncodeChar(BOM)|..];
      assert Encode(s) == EncodeChar(BOM) + rest;
      FirstCharOfEncoded(BOM, rest);
    }
  }

  // Text survives the encoder and the decoder exactly when it does not start with U+FEFF.
  lemma TextSurvivesIff(s: string)
    ensures TextDecoded(Encode(s)) == Some(s) <==> !(s != "" && s[0] == BOM)
  {
    DecodeEncode(s);
    if s != "" {
      StartsWithBom(s);
      if s[0] == BOM {
        assert Encode(s)[3..] == Encode(s[1..]);
        DecodeEncode(s[1..]);
      }
    }
  }
}
