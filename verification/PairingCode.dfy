// The displayed form of a pairing code: the renderers and parsers of the daemon
// (crates/dr-dsh-crypto/src/lib.rs, crates/dr-dsh-daemon/src/pairing.rs) and of the browser
// (apps/pwa/src/pairing.ts), and the classifier in front of them (apps/pwa/src/credential.ts).
// Text is ASCII: beyond it the two languages change case differently.
module PairingCode {
  import opened Results
  import opened LittleEndian

  const ALPHABET: string := "0123456789ABCDEFGHJKMNPQRSTVWXYZ"
  const SECRET_LEN: nat := 5

  // Five bits, the number of a symbol.
  type five = x: int | 0 <= x < 32

  predicate Ascii(text: string)
  {
    forall i :: 0 <= i < |text| ==> text[i] < 128 as char
  }

  // --------------------------------------------------------------- characters

  predicate Separator(c: char)
  {
    c == '-' || c == ' ' || ('\t' <= c <= '\r')
  }

  function Upper(c: char): char
  {
    if 'a' <= c <= 'z' then (c as int - 32) as char else c
  }

  // The characters the alphabet omits, read as those they look like.
  function Folded(c: char): char
  {
    if c == 'I' || c == 'L' then '1' else if c == 'O' then '0' else if c == 'U' then 'V' else c
  }

  // The symbol with a number, and the number of a symbol.
  function SymbolOf(i: five): char
  {
    if i < 10 then '0' + i as char
    else if i < 18 then 'A' + (i - 10) as char
    else if i < 20 then 'J' + (i - 18) as char
    else if i < 22 then 'M' + (i - 20) as char
    else if i < 27 then 'P' + (i - 22) as char
    else 'V' + (i - 27) as char
  }

  function Index(c: char): Option<five>
  {
    if '0' <= c <= '9' then Some(c as int - '0' as int)
    else if 'A' <= c <= 'H' then Some(c as int - 'A' as int + 10)
    else if 'J' <= c <= 'K' then Some(c as int - 'J' as int + 18)
    else if 'M' <= c <= 'N' then Some(c as int - 'M' as int + 20)
    else if 'P' <= c <= 'T' then Some(c as int - 'P' as int + 22)
    else if 'V' <= c <= 'Z' && c != 'U' then Some(c as int - 'V' as int + 27)
    else None
  }

  // These are the symbols of the alphabet, in its order.
  lemma SymbolsAreTheAlphabet(i: five)
    ensures |ALPHABET| == 32 && ALPHABET[i] == SymbolOf(i)
  {}

  lemma IndexOfSymbol(i: five)
    ensures Index(SymbolOf(i)) == Some(i)
    ensures Folded(Upper(SymbolOf(i))) == SymbolOf(i) && !Separator(SymbolOf(i)) && SymbolOf(i) < 128 as char
  {}

  lemma SymbolOfIndex(c: char)
    requires Index(c).Some?
    ensures SymbolOf(Index(c).value) == c && Folded(Upper(c)) == c && !Separator(c)
  {}

  // ------------------------------------------------------------ the meaning

  // The symbols of a text: separators dropped, case and look-alikes folded.
  function Symbols(text: string): string
  {
    if text == "" then ""
    else
      var c := text[|text| - 1];
      Symbols(text[..|text| - 1]) + if Separator(c) then "" else [Folded(Upper(c))]
  }

  // The numbers of the symbols, if all of them are in the alphabet.
  function Numbers(symbols: string): (r: Option<seq<five>>)
    ensures r.Some? ==> |r.value| == |symbols|
  {
    if symbols == "" then Some([])
    else
      var front, last := Numbers(symbols[..|symbols| - 1]), Index(symbols[|symbols| - 1]);
      if front.None? || last.None? then None else Some(front.value + [last.value])
  }

  // Five bits from the first symbol and three from the second; the two top bits of the second are lost.
  function Packed(low: five, high: five): byte
  {
    low + high * 32 % 256
  }

  function Bytes(numbers: seq<five>): (r: seq<byte>)
    ensures |r| == |numbers| / 2
  {
    if |numbers| < 2 then []
    else [Packed(numbers[0], numbers[1])] + Bytes(numbers[2..])
  }

  // What a text says: five bytes, or nothing.
  function Parsed(text: string): Option<seq<byte>>
  {
    var numbers := Numbers(Symbols(text));
    if numbers.Some? && |numbers.value| == 2 * SECRET_LEN then Some(Bytes(numbers.value)) else None
  }

  // The displayed form, a dash before every second byte but the first.
  function Displayed(secret: seq<byte>): string
  {
    if secret == [] then ""
    else
      var n := |secret| - 1;
      Displayed(secret[..n]) + (if n > 0 && n % 2 == 0 then "-" else "") + Pair(secret[n])
  }

  function Pair(b: byte): string
  {
    [SymbolOf(b % 32), SymbolOf(b / 32)]
  }

  lemma {:induction false} SymbolsAppend(a: string, b: string)
    ensures Symbols(a + b) == Symbols(a) + Symbols(b)
  {
    if b == "" {
      assert a + b == a;
    } else {
      var n := |b| - 1;
      SymbolsAppend(a, b[..n]);
      assert (a + b)[..|a + b| - 1] == a + b[..n];
    }
  }

  lemma {:induction false} NumbersAppend(a: string, b: string)
    ensures Numbers(a + b) == (if Numbers(a).None? || Numbers(b).None? then None else Some(Numbers(a).value + Numbers(b).value))
  {
    if b == "" {
      assert a + b == a;
      assert Numbers(a).Some? ==> Numbers(a).value + [] == Numbers(a).value;
    } else {
      var n := |b| - 1;
      NumbersAppend(a, b[..n]);
      assert (a + b)[..|a + b| - 1] == a + b[..n];
      if Numbers(a).Some? && Numbers(b).Some? {
        var x, y, z := Numbers(a).value, Numbers(b[..n]).value, [Index(b[n]).value];
        assert x + (y + z) == (x + y) + z;
      }
    }
  }

  lemma {:induction false} BytesAppend(a: seq<five>, b: seq<five>)
    requires |a| % 2 == 0
    ensures Bytes(a + b) == Bytes(a) + Bytes(b)
  {
    if a == [] {
      assert a + b == b;
    } else {
      var all := a + b;
      assert all[0] == a[0] && all[1] == a[1] && all[2..] == a[2..] + b;
      BytesAppend(a[2..], b);
      assert Bytes(all) == [Packed(a[0], a[1])] + Bytes(all[2..]);
    }
  }

  // ------------------------------------------------------------ round trips

  lemma PairSymbols(b: byte)
    ensures Symbols(Pair(b)) == Pair(b)
    ensures Numbers(Pair(b)) == Some([b % 32, b / 32])
  {
    IndexOfSymbol(b % 32);
    IndexOfSymbol(b / 32);
    OneSymbol(SymbolOf(b % 32));
    OneSymbol(SymbolOf(b / 32));
    assert Pair(b) == [SymbolOf(b % 32)] + [SymbolOf(b / 32)];
    SymbolsAppend([SymbolOf(b % 32)], [SymbolOf(b / 32)]);
    NumbersAppend([SymbolOf(b % 32)], [SymbolOf(b / 32)]);
    assert [b % 32] + [b / 32] == [b % 32, b / 32];
  }

  lemma OneSymbol(c: char)
    requires Index(c).Some?
    ensures Symbols([c]) == [c] && Numbers([c]) == Some([Index(c).value])
  {
    SymbolOfIndex(c);
    assert [c][..0] == "";
    assert Numbers([c]) == Some([] + [Index(c).value]);
    assert [] + [Index(c).value] == [Index(c).value];
  }

  lemma PairPacks(b: byte)
    ensures Bytes([b % 32, b / 32]) == [b]
  {
    TopBitsLost(b / 32);
    assert Packed(b % 32, b / 32) == b;
    assert [b % 32, b / 32][2..] == [];
  }

  // A group adds its pair, with or without a dash before it.
  lemma PairAppended(text: string, n: nat, b: byte)
    ensures Symbols(text + (if n > 0 && n % 2 == 0 then "-" else "") + Pair(b)) == Symbols(text) + Pair(b)
  {
    var dash := if n > 0 && n % 2 == 0 then "-" else "";
    PairSymbols(b);
    DashIsNothing(dash);
    SymbolsAppend(text, dash);
    SymbolsAppend(text + dash, Pair(b));
    assert Symbols(text) + "" == Symbols(text);
  }

  lemma ReadingExtends(front: string, b: byte)
    requires Numbers(front).Some? && |front| % 2 == 0
    ensures Numbers(front + Pair(b)).Some?
    ensures Bytes(Numbers(front + Pair(b)).value) == Bytes(Numbers(front).value) + [b]
  {
    PairSymbols(b);
    PairPacks(b);
    NumbersAppend(front, Pair(b));
    BytesAppend(Numbers(front).value, [b % 32, b / 32]);
  }

  lemma {:induction false} DisplayedReadsBack(secret: seq<byte>)
    ensures |Symbols(Displayed(secret))| == 2 * |secret| && Numbers(Symbols(Displayed(secret))).Some?
    ensures Bytes(Numbers(Symbols(Displayed(secret))).value) == secret
  {
    if secret != [] {
      var n := |secret| - 1;
      DisplayedReadsBack(secret[..n]);
      PairAppended(Displayed(secret[..n]), n, secret[n]);
      ReadingExtends(Symbols(Displayed(secret[..n])), secret[n]);
      assert secret[..n] + [secret[n]] == secret;
    }
  }

  lemma DashIsNothing(dash: string)
    requires dash == "" || dash == "-"
    ensures Symbols(dash) == ""
  {
    if dash == "-" {
      assert dash[..0] == "";
    }
  }

  // Where the symbols of a byte stand, with the dashes before it.
  function PlaceOf(k: nat): nat
  {
    2 * k + k / 2
  }

  lemma {:induction false} DisplayedLength(secret: seq<byte>)
    requires secret != []
    ensures |Displayed(secret)| == PlaceOf(|secret| - 1) + 2
  {
    var n := |secret| - 1;
    if n > 0 {
      DisplayedLength(secret[..n]);
      assert PlaceOf(n) == PlaceOf(n - 1) + 2 + if n % 2 == 0 then 1 else 0;
    }
  }

  // The place of the last byte.
  lemma LastDisplayed(secret: seq<byte>)
    requires secret != []
    ensures (var s, n := Displayed(secret), |secret| - 1;
             && PlaceOf(n) + 1 < |s| && s[PlaceOf(n)] == SymbolOf(secret[n] % 32) && s[PlaceOf(n) + 1] == SymbolOf(secret[n] / 32)
             && (n > 0 && n % 2 == 0 ==> s[PlaceOf(n) - 1] == '-')
             && (n > 0 ==> Displayed(secret[..n]) <= s))
  {
    var n := |secret| - 1;
    DisplayedLength(secret);
    AtTheEnd(Displayed(secret[..n]), if n > 0 && n % 2 == 0 then "-" else "", SymbolOf(secret[n] % 32), SymbolOf(secret[n] / 32));
  }

  lemma AtTheEnd(front: string, dash: string, a: char, b: char)
    ensures (var s := front + dash + [a, b];
             s[|s| - 2] == a && s[|s| - 1] == b && front <= s && (|dash| == 1 ==> s[|s| - 3] == dash[0]))
  {}

  lemma {:induction false} DisplayedAt(secret: seq<byte>, k: nat)
    requires k < |secret|
    ensures PlaceOf(k) + 1 < |Displayed(secret)|
    ensures Displayed(secret)[PlaceOf(k)] == SymbolOf(secret[k] % 32) && Displayed(secret)[PlaceOf(k) + 1] == SymbolOf(secret[k] / 32)
    ensures k > 0 && k % 2 == 0 ==> Displayed(secret)[PlaceOf(k) - 1] == '-'
    decreases |secret|
  {
    var n := |secret| - 1;
    LastDisplayed(secret);
    if k < n {
      DisplayedAt(secret[..n], k);
      assert secret[..n][k] == secret[k];
      PrefixAt(Displayed(secret[..n]), Displayed(secret), PlaceOf(k));
      PrefixAt(Displayed(secret[..n]), Displayed(secret), PlaceOf(k) + 1);
      if k > 0 {
        PrefixAt(Displayed(secret[..n]), Displayed(secret), PlaceOf(k) - 1);
      }
    }
  }

  lemma PrefixAt(front: string, s: string, i: nat)
    requires front <= s && i < |front|
    ensures s[i] == front[i]
  {}

  // Displayed codes have two symbols of the alphabet for each byte, the low five bits first, and a dash before
  // every second byte but the first.
  lemma DisplayedShape(secret: seq<byte>, k: nat)
    requires k < |secret|
    ensures (var s := Displayed(secret);
             && |s| == PlaceOf(|secret| - 1) + 2 && PlaceOf(k) + 1 < |s|
             && s[PlaceOf(k)] == ALPHABET[secret[k] % 32] && s[PlaceOf(k) + 1] == ALPHABET[secret[k] / 32]
             && (k > 0 && k % 2 == 0 ==> s[PlaceOf(k) - 1] == '-'))
  {
    DisplayedLength(secret);
    DisplayedAt(secret, k);
    SymbolsAreTheAlphabet(secret[k] % 32);
    SymbolsAreTheAlphabet(secret[k] / 32);
  }

  // Parsing inverts displaying, for every secret.
  lemma ParseInvertsDisplay(secret: seq<byte>)
    requires |secret| == SECRET_LEN
    ensures Parsed(Displayed(secret)) == Some(secret)
  {
    DisplayedReadsBack(secret);
  }

  // A text keeps its meaning when a separator is put in or left out anywhere ...
  lemma SeparatorsDoNotMatter(a: string, c: char, b: string)
    requires Separator(c)
    ensures Parsed(a + [c] + b) == Parsed(a + b)
  {
    SymbolsAppend(a + [c], b);
    SymbolsAppend(a, [c]);
    SymbolsAppend(a, b);
    assert [c][..0] == "";
    assert Symbols(a + [c]) == Symbols(a);
  }

  // ... and when any character is replaced by one that differs in case or looks alike.
  lemma SpellingDoesNotMatter(a: string, c: char, d: char, b: string)
    requires !Separator(c) && !Separator(d) && Folded(Upper(c)) == Folded(Upper(d))
    ensures Parsed(a + [c] + b) == Parsed(a + [d] + b)
  {
    SymbolsAppend(a + [c], b);
    SymbolsAppend(a, [c]);
    SymbolsAppend(a + [d], b);
    SymbolsAppend(a, [d]);
    assert [c][..0] == "" && [d][..0] == "";
  }

  // So whatever text has the symbols of a displayed code means that code.
  lemma AnySpellingOfADisplay(secret: seq<byte>, text: string)
    requires |secret| == SECRET_LEN && Symbols(text) == Symbols(Displayed(secret))
    ensures Parsed(text) == Some(secret)
  {
    ParseInvertsDisplay(secret);
  }

  // In particular a look-alike may stand for the symbol it resembles, anywhere and in either case.
  lemma LookAlikesRead(a: string, c: char, b: string)
    requires c in "iIlLoOuU"
    ensures Parsed(a + [c] + b) == Parsed(a + (if c in "iIlL" then "1" else if c in "oO" then "0" else "V") + b)
  {
    SpellingDoesNotMatter(a, c, if c in "iIlL" then '1' else if c in "oO" then '0' else 'V', b);
  }

  // Two pairs of symbols spell the same byte exactly when the first symbols agree and the second
  // ones agree modulo eight: every byte has four spellings.
  lemma SpellingsOfAByte(low: five, high: five, low': five, high': five)
    ensures Packed(low, high) == Packed(low', high') <==> low == low' && high % 8 == high' % 8
  {
    TopBitsLost(high);
    TopBitsLost(high');
  }

  lemma TopBitsLost(high: nat)
    ensures high * 32 % 256 == 32 * (high % 8)
  {
    assert high * 32 == 256 * (high / 8) + 32 * (high % 8);
  }

  // ---------------------------------------------------------------- the code

  datatype CodeError = OddSymbols | NotInAlphabet(character: char) | WrongLength(bytes: nat)

  method PairingDisplay(bytes: seq<byte>) returns (rendered: string)
    ensures rendered == Displayed(bytes)
  {
    rendered := "";
    var index := 0;
    while index < |bytes|
      invariant 0 <= index <= |bytes|
      invariant rendered == Displayed(bytes[..index])
    {
      assert bytes[..index + 1][..index] == bytes[..index];
      if index > 0 && index % 2 == 0 {
        rendered := rendered + "-";
      }
      rendered := rendered + Pair(bytes[index]);
      index := index + 1;
    }
    assert bytes[..index] == bytes;
  }

  method IndexIn(character: char) returns (r: Result<five, CodeError>)
    ensures r == if Index(Folded(character)).Some? then Ok(Index(Folded(character)).value) else Err(NotInAlphabet(character))
  {
    var folded := if character == 'I' || character == 'L' then '1'
                  else if character == 'O' then '0'
                  else if character == 'U' then 'V' else character;
    var i := 0;
    while i < 32
      invariant 0 <= i <= 32
      invariant forall j :: 0 <= j < i ==> SymbolOf(j) != folded
    {
      if SymbolOf(i) == folded {
        IndexOfSymbol(i);
        return Ok(i);
      }
      i := i + 1;
    }
    if Index(folded).Some? {
      SymbolOfIndex(folded);
    }
    return Err(NotInAlphabet(character));
  }

  // The characters of a text that count, in upper case but not yet folded.
  function Capitals(text: string): string
  {
    if text == "" then ""
    else Capitals(text[..|text| - 1]) + if Separator(text[|text| - 1]) then "" else [Upper(text[|text| - 1])]
  }

  lemma {:induction false} CapitalsFold(text: string)
    ensures |Capitals(text)| == |Symbols(text)|
    ensures forall i :: 0 <= i < |Symbols(text)| ==> Symbols(text)[i] == Folded(Capitals(text)[i])
  {
    if text != "" {
      CapitalsFold(text[..|text| - 1]);
    }
  }

  // One unknown symbol makes the whole text unreadable.
  lemma {:induction false} UnknownSymbol(symbols: string, i: nat)
    requires i < |symbols| && Index(symbols[i]).None?
    ensures Numbers(symbols).None?
  {
    if i < |symbols| - 1 {
      UnknownSymbol(symbols[..|symbols| - 1], i);
    }
  }

  // The daemon's parser: the parity first, then the symbols pair by pair.
  method ParseDisplayedCode(text: string) returns (r: Result<seq<byte>, CodeError>)
    requires Ascii(text)
    ensures r.Ok? <==> Parsed(text).Some?
    ensures r.Ok? ==> Parsed(text) == Some(r.value)
    ensures r == Err(OddSymbols) <==> |Symbols(text)| % 2 == 1
  {
    var cleaned := Capitals(text);
    ghost var symbols := Symbols(text);
    CapitalsFold(text);
    if |cleaned| % 2 != 0 {
      return Err(OddSymbols);
    }
    var secret: seq<byte> := [];
    ghost var numbers: seq<five> := [];
    var i := 0;
    while i < |cleaned|
      invariant 0 <= i <= |cleaned| && i % 2 == 0
      invariant Numbers(symbols[..i]) == Some(numbers) && secret == Bytes(numbers)
    {
      var low := IndexIn(cleaned[i]);
      if low.Err? {
        UnknownSymbol(symbols, i);
        return Err(low.error);
      }
      var high := IndexIn(cleaned[i + 1]);
      if high.Err? {
        UnknownSymbol(symbols, i + 1);
        return Err(high.error);
      }
      NextPair(symbols, i, numbers, low.value, high.value);
      secret := secret + [Packed(low.value, high.value)];
      numbers := numbers + [low.value, high.value];
      i := i + 2;
    }
    assert symbols[..i] == symbols;
    if |secret| != SECRET_LEN {
      return Err(WrongLength(|cleaned| / 2));
    }
    return Ok(secret);
  }

  lemma NextPair(symbols: string, i: nat, numbers: seq<five>, low: five, high: five)
    requires i + 1 < |symbols| && i % 2 == 0 && Numbers(symbols[..i]) == Some(numbers)
    requires Index(symbols[i]) == Some(low) && Index(symbols[i + 1]) == Some(high)
    ensures Numbers(symbols[..i + 2]) == Some(numbers + [low, high])
    ensures Bytes(numbers + [low, high]) == Bytes(numbers) + [Packed(low, high)]
  {
    assert symbols[..i + 1][..i] == symbols[..i];
    assert symbols[..i + 2][..i + 1] == symbols[..i + 1];
    assert Numbers(symbols[..i + 1]) == Some(numbers + [low]);
    assert (numbers + [low]) + [high] == numbers + [low, high];
    BytesAppend(numbers, [low, high]);
  }

  lemma NextSymbol(text: string, i: nat)
    requires i < |text|
    ensures (var c, before := Upper(text[i]), Symbols(text[..i]);
             if c == '-' || Separator(c) then Symbols(text[..i + 1]) == before
             else
               && Symbols(text[..i + 1]) == before + [Folded(c)]
               && (Numbers(before).Some? && Index(Folded(c)).Some? ==> Numbers(before + [Folded(c)]).Some?)
               && (Index(Folded(c)).None? ==> Numbers(Symbols(text)).None?))
  {
    var c, before := Upper(text[i]), Symbols(text[..i]);
    assert text[..i + 1][..i] == text[..i];
    SeparatorsStay(text[i]);
    if !(c == '-' || Separator(c)) {
      assert (before + [Folded(c)])[..|before|] == before;
      assert text == text[..i + 1] + text[i + 1..];
      SymbolsAppend(text[..i + 1], text[i + 1..]);
      if Index(Folded(c)).None? {
        UnknownSymbol(Symbols(text), |before|);
      }
    }
  }

  // The browser's parser: the symbols first, then the parity, then the pairs.
  method ParsePairingCode(text: string) returns (r: Result<seq<byte>, CodeError>)
    requires Ascii(text)
    ensures r.Ok? <==> Parsed(text).Some?
    ensures r.Ok? ==> Parsed(text) == Some(r.value)
    ensures (r.Err? && r.error.NotInAlphabet?) <==> Numbers(Symbols(text)).None?
  {
    var cleaned := "";
    var i := 0;
    while i < |text|
      invariant 0 <= i <= |text|
      invariant cleaned == Symbols(text[..i]) && Numbers(cleaned).Some?
    {
      NextSymbol(text, i);
      var character := Upper(text[i]);
      if !(character == '-' || Separator(character)) {
        var folded := Folded(character);
        if Index(folded).None? {
          return Err(NotInAlphabet(character));
        }
        cleaned := cleaned + [folded];
      }
      i := i + 1;
    }
    assert text[..i] == text;
    if |cleaned| % 2 != 0 {
      return Err(OddSymbols);
    }
    var secret := PackAll(cleaned);
    if |secret| != SECRET_LEN {
      return Err(WrongLength(|secret|));
    }
    return Ok(secret);
  }

  lemma SeparatorsStay(c: char)
    ensures Separator(Upper(c)) == Separator(c)
  {}

  method PackAll(cleaned: string) returns (secret: seq<byte>)
    requires |cleaned| % 2 == 0 && Numbers(cleaned).Some?
    ensures secret == Bytes(Numbers(cleaned).value)
  {
    secret := [];
    ghost var numbers: seq<five> := [];
    var index := 0;
    while index < |cleaned| / 2
      invariant 0 <= index <= |cleaned| / 2
      invariant Numbers(cleaned[..2 * index]) == Some(numbers) && secret == Bytes(numbers)
    {
      KnownSymbol(cleaned, 2 * index);
      KnownSymbol(cleaned, 2 * index + 1);
      var low := Index(cleaned[2 * index]).value;
      var high := Index(cleaned[2 * index + 1]).value;
      NextPair(cleaned, 2 * index, numbers, low, high);
      secret := secret + [Packed(low, high)];
      numbers := numbers + [low, high];
      index := index + 1;
    }
    assert cleaned[..2 * index] == cleaned;
  }

  lemma KnownSymbol(symbols: string, i: nat)
    requires i < |symbols| && Numbers(symbols).Some?
    ensures Index(symbols[i]).Some?
  {
    if Index(symbols[i]).None? {
      UnknownSymbol(symbols, i);
    }
  }

  // Both parsers accept the same texts and read the same secret from them.
  method BothParse(text: string) returns (daemon: Result<seq<byte>, CodeError>, browser: Result<seq<byte>, CodeError>)
    requires Ascii(text)
    ensures daemon.Ok? <==> browser.Ok?
    ensures daemon.Ok? ==> daemon.value == browser.value
  {
    daemon := ParseDisplayedCode(text);
    browser := ParsePairingCode(text);
  }

  // ------------------------------------------------------------ classification

  datatype Credential = Code(code: string) | RoomKey(key: string)
  datatype CredentialError = Empty | Invalid

  predicate Whitespace(c: char)
  {
    c == ' ' || '\t' <= c <= '\r'
  }

  function TrimStart(s: string): string
  {
    if s != "" && Whitespace(s[0]) then TrimStart(s[1..]) else s
  }

  function TrimEnd(s: string): string
  {
    if s != "" && Whitespace(s[|s| - 1]) then TrimEnd(s[..|s| - 1]) else s
  }

  predicate Base64Url(c: char)
  {
    'A' <= c <= 'Z' || 'a' <= c <= 'z' || '0' <= c <= '9' || c == '-' || c == '_'
  }

  predicate LooksLikeRoomKey(s: string)
  {
    |s| == 43 && forall i :: 0 <= i < |s| ==> Base64Url(s[i])
  }

  function Grouped(symbols: string): string
    requires |symbols| == 10
  {
    symbols[..4] + "-" + symbols[4..8] + "-" + symbols[8..]
  }

  function ClassifyCredential(text: string): Result<Credential, CredentialError>
  {
    var trimmed := TrimEnd(TrimStart(text));
    if trimmed == "" then Err(Empty)
    else
      var folded := Symbols(trimmed);
      if |folded| == 10 && Numbers(folded).Some? then Ok(Code(Grouped(folded)))
      else if LooksLikeRoomKey(trimmed) then Ok(RoomKey(trimmed))
      else Err(Invalid)
  }

  lemma {:induction false} TrimStartKeeps(s: string)
    ensures Symbols(TrimStart(s)) == Symbols(s)
  {
    if s != "" && Whitespace(s[0]) {
      TrimStartKeeps(s[1..]);
      SymbolsAppend([s[0]], s[1..]);
      assert [s[0]][..0] == "";
      assert s == [s[0]] + s[1..];
    }
  }

  lemma {:induction false} TrimEndKeeps(s: string)
    ensures Symbols(TrimEnd(s)) == Symbols(s)
  {
    if s != "" && Whitespace(s[|s| - 1]) {
      TrimEndKeeps(s[..|s| - 1]);
    }
  }

  lemma {:induction false} SymbolsOfSymbols(s: string)
    requires Numbers(s).Some?
    ensures Symbols(s) == s
  {
    if s != "" {
      SymbolsOfSymbols(s[..|s| - 1]);
      SymbolOfIndex(s[|s| - 1]);
    }
  }

  // The classifier says "code" exactly when the parser would accept the text, and what it hands on is
  // a spelling of the same secret.
  lemma ClassifierAgreesWithParser(text: string)
    ensures (ClassifyCredential(text).Ok? && ClassifyCredential(text).value.Code?) <==> Parsed(text).Some?
    ensures Parsed(text).Some? ==> Parsed(ClassifyCredential(text).value.code) == Parsed(text)
  {
    TrimStartKeeps(text);
    TrimEndKeeps(TrimStart(text));
    if Parsed(text).Some? {
      GroupingKeeps(Symbols(text));
    }
  }

  lemma GroupingKeeps(symbols: string)
    requires |symbols| == 10 && Numbers(symbols).Some?
    ensures Symbols(Grouped(symbols)) == symbols
  {
    var a, b, c := symbols[..4], symbols[4..8], symbols[8..];
    assert symbols == a + (b + c);
    NumbersAppend(a, b + c);
    NumbersAppend(b, c);
    SymbolsOfSymbols(a);
    SymbolsOfSymbols(b);
    SymbolsOfSymbols(c);
    ThreeGroups(a, b, c);
  }

  lemma ThreeGroups(a: string, b: string, c: string)
    ensures Symbols(a + "-" + b + "-" + c) == Symbols(a) + (Symbols(b) + Symbols(c))
  {
    SymbolsAppend(a + "-" + b + "-", c);
    DashAtEnd(a + "-" + b);
    SymbolsAppend(a + "-", b);
    DashAtEnd(a);
    Associates(Symbols(a), Symbols(b), Symbols(c));
  }

  lemma Associates(a: string, b: string, c: string)
    ensures (a + b) + c == a + (b + c)
  {}

  lemma DashAtEnd(a: string)
    ensures Symbols(a + "-") == Symbols(a)
  {
    DashIsNothing("-");
    SymbolsAppend(a, "-");
  }
}
