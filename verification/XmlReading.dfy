// A reader of the property list that `render` writes: character data as XML 1.0 defines it, with line
// ends normalised (section 2.11) and only legal characters (section 2.2), and the array of arguments.
module XmlReading {
  import opened Results
  import opened Escaping

  predicate XmlChar(c: char)
  {
    c == '\t' || c == '\n' || c == '\r' || 0x20 <= c as int < 0xd800 || 0xe000 <= c as int <= 0xfffd || 0x1_0000 <= c as int
  }

  function NormalizeEnds(t: string): string
  {
    if t == "" then ""
    else if t[0] == '\r' then ['\n'] + NormalizeEnds(if |t| > 1 && t[1] == '\n' then t[2..] else t[1..])
    else [t[0]] + NormalizeEnds(t[1..])
  }

  // The character an entity at the front of a text stands for, and how long the entity is.
  function Entity(t: string): Option<(char, nat)>
  {
    if XmlOf('&') <= t then Some(('&', 5))
    else if XmlOf('<') <= t then Some(('<', 4))
    else if XmlOf('>') <= t then Some(('>', 4))
    else if XmlOf('"') <= t then Some(('"', 6))
    else if XmlOf('\'') <= t then Some(('\'', 6))
    else None
  }

  function ReadText(t: string): Option<string>
  {
    if t == "" then Some("")
    else if t[0] == '<' then None
    else if t[0] == '&' then
      (match Entity(t)
       case None => None
       case Some((c, n)) => if n <= |t| then Prepended(c, ReadText(t[n..])) else None)
    else if !XmlChar(t[0]) then None
    else Prepended(t[0], ReadText(t[1..]))
  }

  function Prepended(c: char, rest: Option<string>): Option<string>
  {
    if rest.None? then None else Some([c] + rest.value)
  }

  predicate AllLegal(s: string)
  {
    forall i :: 0 <= i < |s| ==> XmlChar(s[i])
  }

  lemma EntityOfSpecial(c: char, rest: string)
    requires Special(c)
    ensures XmlOf(c) != "" && XmlOf(c)[0] == '&' && Entity(XmlOf(c) + rest) == Some((c, |XmlOf(c)|))
  {
    var t := XmlOf(c) + rest;
    assert XmlOf(c) <= t;
    assert t[1] == XmlOf(c)[1] && t[2] == XmlOf(c)[2];
  }

  // Reading one escaped character.
  lemma ReadOne(c: char, rest: string)
    ensures ReadText(XmlOf(c) + rest) == if XmlChar(c) then Prepended(c, ReadText(rest)) else None
  {
    var t := XmlOf(c) + rest;
    if Special(c) {
      EntityOfSpecial(c, rest);
      assert t[0] == '&' && t[|XmlOf(c)|..] == rest;
    } else {
      assert t[0] == c && t[1..] == rest;
    }
  }

  // Escaped text is read back as it was, if it is legal at all.
  lemma {:induction false} ReadEscaped(s: string)
    ensures ReadText(Mapped(s, XmlOf)) == if AllLegal(s) then Some(s) else None
  {
    if s != "" {
      ReadOne(s[0], Mapped(s[1..], XmlOf));
      ReadEscaped(s[1..]);
      LegalParts(s);
      assert s == [s[0]] + s[1..];
    }
  }

  lemma LegalParts(s: string)
    requires s != ""
    ensures AllLegal(s) <==> XmlChar(s[0]) && AllLegal(s[1..])
  {
    if XmlChar(s[0]) && AllLegal(s[1..]) {
      forall i | 0 <= i < |s| ensures XmlChar(s[i]) {
        if i > 0 {
          assert s[i] == s[1..][i - 1];
        }
      }
    }
  }

  // ---------------------------------------------------------------- line ends

  lemma {:induction false} NormalizePlain(a: string, b: string)
    requires '\r' !in a
    ensures NormalizeEnds(a + b) == a + NormalizeEnds(b)
  {
    if a == "" {
      assert a + b == b;
    } else {
      assert (a + b)[1..] == a[1..] + b;
      NormalizePlain(a[1..], b);
    }
  }

  lemma EscapedStart(s: string)
    ensures (Mapped(s, XmlOf) != "" && Mapped(s, XmlOf)[0] == '\n') <==> (s != "" && s[0] == '\n')
  {
    if s != "" && Special(s[0]) {
      EntityOfSpecial(s[0], Mapped(s[1..], XmlOf));
    }
  }

  // A line end is cut from the escaped text as it is from the text.
  lemma ReturnCut(s: string, cut: string)
    requires s != "" && s[0] == '\r' && cut == if |s| > 1 && s[1] == '\n' then s[2..] else s[1..]
    ensures NormalizeEnds(Mapped(s, XmlOf)) == ['\n'] + NormalizeEnds(Mapped(cut, XmlOf))
  {
    var t, rest := Mapped(s, XmlOf), Mapped(s[1..], XmlOf);
    assert t == ['\r'] + rest && t[1..] == rest;
    EscapedStart(s[1..]);
    if |s| > 1 && s[1] == '\n' {
      assert s[1..][1..] == s[2..];
      assert rest == ['\n'] + Mapped(s[2..], XmlOf);
      assert t[2..] == Mapped(s[2..], XmlOf);
    }
  }

  lemma EndFirst(rest: string)
    ensures Mapped(['\n'] + rest, XmlOf) == ['\n'] + Mapped(rest, XmlOf)
  {
    assert (['\n'] + rest)[1..] == rest;
  }

  // Normalising escaped text is escaping the normalised text.
  lemma {:induction false} NormalizeEscaped(s: string)
    ensures NormalizeEnds(Mapped(s, XmlOf)) == Mapped(NormalizeEnds(s), XmlOf)
    decreases |s|
  {
    if s != "" {
      var t := Mapped(s, XmlOf);
      var rest := Mapped(s[1..], XmlOf);
      if s[0] == '\r' {
        var cut := if |s| > 1 && s[1] == '\n' then s[2..] else s[1..];
        NormalizeEscaped(cut);
        ReturnCut(s, cut);
        EndFirst(NormalizeEnds(cut));
      } else {
        NormalizePlain(XmlOf(s[0]), rest);
        NormalizeEscaped(s[1..]);
        assert NormalizeEnds(s)[1..] == NormalizeEnds(s[1..]);
      }
    }
  }

  lemma {:induction false} NormalizedHasNoReturn(s: string)
    ensures '\r' !in NormalizeEnds(s)
    ensures '\r' !in s ==> NormalizeEnds(s) == s
    decreases |s|
  {
    if s != "" {
      NormalizedHasNoReturn(if s[0] == '\r' && |s| > 1 && s[1] == '\n' then s[2..] else s[1..]);
    }
  }

  // An element's text comes back as it was put in exactly when it consists of legal characters other
  // than the carriage return.
  lemma XmlReadsBackIff(s: string)
    ensures ReadText(NormalizeEnds(Xml(s))) == Some(s) <==> AllLegal(s) && '\r' !in s
  {
    XmlIsOnePass(s);
    NormalizeEscaped(s);
    ReadEscaped(NormalizeEnds(s));
    NormalizedHasNoReturn(s);
  }

  // ------------------------------------------------------- the argument array

  const OPEN: string := "<string>"
  const CLOSE: string := "</string>"

  function RenderArray(args: seq<string>): string
  {
    if args == [] then "" else OPEN + Xml(args[0]) + CLOSE + RenderArray(args[1..])
  }

  // The position of the next markup.
  function NextMarkup(t: string): (r: nat)
    ensures r <= |t| && (forall i :: 0 <= i < r ==> t[i] != '<') && (r < |t| ==> t[r] == '<')
  {
    if t == "" || t[0] == '<' then 0 else 1 + NextMarkup(t[1..])
  }

  function ReadArray(t: string): Option<seq<string>>
    decreases |t|
  {
    if t == "" then Some([])
    else if !(OPEN <= t) then None
    else
      var rest := t[|OPEN|..];
      var k := NextMarkup(rest);
      if !(CLOSE <= rest[k..]) then None
      else
        var first, others := ReadText(rest[..k]), ReadArray(rest[k..][|CLOSE|..]);
        if first.None? || others.None? then None else Some([first.value] + others.value)
  }

  lemma {:induction false} EscapedHasNoMarkup(s: string)
    ensures '<' !in Mapped(s, XmlOf)
  {
    if s != "" {
      EscapedHasNoMarkup(s[1..]);
      if Special(s[0]) {
        EntityIsPlain(s[0]);
      }
    }
  }

  lemma MarkupIsNext(a: string, b: string)
    requires '<' !in a
    ensures NextMarkup(a + CLOSE + b) == |a|
  {
    var t := a + CLOSE + b;
    assert t[|a|] == CLOSE[0] == '<';
    assert forall i :: 0 <= i < |a| ==> t[i] == a[i];
  }

  lemma NormalizeFirst(a: string, rest: string)
    ensures NormalizeEnds(OPEN + a + CLOSE + rest) == OPEN + NormalizeEnds(a) + CLOSE + NormalizeEnds(rest)
  {
    var tail := CLOSE + rest;
    assert OPEN + a + CLOSE + rest == OPEN + (a + tail);
    NormalizePlain(OPEN, a + tail);
    NormalizeBefore(a, tail);
    NormalizePlain(CLOSE, rest);
    assert OPEN + (NormalizeEnds(a) + (CLOSE + NormalizeEnds(rest))) == OPEN + NormalizeEnds(a) + CLOSE + NormalizeEnds(rest);
  }

  lemma {:induction false} NormalizeArray(args: seq<string>)
    ensures NormalizeEnds(RenderArray(args)) == RenderArray(NormalizedAll(args))
  {
    if args != [] {
      XmlIsOnePass(args[0]);
      XmlIsOnePass(NormalizeEnds(args[0]));
      NormalizeEscaped(args[0]);
      NormalizeArray(args[1..]);
      NormalizeFirst(Xml(args[0]), RenderArray(args[1..]));
      assert NormalizedAll(args)[1..] == NormalizedAll(args[1..]);
    }
  }

  // A line end at the end of a text does not reach past a following markup.
  lemma {:induction false} NormalizeBefore(a: string, b: string)
    requires b != "" && b[0] != '\n'
    ensures NormalizeEnds(a + b) == NormalizeEnds(a) + NormalizeEnds(b)
    decreases |a|
  {
    var t := a + b;
    if a == "" {
      assert t == b;
    } else if a[0] == '\r' && |a| > 1 && a[1] == '\n' {
      assert t[2..] == a[2..] + b;
      NormalizeBefore(a[2..], b);
    } else {
      assert t[1..] == a[1..] + b;
      NormalizeBefore(a[1..], b);
    }
  }

  function NormalizedAll(args: seq<string>): (r: seq<string>)
    ensures |r| == |args|
    ensures forall i :: 0 <= i < |args| ==> r[i] == NormalizeEnds(args[i])
  {
    seq(|args|, i requires 0 <= i < |args| => NormalizeEnds(args[i]))
  }

  lemma ReadFirst(a: string, rest: string)
    requires '<' !in a
    ensures ReadArray(OPEN + a + CLOSE + rest)
         == (if ReadText(a).None? || ReadArray(rest).None? then None else Some([ReadText(a).value] + ReadArray(rest).value))
  {
    var t := OPEN + a + CLOSE + rest;
    var inner := a + CLOSE + rest;
    assert t == OPEN + inner;
    assert OPEN <= t && t[|OPEN|..] == inner;
    MarkupIsNext(a, rest);
    assert inner[..|a|] == a && inner[|a|..] == CLOSE + rest;
    assert (CLOSE + rest)[|CLOSE|..] == rest;
  }

  lemma {:induction false} ReadRendered(args: seq<string>)
    ensures ReadArray(RenderArray(args)) == if forall i :: 0 <= i < |args| ==> AllLegal(args[i]) then Some(args) else None
  {
    if args != [] {
      XmlIsOnePass(args[0]);
      EscapedHasNoMarkup(args[0]);
      ReadEscaped(args[0]);
      ReadRendered(args[1..]);
      ReadFirst(Xml(args[0]), RenderArray(args[1..]));
      AllLegalParts(args);
      assert args == [args[0]] + args[1..];
    }
  }

  lemma AllLegalParts(args: seq<string>)
    requires args != []
    ensures (forall i :: 0 <= i < |args| ==> AllLegal(args[i]))
       <==> AllLegal(args[0]) && forall i :: 0 <= i < |args[1..]| ==> AllLegal(args[1..][i])
  {
    assert forall i :: 0 <= i < |args[1..]| ==> args[1..][i] == args[i + 1];
    if AllLegal(args[0]) && forall i :: 0 <= i < |args[1..]| ==> AllLegal(args[1..][i]) {
      forall i | 0 <= i < |args| ensures AllLegal(args[i]) {
        if i > 0 {
          assert args[i] == args[1..][i - 1];
        }
      }
    }
  }

  // The argument list comes back whole exactly when every argument is such a text.
  lemma ArrayReadsBackIff(args: seq<string>)
    ensures ReadArray(NormalizeEnds(RenderArray(args))) == Some(args)
       <==> forall i :: 0 <= i < |args| ==> AllLegal(args[i]) && '\r' !in args[i]
  {
    NormalizeArray(args);
    ReadRendered(NormalizedAll(args));
    forall i | 0 <= i < |args| ensures NormalizeEnds(args[i]) == args[i] <==> '\r' !in args[i] {
      NormalizedHasNoReturn(args[i]);
    }
    if forall i :: 0 <= i < |args| ==> '\r' !in args[i] {
      assert NormalizedAll(args) == args;
    }
  }
}
