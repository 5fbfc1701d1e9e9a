// Escaping in generated service files and shell commands: `xml`, `systemd_quote` and `render` of
// crates/dr-dsh-cli/src/service.rs, `shell_quote` of crates/dr-dsh-cli/src/files.rs, and readers of the
// three formats that get the original text back.
module Escaping {

  // ------------------------------------------------------- whole-string replaces

  // str::replace of one character by a text.
  function Replace(s: string, c: char, to: string): string
  {
    if s == "" then "" else (if s[0] == c then to else [s[0]]) + Replace(s[1..], c, to)
  }

  // A text for each character, in one pass.
  function Mapped(s: string, f: char -> string): string
  {
    if s == "" then "" else f(s[0]) + Mapped(s[1..], f)
  }

  lemma {:induction false} ReplaceAppend(a: string, b: string, c: char, to: string)
    ensures Replace(a + b, c, to) == Replace(a, c, to) + Replace(b, c, to)
  {
    if a == "" {
      assert a + b == b;
    } else {
      assert (a + b)[1..] == a[1..] + b;
      ReplaceAppend(a[1..], b, c, to);
    }
  }

  // Replacing after a one-pass map is a one-pass map.
  lemma {:induction false} ReplaceMapped(s: string, f: char -> string, g: char -> string, c: char, to: string)
    requires forall x :: g(x) == Replace(f(x), c, to)
    ensures Replace(Mapped(s, f), c, to) == Mapped(s, g)
  {
    if s != "" {
      ReplaceAppend(f(s[0]), Mapped(s[1..], f), c, to);
      ReplaceMapped(s[1..], f, g, c, to);
    }
  }

  lemma {:induction false} SameMap(s: string, f: char -> string, g: char -> string)
    requires forall x :: f(x) == g(x)
    ensures Mapped(s, f) == Mapped(s, g)
  {
    if s != "" {
      SameMap(s[1..], f, g);
    }
  }

  lemma {:induction false} PlainMap(s: string)
    ensures Mapped(s, c => [c]) == s
  {
    if s != "" {
      PlainMap(s[1..]);
    }
  }

  // A replace leaves a text alone that does not contain the character.
  lemma {:induction false} ReplaceNothing(s: string, c: char, to: string)
    requires c !in s
    ensures Replace(s, c, to) == s
  {
    if s != "" {
      ReplaceNothing(s[1..], c, to);
    }
  }

  lemma ReplaceOne(x: char, c: char, to: string)
    ensures Replace([x], c, to) == if x == c then to else [x]
  {
    assert [x][1..] == "";
  }

  // -------------------------------------------------------------------- XML

  function Xml(s: string): string
  {
    Replace(Replace(Replace(Replace(Replace(s, '&', "&amp;"), '<', "&lt;"), '>', "&gt;"), '"', "&quot;"), '\'', "&apos;")
  }

  function XmlOf(c: char): string
  {
    if c == '&' then "&amp;" else if c == '<' then "&lt;" else if c == '>' then "&gt;"
    else if c == '"' then "&quot;" else if c == '\'' then "&apos;" else [c]
  }

  // What the first n replaces make of a character.
  function XmlPart(n: nat): char -> string
  {
    c => if (c == '&' && n >= 1) || (c == '<' && n >= 2) || (c == '>' && n >= 3) || (c == '"' && n >= 4) || (c == '\'' && n >= 5)
         then XmlOf(c) else [c]
  }

  predicate Special(c: char)
  {
    c == '&' || c == '<' || c == '>' || c == '"' || c == '\''
  }

  // Of the characters that get replaced, an entity contains only the ampersand.
  lemma EntityIsPlain(x: char)
    requires Special(x)
    ensures '<' !in XmlOf(x) && '>' !in XmlOf(x) && '"' !in XmlOf(x) && '\'' !in XmlOf(x)
  {}

  function SpecialAt(n: nat): char
    requires n < 5
  {
    if n == 0 then '&' else if n == 1 then '<' else if n == 2 then '>' else if n == 3 then '"' else '\''
  }

  // The first n of the five replaces.
  function XmlSoFar(s: string, n: nat): string
    requires n <= 5
  {
    if n == 0 then s else Replace(XmlSoFar(s, n - 1), SpecialAt(n - 1), XmlOf(SpecialAt(n - 1)))
  }

  lemma XmlStep(n: nat)
    requires n < 5
    ensures forall x :: XmlPart(n + 1)(x) == Replace(XmlPart(n)(x), SpecialAt(n), XmlOf(SpecialAt(n)))
  {
    var c := SpecialAt(n);
    forall x ensures XmlPart(n + 1)(x) == Replace(XmlPart(n)(x), c, XmlOf(c)) {
      ReplaceOne(x, c, XmlOf(c));
      if XmlPart(n)(x) != [x] {
        EntityIsPlain(x);
        ReplaceNothing(XmlOf(x), c, XmlOf(c));
      }
    }
  }

  lemma {:induction false} XmlSoFarIsMap(s: string, n: nat)
    requires n <= 5
    ensures XmlSoFar(s, n) == Mapped(s, XmlPart(n))
  {
    if n == 0 {
      PlainMap(s);
      SameMap(s, c => [c], XmlPart(0));
    } else {
      XmlSoFarIsMap(s, n - 1);
      XmlStep(n - 1);
      ReplaceMapped(s, XmlPart(n - 1), XmlPart(n), SpecialAt(n - 1), XmlOf(SpecialAt(n - 1)));
    }
  }

  // The five replaces in their order are one pass: no replace touches what an earlier one wrote.
  lemma XmlIsOnePass(s: string)
    ensures Xml(s) == Mapped(s, XmlOf)
  {
    assert Xml(s) == XmlSoFar(s, 5) by {
      assert XmlSoFar(s, 1) == Replace(s, '&', "&amp;");
      assert XmlSoFar(s, 2) == Replace(XmlSoFar(s, 1), '<', "&lt;");
      assert XmlSoFar(s, 3) == Replace(XmlSoFar(s, 2), '>', "&gt;");
      assert XmlSoFar(s, 4) == Replace(XmlSoFar(s, 3), '"', "&quot;");
    }
    XmlSoFarIsMap(s, 5);
    SameMap(s, XmlPart(5), XmlOf);
  }
}
