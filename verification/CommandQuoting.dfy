// Quoting of command arguments: `systemd_quote` and the ExecStart and Environment lines of
// crates/dr-dsh-cli/src/service.rs, with a reader of systemd's quoted words and specifiers, and
// `shell_quote` of crates/dr-dsh-cli/src/files.rs with a reader of POSIX shell words.
module CommandQuoting {
  import opened Results
  import opened Escaping

  // ---------------------------------------------------------------- systemd

  function SystemdBody(s: string): string
  {
    Replace(Replace(Replace(Replace(Replace(Replace(s, '\\', "\\\\"), '"', "\\\""), '%', "%%"), '\n', "\\n"), '\r', "\\r"), '\t', "\\t")
  }

  function SystemdQuote(s: string): string
  {
    ['"'] + SystemdBody(s) + ['"']
  }

  predicate Reserved(c: char)
  {
    c == '\\' || c == '"' || c == '%' || c == '\n' || c == '\r' || c == '\t'
  }

  function SystemdOf(c: char): string
  {
    if c == '%' then ['%', '%']
    else if c == '\\' || c == '"' then ['\\', c]
    else if c == '\n' then ['\\', 'n']
    else if c == '\r' then ['\\', 'r']
    else if c == '\t' then ['\\', 't']
    else [c]
  }

  function ReservedAt(n: nat): char
    requires n < 6
  {
    if n == 0 then '\\' else if n == 1 then '"' else if n == 2 then '%'
    else if n == 3 then '\n' else if n == 4 then '\r' else '\t'
  }

  // What the first n replaces make of a character.
  function SystemdPart(n: nat): char -> string
  {
    c => if (exists k: nat :: k < n && k < 6 && ReservedAt(k) == c) then SystemdOf(c) else [c]
  }

  function SystemdSoFar(s: string, n: nat): string
    requires n <= 6
  {
    if n == 0 then s else Replace(SystemdSoFar(s, n - 1), ReservedAt(n - 1), SystemdOf(ReservedAt(n - 1)))
  }

  lemma SystemdStep(n: nat)
    requires n < 6
    ensures forall x :: SystemdPart(n + 1)(x) == Replace(SystemdPart(n)(x), ReservedAt(n), SystemdOf(ReservedAt(n)))
  {
    var c := ReservedAt(n);
    forall x ensures SystemdPart(n + 1)(x) == Replace(SystemdPart(n)(x), c, SystemdOf(c)) {
      ReplaceOne(x, c, SystemdOf(c));
      if exists k: nat :: k < n && k < 6 && ReservedAt(k) == x {
        ReplaceNothing(SystemdOf(x), c, SystemdOf(c));
      }
    }
  }

  lemma {:induction false} SystemdSoFarIsMap(s: string, n: nat)
    requires n <= 6
    ensures SystemdSoFar(s, n) == Mapped(s, SystemdPart(n))
  {
    if n == 0 {
      PlainMap(s);
      SameMap(s, c => [c], SystemdPart(0));
    } else {
      SystemdSoFarIsMap(s, n - 1);
      SystemdStep(n - 1);
      ReplaceMapped(s, SystemdPart(n - 1), SystemdPart(n), ReservedAt(n - 1), SystemdOf(ReservedAt(n - 1)));
    }
  }

  lemma AllReserved(x: char)
    ensures SystemdPart(6)(x) == SystemdOf(x)
  {
    if Reserved(x) {
      assert ReservedAt(0) == '\\' && ReservedAt(1) == '"' && ReservedAt(2) == '%'
          && ReservedAt(3) == '\n' && ReservedAt(4) == '\r' && ReservedAt(5) == '\t';
    }
  }

  // The six replaces in their order are one pass.
  lemma SystemdIsOnePass(s: string)
    ensures SystemdBody(s) == Mapped(s, SystemdOf)
  {
    assert SystemdBody(s) == SystemdSoFar(s, 6) by {
      assert SystemdSoFar(s, 1) == Replace(s, '\\', "\\\\");
      assert SystemdSoFar(s, 2) == Replace(SystemdSoFar(s, 1), '"', "\\\"");
      assert SystemdSoFar(s, 3) == Replace(SystemdSoFar(s, 2), '%', "%%");
      assert SystemdSoFar(s, 4) == Replace(SystemdSoFar(s, 3), '\n', "\\n");
      assert SystemdSoFar(s, 5) == Replace(SystemdSoFar(s, 4), '\r', "\\r");
    }
    SystemdSoFarIsMap(s, 6);
    forall x ensures SystemdPart(6)(x) == SystemdOf(x) {
      AllReserved(x);
    }
    SameMap(s, SystemdPart(6), SystemdOf);
  }

  // ----------------------------------------------------- systemd's reader

  // What an escape in a quoted word stands for.
  function Unescaped(c: char): Option<char>
  {
    if c == '\\' || c == '"' then Some(c)
    else if c == 'n' then Some('\n')
    else if c == 'r' then Some('\r')
    else if c == 't' then Some('\t')
    else None
  }

  // The rest of a quoted word, up to its closing quote, and what comes after it.
  function ReadQuoted(t: string): (r: Option<(string, string)>)
    ensures r.Some? ==> |r.value.1| < |t|
  {
    if t == "" then None
    else if t[0] == '"' then Some(("", t[1..]))
    else if t[0] == '\\' then
      if |t| < 2 || Unescaped(t[1]).None? then None else WithChar(Unescaped(t[1]).value, ReadQuoted(t[2..]))
    else WithChar(t[0], ReadQuoted(t[1..]))
  }

  function WithChar(c: char, r: Option<(string, string)>): Option<(string, string)>
  {
    if r.None? then None else Some(([c] + r.value.0, r.value.1))
  }

  // Quoted words between spaces.
  function ReadWords(t: string): Option<seq<string>>
    decreases |t|
  {
    if t == "" then Some([])
    else if t[0] == ' ' then ReadWords(t[1..])
    else if t[0] != '"' then None
    else
      match ReadQuoted(t[1..])
      case None => None
      case Some((word, rest)) =>
        if rest != "" && rest[0] != ' ' then None
        else if ReadWords(rest).None? then None
        else Some([word] + ReadWords(rest).value)
  }

  // Specifiers, of which only the doubled percent sign stands for a fixed text.
  function Expanded(s: string): Option<string>
  {
    if s == "" then Some("")
    else if s[0] == '%' then
      if |s| < 2 || s[1] != '%' then None else Consed('%', Expanded(s[2..]))
    else Consed(s[0], Expanded(s[1..]))
  }

  function Consed(c: char, r: Option<string>): Option<string>
  {
    if r.None? then None else Some([c] + r.value)
  }

  function ExpandAll(words: seq<string>): Option<seq<string>>
  {
    if words == [] then Some([])
    else
      var first, rest := Expanded(words[0]), ExpandAll(words[1..]);
      if first.None? || rest.None? then None else Some([first.value] + rest.value)
  }

  // What systemd makes of the arguments of a command line.
  function ReadCommand(t: string): Option<seq<string>>
  {
    var words := ReadWords(t);
    if words.None? then None else ExpandAll(words.value)
  }

  // After unquoting, only the percent signs are still doubled.
  function Doubled(c: char): string
  {
    if c == '%' then ['%', '%'] else [c]
  }

  lemma QuotedStep(c: char, rest: string)
    ensures ReadQuoted(SystemdOf(c) + rest)
         == if c == '%' then WithChar('%', WithChar('%', ReadQuoted(rest))) else WithChar(c, ReadQuoted(rest))
  {
    var t := SystemdOf(c) + rest;
    if c == '%' {
      assert t[0] == '%' && t[1..][0] == '%' && t[1..][1..] == rest;
      assert ReadQuoted(t) == WithChar('%', ReadQuoted(t[1..]));
    } else if Reserved(c) {
      assert t[0] == '\\' && t[2..] == rest;
    } else {
      assert t[0] == c && t[1..] == rest;
    }
  }

  lemma {:induction false} ReadBody(s: string, after: string)
    ensures ReadQuoted(Mapped(s, SystemdOf) + (['"'] + after)) == Some((Mapped(s, Doubled), after))
  {
    var tail := ['"'] + after;
    if s == "" {
      assert Mapped(s, SystemdOf) + tail == tail;
      assert tail[1..] == after;
    } else {
      var rest := Mapped(s[1..], SystemdOf) + tail;
      assert Mapped(s, SystemdOf) + tail == SystemdOf(s[0]) + rest;
      QuotedStep(s[0], rest);
      ReadBody(s[1..], after);
      var d := Mapped(s[1..], Doubled);
      assert ['%'] + (['%'] + d) == ['%', '%'] + d;
    }
  }

  lemma {:induction false} ExpandDoubled(s: string)
    ensures Expanded(Mapped(s, Doubled)) == Some(s)
  {
    if s != "" {
      var rest := Mapped(s[1..], Doubled);
      var t := Mapped(s, Doubled);
      ExpandDoubled(s[1..]);
      if s[0] == '%' {
        assert t == ['%', '%'] + rest && t[2..] == rest;
      } else {
        assert t == [s[0]] + rest && t[1..] == rest;
      }
      assert [s[0]] + s[1..] == s;
    }
  }

  // The arguments as they stand on the ExecStart line.
  function Joined(args: seq<string>): string
  {
    if args == [] then ""
    else SystemdQuote(args[0]) + if |args| == 1 then "" else [' '] + Joined(args[1..])
  }

  function AllDoubled(args: seq<string>): seq<string>
  {
    if args == [] then [] else [Mapped(args[0], Doubled)] + AllDoubled(args[1..])
  }

  lemma ReadFirstWord(s: string, after: string)
    requires after == "" || after[0] == ' '
    ensures ReadWords(SystemdQuote(s) + after)
         == (if ReadWords(after).None? then None else Some([Mapped(s, Doubled)] + ReadWords(after).value))
  {
    SystemdIsOnePass(s);
    ReadBody(s, after);
    QuotedShape(Mapped(s, SystemdOf), after);
    WordThenRest(SystemdQuote(s) + after, Mapped(s, Doubled), after);
  }

  lemma QuotedShape(body: string, after: string)
    ensures (var t := ['"'] + body + ['"'] + after; t[0] == '"' && t[1..] == body + (['"'] + after))
  {}

  lemma WordThenRest(t: string, word: string, after: string)
    requires t != "" && t[0] == '"' && ReadQuoted(t[1..]) == Some((word, after))
    requires after == "" || after[0] == ' '
    ensures ReadWords(t) == (if ReadWords(after).None? then None else Some([word] + ReadWords(after).value))
  {}

  lemma {:induction false} ReadJoined(args: seq<string>)
    ensures ReadWords(Joined(args)) == Some(AllDoubled(args))
  {
    if args != [] {
      var after := if |args| == 1 then "" else [' '] + Joined(args[1..]);
      ReadJoined(args[1..]);
      if |args| > 1 {
        assert after[1..] == Joined(args[1..]);
      }
      ReadFirstWord(args[0], after);
    }
  }

  lemma {:induction false} ExpandAllDoubled(args: seq<string>)
    ensures ExpandAll(AllDoubled(args)) == Some(args)
  {
    if args != [] {
      ExpandDoubled(args[0]);
      ExpandAllDoubled(args[1..]);
      assert AllDoubled(args)[1..] == AllDoubled(args[1..]);
      assert [args[0]] + args[1..] == args;
    }
  }

  // systemd gets back exactly the arguments, whatever they contain and however many there are.
  lemma CommandReadsBack(args: seq<string>)
    ensures ReadCommand(Joined(args)) == Some(args)
  {
    ReadJoined(args);
    ExpandAllDoubled(args);
  }

  // One quoted text, as on an Environment line, is one word and reads back as it was.
  lemma AssignmentReadsBack(key: string, value: string)
    ensures ReadCommand(SystemdQuote(key + "=" + value)) == Some([key + "=" + value])
  {
    var args := [key + "=" + value];
    CommandReadsBack(args);
    assert SystemdQuote(args[0]) + "" == SystemdQuote(args[0]);
  }

  // A quoted argument never breaks the line it is on.
  lemma {:induction false} BodyStaysOnLine(s: string)
    ensures '\n' !in Mapped(s, SystemdOf) && '\r' !in Mapped(s, SystemdOf)
  {
    if s != "" {
      BodyStaysOnLine(s[1..]);
    }
  }

  lemma {:induction false} LineStaysWhole(args: seq<string>)
    ensures '\n' !in Joined(args) && '\r' !in Joined(args)
  {
    if args != [] {
      SystemdIsOnePass(args[0]);
      BodyStaysOnLine(args[0]);
      LineStaysWhole(args[1..]);
    }
  }

  // ------------------------------------------------------------------ shell

  function ShellQuote(s: string): string
  {
    ['\''] + Replace(s, '\'', "'\\''") + ['\'']
  }

  // One word of a POSIX shell: single quotes keep everything literal, a backslash outside quotes
  // keeps the next character. Anything that would end the word or be special is refused.
  function ReadShellWord(t: string, quoted: bool): Option<string>
  {
    if t == "" then (if quoted then None else Some(""))
    else if quoted then
      if t[0] == '\'' then ReadShellWord(t[1..], false) else Consed(t[0], ReadShellWord(t[1..], true))
    else if t[0] == '\'' then ReadShellWord(t[1..], true)
    else if t[0] == '\\' then (if |t| < 2 || t[1] == '\n' then None else Consed(t[1], ReadShellWord(t[2..], false)))
    else None
  }

  lemma ShellStep(c: char, rest: string)
    ensures ReadShellWord((if c == '\'' then "'\\''" else [c]) + rest, true) == Consed(c, ReadShellWord(rest, true))
  {
    if c == '\'' {
      var t := "'\\''" + rest;
      var u := "\\''" + rest;
      var v := "'" + rest;
      assert t[0] == '\'' && t[1..] == u;
      assert u[0] == '\\' && u[1] == '\'' && u[2..] == v;
      assert v[0] == '\'' && v[1..] == rest;
      assert ReadShellWord(v, false) == ReadShellWord(rest, true);
      assert ReadShellWord(u, false) == Consed('\'', ReadShellWord(v, false));
    } else {
      assert ([c] + rest)[1..] == rest;
    }
  }

  lemma {:induction false} ReadReplaced(s: string)
    ensures ReadShellWord(Replace(s, '\'', "'\\''") + ['\''], true) == Some(s)
  {
    var end := ['\''];
    if s == "" {
      assert Replace(s, '\'', "'\\''") + end == end;
      assert end[1..] == "";
    } else {
      var rest := Replace(s[1..], '\'', "'\\''") + end;
      ReadReplaced(s[1..]);
      ShellStep(s[0], rest);
      assert Replace(s, '\'', "'\\''") + end == (if s[0] == '\'' then "'\\''" else [s[0]]) + rest;
      assert [s[0]] + s[1..] == s;
    }
  }

  // The shell reads a quoted text as one word, and as exactly that text.
  lemma ShellReadsBack(s: string)
    ensures ReadShellWord(ShellQuote(s), false) == Some(s)
  {
    ReadReplaced(s);
    assert ShellQuote(s)[1..] == Replace(s, '\'', "'\\''") + ['\''];
  }
}
