/** The command lines the client sends and the server's reading of them. */
module CommandLine {
  import opened CStrings
  import opened Quoting

  // ---- the server's reader: five states over the characters of its input

  /** A complete line and the input after it, or the arguments at the end of the input. */
  datatype Parsed = Line(args: seq<string>, rest: string) | Eof(args: seq<string>)

  function Parse(state: nat, str: string, args: seq<string>, input: string): (p: Parsed)
    ensures p.Line? ==> |p.rest| < |input|
    decreases |input|
  {
    if input == [] then Eof(args)
    else
      var c, rest := input[0], input[1..];
      match state
      case 0 =>
        if c == '\n' then Line(args, rest)
        else if c == '\'' then Parse(2, str, args, rest)
        else if c != ' ' then Parse(1, [c], args, rest)
        else Parse(0, str, args, rest)
      case 1 =>
        if c == '\n' then Line(args + [str], rest)
        else if c == ' ' then Parse(0, "", args + [str], rest)
        else Parse(1, str + [c], args, rest)
      case 2 =>
        if c == '\'' then Parse(3, str, args, rest)
        else Parse(2, str + [c], args, rest)
      case 3 =>
        if c == '\n' then Line(args + [str], rest)
        else if c == ' ' then Parse(0, "", args + [str], rest)
        else if c == '\'' then Parse(2, str, args, rest)
        else if c == '\\' then Parse(4, str, args, rest)
        else Parse(3, str, args, rest)
      case _ =>
        if c == '\n' then Line(args + [str], rest)
        else if c == ' ' then Parse(0, "", args + [str], rest)
        else if c == '\'' then Parse(0, str + [c], args, rest)
        else Parse(4, str, args, rest)
  }

  /** The server's loop over getc. */
  method GetLine(input: string) returns (p: Parsed)
    ensures p == Parse(0, "", [], input)
  {
    var args: seq<string>, str: string, state: nat := [], "", 0;
    var pos := 0;
    while pos < |input|
      invariant pos <= |input| && state <= 4
      invariant Parse(state, str, args, input[pos..]) == Parse(0, "", [], input)
    {
      var c := input[pos];
      pos := pos + 1;
      assert input[pos - 1..][1..] == input[pos..];
      if state == 0 {
        if c == '\n' {
          return Line(args, input[pos..]);
        } else if c == '\'' {
          state := 2;
        } else if c != ' ' {
          str, state := [c], 1;
        }
      } else if state == 1 {
        if c == '\n' {
          return Line(args + [str], input[pos..]);
        } else if c == ' ' {
          args, str, state := args + [str], "", 0;
        } else {
          str := str + [c];
        }
      } else if state == 2 {
        if c == '\'' {
          state := 3;
        } else {
          str := str + [c];
        }
      } else if state == 3 {
        if c == '\n' {
          return Line(args + [str], input[pos..]);
        } else if c == ' ' {
          args, str, state := args + [str], "", 0;
        } else if c == '\'' {
          state := 2;
        } else if c == '\\' {
          state := 4;
        }
      } else {
        if c == '\n' {
          return Line(args + [str], input[pos..]);
        } else if c == ' ' {
          args, str, state := args + [str], "", 0;
        } else if c == '\'' {
          str, state := str + [c], 0;
        }
      }
    }
    p := Eof(args);
  }

  // ---- the client's lines

  /** A word as it is, or a string between quotes. */
  datatype Arg = Bare(word: string) | Quoted(text: string)

  /** Words that need no quotes: not empty, no blanks or newlines, no leading quote. */
  predicate Plain(w: string) {
    w != [] && w[0] != '\'' && ' ' !in w && '\n' !in w
  }

  predicate Good(args: seq<Arg>) {
    forall i :: 0 <= i < |args| && args[i].Bare? ==> Plain(args[i].word)
  }

  function Meaning(a: Arg): string {
    match a
    case Bare(w) => w
    case Quoted(t) => t
  }

  function Meanings(args: seq<Arg>): (r: seq<string>)
    ensures |r| == |args|
  {
    seq(|args|, i requires 0 <= i < |args| => Meaning(args[i]))
  }

  function Show(a: Arg): string {
    match a
    case Bare(w) => w
    case Quoted(t) => "'" + Escape(t) + "'"
  }

  /** The arguments with one blank between two of them. */
  function ShowAll(args: seq<Arg>): string {
    if args == [] then ""
    else if |args| == 1 then Show(args[0])
    else Show(args[0]) + " " + ShowAll(args[1..])
  }

  /** A line: arguments, a blank more when the client's format had nothing to print, newline. */
  function ShowLine(args: seq<Arg>, blank: bool): string {
    ShowAll(args) + (if blank then " " else "") + "\n"
  }

  // ---- reading back one argument

  predicate Delimited(tail: string) {
    tail != [] && (tail[0] == ' ' || tail[0] == '\n')
  }

  /** After a delimiter in state 1, 3 or 4 the word is an argument and the reader is between words. */
  function AfterWord(str: string, args: seq<string>, tail: string): Parsed
    requires Delimited(tail)
  {
    if tail[0] == '\n' then Line(args + [str], tail[1..])
    else Parse(0, "", args + [str], tail[1..])
  }

  lemma {:induction false} ReadBareRest(str: string, args: seq<string>, w: string, tail: string)
    requires ' ' !in w && '\n' !in w && Delimited(tail)
    ensures Parse(1, str, args, w + tail) == AfterWord(str + w, args, tail)
    decreases |w|
  {
    if w == [] {
      assert w + tail == tail && str + w == str;
    } else {
      assert (w + tail)[0] == w[0] && (w + tail)[1..] == w[1..] + tail;
      assert str + w == str + [w[0]] + w[1..];
      ReadBareRest(str + [w[0]], args, w[1..], tail);
    }
  }

  lemma ReadBare(args: seq<string>, w: string, tail: string)
    requires Plain(w) && Delimited(tail)
    ensures Parse(0, "", args, w + tail) == AfterWord(w, args, tail)
  {
    assert (w + tail)[0] == w[0] && (w + tail)[1..] == w[1..] + tail;
    assert [w[0]] + w[1..] == w;
    ReadBareRest([w[0]], args, w[1..], tail);
  }

  lemma EscapeFirst(t: string)
    requires t != []
    ensures Escape(t) == (if t[0] == '\'' then "'\\''" else [t[0]]) + Escape(t[1..])
  {
    assert t == [t[0]] + t[1..];
    EscapeOne(t[0]);
    EscapeAppend([t[0]], t[1..]);
  }

  /** The four characters for a quote take the reader out of the string and back in. */
  lemma ReadQuote(str: string, args: seq<string>, more: string)
    ensures Parse(2, str, args, "'\\''" + more) == Parse(2, str + "'", args, more)
  {
    var i1, i2, i3 := "\\''" + more, "''" + more, "'" + more;
    assert ("'\\''" + more)[1..] == i1 && i1[1..] == i2 && i2[1..] == i3 && i3[1..] == more;
    assert Parse(2, str, args, "'\\''" + more) == Parse(3, str, args, i1);
    assert Parse(3, str, args, i1) == Parse(4, str, args, i2);
    assert Parse(4, str, args, i2) == Parse(0, str + "'", args, i3);
  }

  lemma {:induction false} ReadQuotedRest(str: string, args: seq<string>, t: string, tail: string)
    ensures Parse(2, str, args, Escape(t) + "'" + tail) == Parse(3, str + t, args, tail)
    decreases |t|
  {
    if t == [] {
      assert Escape(t) + "'" + tail == "'" + tail && ("'" + tail)[1..] == tail && str + t == str;
    } else {
      EscapeFirst(t);
      hide Escape;
      var more := Escape(t[1..]) + "'" + tail;
      assert str + t == str + [t[0]] + t[1..];
      ReadQuotedRest(str + [t[0]], args, t[1..], tail);
      if t[0] == '\'' {
        assert Escape(t) + "'" + tail == "'\\''" + more;
        ReadQuote(str, args, more);
      } else {
        assert Escape(t) + "'" + tail == [t[0]] + more;
        assert ([t[0]] + more)[1..] == more;
      }
    }
  }

  lemma ReadQuoted(args: seq<string>, t: string, tail: string)
    requires Delimited(tail)
    ensures Parse(0, "", args, "'" + Escape(t) + "'" + tail) == AfterWord(t, args, tail)
  {
    hide Escape;
    var body := Escape(t) + "'" + tail;
    assert "'" + Escape(t) + "'" + tail == "'" + body && ("'" + body)[1..] == body;
    ReadQuotedRest("", args, t, tail);
    assert "" + t == t;
  }

  lemma ReadArg(args: seq<string>, a: Arg, tail: string)
    requires (a.Bare? ==> Plain(a.word)) && Delimited(tail)
    ensures Parse(0, "", args, Show(a) + tail) == AfterWord(Meaning(a), args, tail)
  {
    hide Parse, Escape;
    match a {
      case Bare(w) => ReadBare(args, w, tail);
      case Quoted(t) => ReadQuoted(args, t, tail);
    }
  }

  // ---- reading back lines

  lemma {:induction false} ReadAll(before: seq<string>, args: seq<Arg>, blank: bool, rest: string)
    requires args != [] && Good(args)
    ensures Parse(0, "", before, ShowLine(args, blank) + rest) == Line(before + Meanings(args), rest)
    decreases |args|
  {
    hide Show;
    var a := args[0];
    if |args| == 1 {
      var tail := (if blank then " \n" else "\n") + rest;
      assert ShowLine(args, blank) + rest == Show(a) + tail;
      ReadArg(before, a, tail);
      assert Meanings(args) == [Meaning(a)];
      EndOfLine(before + [Meaning(a)], blank, rest);
    } else {
      var tail := " " + (ShowLine(args[1..], blank) + rest);
      assert ShowLine(args, blank) + rest == Show(a) + tail;
      ReadArg(before, a, tail);
      assert tail[1..] == ShowLine(args[1..], blank) + rest;
      hide Parse, ShowLine;
      ReadAll(before + [Meaning(a)], args[1..], blank, rest);
      assert Meanings(args) == [Meaning(a)] + Meanings(args[1..]);
    }
  }

  lemma EndOfLine(args: seq<string>, blank: bool, rest: string)
    ensures var tail := (if blank then " \n" else "\n") + rest;
            if blank then tail[1..] == "\n" + rest && Parse(0, "", args, tail[1..]) == Line(args, rest)
            else tail[1..] == rest
  {
    assert (" \n" + rest)[1..] == "\n" + rest;
    assert ("\n" + rest)[1..] == rest;
  }

  /** What the client renders the server reads back, argument for argument, and it stops
      exactly behind the line's newline. */
  lemma LineRoundTrip(args: seq<Arg>, blank: bool, rest: string)
    requires args != [] && Good(args)
    ensures Parse(0, "", [], ShowLine(args, blank) + rest) == Line(Meanings(args), rest)
  {
    hide Parse, ShowLine;
    ReadAll([], args, blank, rest);
    assert [] + Meanings(args) == Meanings(args);
  }

  // ---- lines that end early, and what is ignored

  lemma {:induction false} ReadAllThen(before: seq<string>, args: seq<Arg>, more: string)
    requires args != [] && Good(args)
    ensures Parse(0, "", before, ShowAll(args) + " " + more) == Parse(0, "", before + Meanings(args), more)
    decreases |args|
  {
    hide Show;
    var a := args[0];
    if |args| == 1 {
      var tail := " " + more;
      assert ShowAll(args) + " " + more == Show(a) + tail && tail[1..] == more;
      ReadArg(before, a, tail);
      assert Meanings(args) == [Meaning(a)];
    } else {
      var tail := " " + (ShowAll(args[1..]) + " " + more);
      assert ShowAll(args) + " " + more == Show(a) + tail;
      ReadArg(before, a, tail);
      assert tail[1..] == ShowAll(args[1..]) + " " + more;
      hide Parse, ShowAll;
      ReadAllThen(before + [Meaning(a)], args[1..], more);
      assert before + Meanings(args) == before + [Meaning(a)] + Meanings(args[1..]);
    }
  }

  lemma {:induction false} BareEnds(str: string, args: seq<string>, w: string)
    requires ' ' !in w && '\n' !in w
    ensures Parse(1, str, args, w) == Eof(args)
    decreases |w|
  {
    if w != [] {
      assert w[0] in w;
      BareEnds(str + [w[0]], args, w[1..]);
    }
  }

  /** When the input ends within a line, the arguments before the unfinished one are left, whether
      that is a plain word or an open quoted string. */
  lemma InputEnds(args: seq<Arg>, last: Arg)
    requires args != [] && Good(args) && Good([last])
    ensures var text := match last case Bare(w) => w case Quoted(t) => "'" + Escape(t);
            Parse(0, "", [], ShowAll(args) + " " + text) == Eof(Meanings(args))
  {
    hide ShowAll, Escape;
    var text := match last case Bare(w) => w case Quoted(t) => "'" + Escape(t);
    ReadAllThen([], args, text);
    assert [] + Meanings(args) == Meanings(args);
    match last
    case Bare(w) =>
      assert [last][0] == last;
      BareEnds([w[0]], Meanings(args), w[1..]);
    case Quoted(t) =>
      assert text[1..] == Escape(t);
      QuotedEnds("", Meanings(args), t);
  }

  lemma {:induction false} QuotedEnds(str: string, args: seq<string>, t: string)
    ensures Parse(2, str, args, Escape(t)) == Eof(args)
    decreases |t|
  {
    if t == [] {
      assert Escape(t) == [];
    } else {
      EscapeFirst(t);
      hide Escape;
      var more := Escape(t[1..]);
      if t[0] == '\'' {
        QuotedEnds(str + "'", args, t[1..]);
        ReadQuote(str, args, more);
      } else {
        QuotedEnds(str + [t[0]], args, t[1..]);
        assert ([t[0]] + more)[1..] == more;
      }
    }
  }

  /** Between the closing quote and the delimiter the reader ignores ordinary characters, and
      behind a backslash all but a quote. */
  lemma {:induction false} JunkIgnored(state: nat, str: string, args: seq<string>, junk: string, tail: string)
    requires 3 <= state <= 4 && Delimited(tail)
    requires ' ' !in junk && '\n' !in junk && '\'' !in junk
    ensures Parse(state, str, args, junk + tail) == AfterWord(str, args, tail)
    decreases |junk|
  {
    if junk == [] {
      assert junk + tail == tail;
    } else {
      assert junk[0] in junk;
      assert (junk + tail)[0] == junk[0] && (junk + tail)[1..] == junk[1..] + tail;
      JunkIgnored(if junk[0] == '\\' then 4 else state, str, args, junk[1..], tail);
    }
  }

  /** All lines of an input, empty ones skipped, as the server's main loop takes them. */
  function ParseStream(input: string): seq<seq<string>>
    decreases |input|
  {
    match Parse(0, "", [], input)
    case Line(args, rest) => (if args == [] then [] else [args]) + ParseStream(rest)
    case Eof(args) => if args == [] then [] else [args]
  }

  datatype Command = Command(args: seq<Arg>, blank: bool)

  function ShowStream(cmds: seq<Command>): string {
    if cmds == [] then "" else ShowLine(cmds[0].args, cmds[0].blank) + ShowStream(cmds[1..])
  }

  function StreamMeaning(cmds: seq<Command>): seq<seq<string>> {
    if cmds == [] then [] else [Meanings(cmds[0].args)] + StreamMeaning(cmds[1..])
  }

  /** Any number of lines sent one after the other is cut into exactly those lines. */
  lemma {:induction false} StreamRoundTrip(cmds: seq<Command>)
    requires forall i :: 0 <= i < |cmds| ==> cmds[i].args != [] && Good(cmds[i].args)
    ensures ParseStream(ShowStream(cmds)) == StreamMeaning(cmds)
  {
    hide ShowLine;
    if cmds != [] {
      LineRoundTrip(cmds[0].args, cmds[0].blank, ShowStream(cmds[1..]));
      hide Parse, Meanings;
      StreamRoundTrip(cmds[1..]);
      assert Meanings(cmds[0].args) != [];
    }
  }
}
