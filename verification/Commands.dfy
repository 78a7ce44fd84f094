/** Rendering a command into the socket buffer, with the caller's identity in front when the
    mount preserves ownership. */
module Commands {
  import opened CStrings
  import opened Quoting
  import opened CommandLine
  import opened Names

  const SOCKBUF_SIZE: nat := PATH_MAX * 10

  /** Each group followed by a blank. */
  function GroupText(groups: seq<int>): string {
    if groups == [] then "" else GroupText(groups[..|groups| - 1]) + Dec(groups[|groups| - 1]) + " "
  }

  /** The groups with single blanks between them. */
  function GroupList(groups: seq<int>): string
    requires groups != []
  {
    GroupText(groups)[..|GroupText(groups)| - 1]
  }

  /** What follows the command word. */
  function UgidText(preserve: bool, uid: int, groups: seq<int>): string
    requires preserve ==> groups != []
  {
    if preserve then " " + Dec(uid) + " '" + GroupList(groups) + "' " else " "
  }

  lemma {:induction false} GroupTextShape(groups: seq<int>)
    ensures NulFree(GroupText(groups)) && Quotes(GroupText(groups)) == 0
    ensures groups != [] ==> |GroupText(groups)| > 1 && GroupText(groups)[|GroupText(groups)| - 1] == ' '
  {
    hide Escape, Quotes, Dec;
    if groups != [] {
      var last := Dec(groups[|groups| - 1]);
      GroupTextShape(groups[..|groups| - 1]);
      NoQuotesIn(last + " ");
      EscapeAppend(GroupText(groups[..|groups| - 1]), last + " ");
      assert GroupText(groups) == GroupText(groups[..|groups| - 1]) + (last + " ");
    } else {
      NoQuotes();
    }
  }

  lemma {:induction false} NoQuotesIn(s: string)
    requires '\'' !in s
    ensures Quotes(s) == 0
  {
    if s != [] {
      NoQuotesIn(s[..|s| - 1]);
    }
  }

  /** snprintf and strcpy of one piece. */
  method Append(buf: array<char>, at: nat, s: string) returns (end: nat)
    requires at + |s| < buf.Length
    modifies buf
    ensures end == at + |s| && buf[..at] == old(buf[..at]) && buf[at..end] == s && buf[end] == NUL
    ensures buf[end + 1..] == old(buf[end + 1..])
  {
    StrCpy(buf, at, s);
    end := at + |s|;
  }

  lemma {:induction false} GroupTextGrows(groups: seq<int>, i: nat)
    requires i <= |groups|
    ensures |GroupText(groups[..i])| <= |GroupText(groups)|
    decreases |groups| - i
  {
    if i < |groups| {
      assert groups[..i + 1][..i] == groups[..i];
      GroupTextGrows(groups, i + 1);
    } else {
      assert groups[..i] == groups;
    }
  }

  lemma GroupTextStep(groups: seq<int>, i: nat)
    requires i < |groups|
    ensures GroupText(groups[..i + 1]) == GroupText(groups[..i]) + (Dec(groups[i]) + " ")
  {
    assert groups[..i + 1][..i] == groups[..i];
  }

  /** What the buffer holds up to `end`, and that nothing behind `limit` was written. */
  ghost predicate Has(b: seq<char>, b0: seq<char>, text: string, limit: nat) {
    && |b| == |b0| && |text| < limit <= |b|
    && b[..|text|] == text && b[|text|] == NUL
    && b[limit..] == b0[limit..]
  }

  /** Appends `s` to the text in the buffer. */
  method Extend(buf: array<char>, ghost b0: seq<char>, ghost text: string, at: nat, s: string, ghost limit: nat)
    returns (end: nat)
    requires at == |text| && at + |s| < limit <= buf.Length == |b0|
    requires buf[..at] == text && buf[limit..] == b0[limit..]
    modifies buf
    ensures end == at + |s| && Has(buf[..], b0, text + s, limit)
  {
    ghost var b := buf[..];
    end := Append(buf, at, s);
    assert buf[..end] == buf[..at] + buf[at..end];
    assert buf[limit..] == buf[end + 1..][limit - end - 1..];
    assert b[limit..] == b[end + 1..][limit - end - 1..];
  }

  /** Loop of get_ugid: the groups, each with a blank behind it. */
  method PutGroups(buf: array<char>, ghost b0: seq<char>, ghost text: string, at: nat, max: nat, s0: nat,
                   groups: seq<int>)
    returns (end: int)
    requires at + max <= buf.Length == |b0| && s0 == |text| >= at && Has(buf[..], b0, text, at + max)
    modifies buf
    ensures end < 0 <==> groups != [] && s0 - at + |GroupText(groups)| + 2 > max
    ensures end >= 0 ==> end == s0 + |GroupText(groups)| && Has(buf[..], b0, text + GroupText(groups), at + max)
    ensures buf[at + max..] == b0[at + max..]
  {
    hide Dec;
    var s := s0;
    assert groups[..0] == [] && text + GroupText([]) == text;
    for i := 0 to |groups|
      invariant s == s0 + |GroupText(groups[..i])|
      invariant i > 0 ==> s - at + 2 <= max
      invariant Has(buf[..], b0, text + GroupText(groups[..i]), at + max)
    {
      var piece := Dec(groups[i]) + " ";
      GroupTextStep(groups, i);
      GroupTextGrows(groups, i + 1);
      if s - at + |piece| + 2 > max {
        return -1;
      }
      ghost var now := text + GroupText(groups[..i]);
      s := Extend(buf, b0, now, s, piece, at + max);
      assert now + piece == text + GroupText(groups[..i + 1]);
    }
    assert groups[..|groups|] == groups;
    end := s;
  }

  /** A shorter prefix of the text, to be overwritten from `keep` on. */
  lemma HasPrefix(b: seq<char>, b0: seq<char>, text: string, limit: nat, keep: nat)
    requires Has(b, b0, text, limit) && keep <= |text|
    ensures b[..keep] == text[..keep]
  {
    assert b[..keep] == b[..|text|][..keep];
  }

  /** The caller's identity at `at`, using no more than `max` characters; it succeeds exactly
      when its text and a NUL fit. */
  method GetUgid(buf: array<char>, at: nat, max: nat, preserve: bool, uid: int, groups: seq<int>) returns (end: int)
    requires at + max <= buf.Length && (preserve ==> groups != [])
    modifies buf
    ensures end < 0 <==> |UgidText(preserve, uid, groups)| + 1 > max
    ensures buf[at + max..] == old(buf[at + max..])
    ensures end >= 0 ==>
              && end == at + |UgidText(preserve, uid, groups)|
              && Has(buf[..], old(buf[..]), old(buf[..at]) + UgidText(preserve, uid, groups), at + max)
  {
    hide Dec, Has, GroupText;
    ghost var b0, text := buf[..], buf[..at];
    if max < 2 {
      return -1;
    }
    HasTail(b0, b0, at + max);
    var s: int := Extend(buf, b0, text, at, " ", at + max);
    if preserve {
      s := PutIdentity(buf, b0, text, at, max, s, uid, groups);
    }
    end := s;
    if end >= 0 {
      TailKept(buf[..], b0, text + UgidText(preserve, uid, groups), at + max);
    }
  }

  lemma HasTail(b: seq<char>, b0: seq<char>, limit: nat)
    requires b == b0 && limit <= |b|
    ensures b[limit..] == b0[limit..]
  {
  }

  lemma TailKept(b: seq<char>, b0: seq<char>, text: string, limit: nat)
    requires Has(b, b0, text, limit)
    ensures |b| == |b0| && limit <= |b| && b[limit..] == b0[limit..]
  {
  }

  /** The identity up to the opening quote. */
  function Opened(text: string, uid: int): string {
    text + " " + (Dec(uid) + " '")
  }

  /** The last character replaced by the closing quote and a blank. */
  function Closed(all: string): (r: string)
    requires all != []
    ensures |r| == |all| + 1
  {
    all[..|all| - 1] + "' "
  }

  /** How the identity grows: the groups' last blank gives way to the closing quote. */
  lemma IdentityText(text: string, uid: int, groups: seq<int>)
    requires groups != []
    ensures var open := Opened(text, uid);
            var all := open + GroupText(groups);
            && all != [] && |GroupText(groups)| > 0 && |open| == |text| + 1 + |Dec(uid) + " '"|
            && Closed(all) == text + UgidText(true, uid, groups)
            && |UgidText(true, uid, groups)| == |open| - |text| + |GroupText(groups)| + 1
  {
    GroupTextShape(groups);
    hide Dec, GroupText;
    var open := Opened(text, uid);
    assert (open + GroupText(groups))[..|open| + |GroupText(groups)| - 1] == open + GroupList(groups);
    assert open + GroupList(groups) + "' " == text + UgidText(true, uid, groups);
  }

  /** The part of the identity behind the first blank. */
  method PutIdentity(buf: array<char>, ghost b0: seq<char>, ghost text: string, at: nat, max: nat, s0: nat,
                     uid: int, groups: seq<int>) returns (end: int)
    requires at + max <= buf.Length == |b0| && at == |text| && s0 == at + 1 && groups != []
    requires Has(buf[..], b0, text + " ", at + max)
    modifies buf
    ensures end < 0 <==> |UgidText(true, uid, groups)| + 1 > max
    ensures buf[at + max..] == b0[at + max..]
    ensures end >= 0 ==>
              && end == at + |UgidText(true, uid, groups)|
              && Has(buf[..], b0, text + UgidText(true, uid, groups), at + max)
  {
    IdentityText(text, uid, groups);
    hide Dec, Has, GroupText, GroupList, UgidText, Closed;
    HasPrefix(buf[..], b0, text + " ", at + max, s0);
    TailKept(buf[..], b0, text + " ", at + max);
    var piece := Dec(uid) + " '";
    if s0 - at + |piece| + 1 > max {
      return -1;
    }
    var s := Extend(buf, b0, text + " ", s0, piece, at + max);
    hide Opened;
    end := PutGroups(buf, b0, Opened(text, uid), at, max, s, groups);
    if end >= 0 {
      end := CloseQuote(buf, b0, Opened(text, uid) + GroupText(groups), end, at + max);
      TailKept(buf[..], b0, text + UgidText(true, uid, groups), at + max);
    }
  }

  /** Overwrites the last character with the closing quote and a blank. */
  method CloseQuote(buf: array<char>, ghost b0: seq<char>, ghost all: string, s: nat, ghost limit: nat)
    returns (end: nat)
    requires s == |all| > 0 && s + 1 < limit <= buf.Length == |b0| && Has(buf[..], b0, all, limit)
    modifies buf
    ensures end == s + 1 && Has(buf[..], b0, Closed(all), limit)
  {
    HasPrefix(buf[..], b0, all, limit, s - 1);
    TailKept(buf[..], b0, all, limit);
    hide Has;
    end := Extend(buf, b0, all[..s - 1], s - 1, "' ", limit);
  }

  /** vsnprintf: writes what fits of `s` in `room` characters, its NUL included, and returns the
      full length. */
  method Vsnprintf(buf: array<char>, ghost b0: seq<char>, ghost text: string, at: nat, s: string, room: nat)
    returns (full: nat)
    requires at == |text| && 0 < room && at + room == buf.Length == |b0| && buf[..at] == text
    modifies buf
    ensures full == |s|
    ensures Has(buf[..], b0, text + if |s| < room then s else s[..room - 1], buf.Length)
  {
    full := |s|;
    assert buf[buf.Length..] == b0[buf.Length..] == [];
    var _ := Extend(buf, b0, text, at, if |s| < room then s else s[..room - 1], buf.Length);
  }

  /** The line sent for command word `cmd` with formatted arguments `args`. */
  function LineText(cmd: string, preserve: bool, uid: int, groups: seq<int>, args: string): string
    requires preserve ==> groups != []
  {
    cmd + UgidText(preserve, uid, groups) + args + "\n"
  }

  /** Renders a command into the socket buffer; it is refused exactly when the line and its NUL
      do not fit. */
  method DoCommand(buf: array<char>, cmd: string, preserve: bool, uid: int, groups: seq<int>, args: string)
    returns (len: int)
    requires buf.Length == SOCKBUF_SIZE && |cmd| < SOCKBUF_SIZE && (preserve ==> groups != [])
    modifies buf
    ensures len < 0 <==> |LineText(cmd, preserve, uid, groups, args)| + 1 > SOCKBUF_SIZE
    ensures len >= 0 ==>
              && len == |LineText(cmd, preserve, uid, groups, args)| < SOCKBUF_SIZE
              && buf[..len] == LineText(cmd, preserve, uid, groups, args) && buf[len] == NUL
  {
    hide UgidText, Has;
    ghost var b0, ugid := buf[..], UgidText(preserve, uid, groups);
    assert buf[..0] == [] && b0[buf.Length..] == [];
    var s: int := Extend(buf, b0, [], 0, cmd, buf.Length);
    assert [] + cmd == cmd;
    HasPrefix(buf[..], b0, cmd, buf.Length, |cmd|);
    ghost var b1 := buf[..];
    s := GetUgid(buf, |cmd|, SOCKBUF_SIZE - |cmd|, preserve, uid, groups);
    if s < 0 {
      return -1;
    }
    assert b1[..|cmd|] == cmd;
    HasPrefix(buf[..], b1, cmd + ugid, buf.Length, s);
    var full := Vsnprintf(buf, buf[..], cmd + ugid, s, args, SOCKBUF_SIZE - s);
    var strlen := if full < SOCKBUF_SIZE - s then s + full else SOCKBUF_SIZE - 1;
    if strlen + 2 > SOCKBUF_SIZE {
      return -1;
    }
    HasPrefix(buf[..], buf[..], cmd + ugid + args, buf.Length, s + full);
    var end := Extend(buf, buf[..], cmd + ugid + args, s + full, "\n", buf.Length);
    HasPrefix(buf[..], buf[..], cmd + ugid + args + "\n", buf.Length, end);
    HasEnd(buf[..], buf[..], cmd + ugid + args + "\n", buf.Length);
    len := end;
  }

  lemma HasEnd(b: seq<char>, b0: seq<char>, text: string, limit: nat)
    requires Has(b, b0, text, limit)
    ensures |text| < |b| && b[|text|] == NUL
  {
  }

  // ---- what the server reads

  /** The arguments in front of the command's own. */
  function Identity(preserve: bool, uid: int, groups: seq<int>): seq<Arg>
    requires preserve ==> groups != []
  {
    if preserve then [Bare(Dec(uid)), Quoted(GroupList(groups))] else []
  }

  lemma GroupListShown(groups: seq<int>)
    requires groups != []
    ensures Escape(GroupList(groups)) == GroupList(groups) && NulFree(GroupList(groups))
  {
    GroupTextShape(groups);
    var all := GroupText(groups);
    assert Quotes(all) == Quotes(all[..|all| - 1]) + 0;
    EscapePlain(GroupList(groups));
  }

  /** The two ways to cut a line with an identity. */
  lemma SameCut(cmd: string, u: string, g: string, args: string)
    ensures cmd + (" " + u + " '" + g + "' ") + args + "\n"
         == cmd + (" " + (u + (" " + ("'" + g + "'" + (" " + args))))) + "" + "\n"
    ensures cmd + (" " + u + " '" + g + "' ") + "" + "\n"
         == cmd + (" " + (u + (" " + ("'" + g + "'" + "")))) + " " + "\n"
  {
  }

  lemma ShownIdentity(cmd: string, u: string, g: string, args: seq<Arg>)
    requires Escape(g) == g
    ensures var all := [Bare(cmd), Bare(u), Quoted(g)] + args;
            ShowAll(all) == cmd + (" " + (u + (" " + ("'" + g + "'" + if args == [] then "" else " " + ShowAll(args)))))
  {
    hide Escape;
    var all := [Bare(cmd), Bare(u), Quoted(g)] + args;
    assert all[1..] == [Bare(u), Quoted(g)] + args;
    assert all[1..][1..] == [Quoted(g)] + args;
    assert all[1..][1..][1..] == args;
    ShownStep(all);
    ShownStep(all[1..]);
    ShownStep(all[1..][1..]);
  }

  /** The rendered line is the command word, the identity and the arguments as the reader's
      grammar has them. */
  lemma LineIsShown(cmd: string, preserve: bool, uid: int, groups: seq<int>, args: seq<Arg>)
    requires preserve ==> groups != []
    ensures LineText(cmd, preserve, uid, groups, ShowAll(args))
         == ShowLine([Bare(cmd)] + Identity(preserve, uid, groups) + args, args == [])
  {
    hide Dec, Escape, GroupList, ShowAll;
    if preserve {
      var u, g := Dec(uid), GroupList(groups);
      GroupListShown(groups);
      ShownIdentity(cmd, u, g, args);
      SameCut(cmd, u, g, ShowAll(args));
      assert [Bare(cmd)] + [Bare(u), Quoted(g)] + args == [Bare(cmd), Bare(u), Quoted(g)] + args;
      NothingShown();
    } else {
      var all := [Bare(cmd)] + args;
      assert [Bare(cmd)] + [] + args == all && all[1..] == args;
      ShownStep(all);
      NothingShown();
    }
  }

  lemma NothingShown()
    ensures ShowAll([]) == ""
  {
  }

  lemma ShownStep(args: seq<Arg>)
    requires args != []
    ensures ShowAll(args) == Show(args[0]) + if args[1..] == [] then "" else " " + ShowAll(args[1..])
  {
  }

  lemma DecIsPlain(n: int)
    ensures Plain(Dec(n)) && NulFree(Dec(n))
  {
  }

  /** With or without preserved ownership, the server reads from a rendered line exactly the
      command word, the uid and the group list "g1 g2 ... gn", and the arguments. */
  lemma SentIsRead(cmd: string, preserve: bool, uid: int, groups: seq<int>, args: seq<Arg>, rest: string)
    requires Plain(cmd) && Good(args) && (preserve ==> groups != [])
    ensures Parse(0, "", [], LineText(cmd, preserve, uid, groups, ShowAll(args)) + rest)
         == Line([cmd] + (if preserve then [Dec(uid), GroupList(groups)] else []) + Meanings(args), rest)
  {
    hide Dec, Parse, GroupList, LineText, ShowLine, ShowAll, Good, Plain, Meanings, Identity;
    var all := [Bare(cmd)] + Identity(preserve, uid, groups) + args;
    LineIsShown(cmd, preserve, uid, groups, args);
    AllMeanings(cmd, preserve, uid, groups, args);
    LineRoundTrip(all, args == [], rest);
  }

  lemma AllMeanings(cmd: string, preserve: bool, uid: int, groups: seq<int>, args: seq<Arg>)
    requires Plain(cmd) && Good(args) && (preserve ==> groups != [])
    ensures var all := [Bare(cmd)] + Identity(preserve, uid, groups) + args;
            && Good(all)
            && Meanings(all) == [cmd] + (if preserve then [Dec(uid), GroupList(groups)] else []) + Meanings(args)
  {
    DecIsPlain(uid);
    hide Dec, GroupList, Plain;
  }

  lemma GroupListStep(groups: seq<int>)
    requires groups != []
    ensures var n := |groups| - 1;
            GroupList(groups) == if n == 0 then Dec(groups[n]) else GroupList(groups[..n]) + " " + Dec(groups[n])
  {
    hide Dec;
    var n := |groups| - 1;
    var before, last := groups[..n], Dec(groups[n]);
    GroupTextShape(before);
    assert GroupText(groups) == GroupText(before) + last + " ";
    if n > 0 {
      assert GroupText(before) == GroupList(before) + " ";
    } else {
      assert before == [] && GroupText(groups) == last + " ";
    }
  }

  function Decs(groups: seq<int>): (r: seq<string>)
    ensures |r| == |groups|
  {
    seq(|groups|, i requires 0 <= i < |groups| => Dec(groups[i]))
  }

  /** The group list has one word for each group, in order. */
  lemma {:induction false} GroupWords(groups: seq<int>)
    requires groups != []
    ensures Words(GroupList(groups)) == Decs(groups)
    decreases |groups|
  {
    hide Dec, Words, GroupList;
    var n := |groups| - 1;
    var before, last := groups[..n], Dec(groups[n]);
    DecValue(groups[n]);
    GroupListStep(groups);
    if n == 0 {
      OneWord(last);
      assert Decs(groups) == [last];
    } else {
      GroupWords(before);
      WordsAppend(GroupList(before), last);
      assert Decs(groups) == Decs(before) + [last];
    }
  }

  /** With preserved ownership the server reads numbers: the uid, and the groups in order. */
  lemma IdentityIsRead(cmd: string, uid: int, groups: seq<int>, args: seq<Arg>, rest: string)
    requires Plain(cmd) && Good(args) && groups != []
    ensures var p := Parse(0, "", [], LineText(cmd, true, uid, groups, ShowAll(args)) + rest);
            && p.Line? && p.rest == rest && |p.args| == 3 + |args| && p.args[0] == cmd
            && Number(p.args[1]) == uid
            && var words := Words(p.args[2]);
               && |words| == |groups| && (forall i :: 0 <= i < |groups| ==> Number(words[i]) == groups[i])
               && p.args[3..] == Meanings(args)
  {
    SentIsRead(cmd, true, uid, groups, args, rest);
    hide Dec, Parse, GroupList, LineText, ShowAll, Number, Words;
    GroupWords(groups);
    DecValue(uid);
    forall i | 0 <= i < |groups| ensures Number(Dec(groups[i])) == groups[i] {
      DecValue(groups[i]);
    }
    assert ([cmd] + [Dec(uid), GroupList(groups)] + Meanings(args))[3..] == Meanings(args);
  }

  /** What is sent about the file whose name is `path`, as the server's grammar has it. */
  function Request(cmd: string, preserve: bool, uid: int, groups: seq<int>, path: string, words: seq<Arg>): string
    requires preserve ==> groups != []
  {
    LineText(cmd, preserve, uid, groups, ShowAll([Quoted(path)] + words))
  }

  /** The request was refused because something did not fit, or the server reads from the line
      the command word, the identity, the exact path and the other arguments. */
  ghost predicate Sent(line: string, cmd: string, preserve: bool, uid: int, groups: seq<int>, path: string,
                       words: seq<Arg>)
    requires preserve ==> groups != []
  {
    && (line == "" <==>
          |Escape(path)| + 1 > PATH_MAX || |Request(cmd, preserve, uid, groups, path, words)| + 1 > SOCKBUF_SIZE)
    && (line != "" ==> forall rest ::
          Parse(0, "", [], line + rest)
            == Line([cmd] + (if preserve then [Dec(uid), GroupList(groups)] else []) + [path] + Meanings(words), rest))
  }

  /** check_path and do_command with the path in `name`, quoted, and further words. A command
      that is sent reaches the server with the exact path, whatever its characters. */
  method SendName(name: array<char>, cmd: string, preserve: bool, uid: int, groups: seq<int>, words: seq<Arg>)
    returns (line: string)
    requires name.Length == PATH_MAX && NUL in name[..]
    requires Plain(cmd) && |cmd| < PATH_MAX && Good(words) && (preserve ==> groups != [])
    modifies name
    ensures Sent(line, cmd, preserve, uid, groups, old(CStr(name[..])), words)
  {
    hide Escape, Parse, Dec, GroupList, CStr, Plain, ShowAll;
    ghost var path := CStr(name[..]);
    var ok := ReplaceQuote(name);
    if !ok {
      return "";
    }
    var buf := new char[SOCKBUF_SIZE](_ => 'x');
    var args := "'" + CStr(name[..]) + "'" + if words == [] then "" else " " + ShowAll(words);
    ShownName(path, words);
    var len := DoCommand(buf, cmd, preserve, uid, groups, args);
    if len < 0 {
      return "";
    }
    line := buf[..len];
    forall rest
      ensures Parse(0, "", [], line + rest)
           == Line([cmd] + (if preserve then [Dec(uid), GroupList(groups)] else []) + [path] + Meanings(words), rest)
    {
      NameIsRead(cmd, preserve, uid, groups, path, words, rest);
    }
  }

  lemma ShownName(path: string, words: seq<Arg>)
    ensures ShowAll([Quoted(path)] + words)
         == "'" + Escape(path) + "'" + if words == [] then "" else " " + ShowAll(words)
  {
    hide Escape;
    ShownStep([Quoted(path)] + words);
    assert ([Quoted(path)] + words)[1..] == words;
  }

  lemma NameIsRead(cmd: string, preserve: bool, uid: int, groups: seq<int>, path: string, words: seq<Arg>,
                   rest: string)
    requires Plain(cmd) && Good(words) && (preserve ==> groups != [])
    ensures Parse(0, "", [], Request(cmd, preserve, uid, groups, path, words) + rest)
         == Line([cmd] + (if preserve then [Dec(uid), GroupList(groups)] else []) + [path] + Meanings(words), rest)
  {
    hide Escape, Parse, Dec, GroupList, Plain, ShowAll, LineText;
    var all := [Quoted(path)] + words;
    SentIsRead(cmd, preserve, uid, groups, all, rest);
    assert Meanings(all) == [path] + Meanings(words);
    var ids := [cmd] + if preserve then [Dec(uid), GroupList(groups)] else [];
    assert ids + ([path] + Meanings(words)) == ids + [path] + Meanings(words);
  }

  /** Opening a file stops when its path does not fit; else the server receives exactly the path. */
  method SendOpen(d: Dentry, stale: seq<char>, mode: string, preserve: bool, uid: int, groups: seq<int>)
    returns (line: string)
    requires Proper(d) && mode in {"R", "W", "RW"} && (preserve ==> groups != [])
    requires |stale| == PATH_MAX
    ensures |Joined(d)| + 1 > PATH_MAX ==> line == ""
    ensures |Joined(d)| + 1 <= PATH_MAX ==> Sent(line, "s_open", preserve, uid, groups, Path(d), [Bare(mode)])
  {
    hide Path, Joined, CStr, Sent;
    var name := new char[PATH_MAX](i requires 0 <= i < PATH_MAX => stale[i]);
    var ok := GetName(d, name);
    if !ok {
      return "";
    }
    line := SendName(name, "s_open", preserve, uid, groups, [Bare(mode)]);
  }

  /** The name in a buffer that held `stale` when get_name was called and its result was only
      compared with negative numbers. */
  function NameOf(d: Dentry, stale: seq<char>): string {
    if |Joined(d)| + 1 <= PATH_MAX then Path(d) else CStr(stale)
  }

  /** Removing a file, like most operations, never stops: the name sent is the path if that
      fits, and else whatever the buffer held before. */
  method SendUnlink(d: Dentry, stale: seq<char>, preserve: bool, uid: int, groups: seq<int>)
    returns (line: string)
    requires Proper(d) && (preserve ==> groups != [])
    requires |stale| == PATH_MAX && (|Joined(d)| + 1 > PATH_MAX ==> NUL in stale)
    ensures Sent(line, "s_rm", preserve, uid, groups, NameOf(d, stale), [])
  {
    hide Path, Joined, CStr, Sent;
    var name := new char[PATH_MAX](i requires 0 <= i < PATH_MAX => stale[i]);
    assert name[..] == stale;
    var _ := GetName(d, name);
    line := SendName(name, "s_rm", preserve, uid, groups, []);
  }

  /** The file that is meant is the one named, whatever the buffer held, if and only if its path
      fits; else the name does not depend on the file at all. */
  lemma NamedIff(d: Dentry)
    requires Proper(d)
    ensures (forall stale | |stale| == PATH_MAX && NUL in stale :: NameOf(d, stale) == Path(d))
              <==> |Joined(d)| + 1 <= PATH_MAX
    ensures forall d', stale ::
              |Joined(d)| + 1 > PATH_MAX && |Joined(d')| + 1 > PATH_MAX ==> NameOf(d, stale) == NameOf(d', stale)
  {
    if |Joined(d)| + 1 > PATH_MAX {
      var stale := seq(PATH_MAX, _ => NUL);
      assert stale[0] == NUL;
      assert NameOf(d, stale) == "" != Path(d);
    }
  }
}
