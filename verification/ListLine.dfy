/** Cutting a line of `ls -lan` into its columns, in place. */
module ListLine {
  import opened CStrings

  const COLS: nat := 9
  const PERM: nat := 0
  const SIZE: nat := 4
  const NAME: nat := 8

  // ---- the scan as a function of the line

  /** How many characters the blanks at the start and the word behind them take. */
  function SkipBlanks(s: string): (e: nat)
    ensures e <= |s|
  {
    if s != [] && s[0] == ' ' then 1 + SkipBlanks(s[1..]) else 0
  }

  function SkipWord(s: string): (e: nat)
    ensures e <= |s|
  {
    if s != [] && s[0] != ' ' then 1 + SkipWord(s[1..]) else 0
  }

  function SkipMinor(s: string): (e: nat)
    ensures e <= |s|
  {
    SkipBlanks(s) + SkipWord(s[SkipBlanks(s)..])
  }

  predicate DeviceLetter(ch: char) {
    ch == 'b' || ch == 'c'
  }

  /** The columns found in `rest` when `c` columns have begun; `cur` is the text since the last
      start, `done` are the finished columns. */
  function Scan(rest: string, c: nat, space: bool, device: bool, cur: string, done: seq<string>): seq<string>
    decreases |rest|
  {
    if rest == [] then (if space then done else done + [cur])
    else if c == COLS then done + [cur + rest]
    else if rest[0] == ' ' then
      if !space then
        var e := if c == SIZE + 1 && device then SkipMinor(rest) else 0;
        Scan(if e < |rest| then rest[e + 1..] else [], c, true, device, "", done + [cur + rest[..e]])
      else
        Scan(rest[1..], c, true, device, if c != NAME then "" else cur + [rest[0]], done)
    else if space then
      Scan(rest[1..], c + 1, false, device || (c == PERM && DeviceLetter(rest[0])), cur + [rest[0]], done)
    else
      Scan(rest[1..], c, false, device, cur + [rest[0]], done)
  }

  function Columns(line: string): seq<string> {
    Scan(line, 0, true, false, "", [])
  }

  /** The scan steps over the end of the line: for a device, the minor number is looked for
      behind the blank that ends the size column, and the line ends there. */
  predicate Oversteps(rest: string, c: nat, space: bool, device: bool)
    decreases |rest|
  {
    rest != [] && c != COLS &&
    if rest[0] == ' ' && !space then
      var e := if c == SIZE + 1 && device then SkipMinor(rest) else 0;
      e == |rest| || Oversteps(rest[e + 1..], c, true, device)
    else
      var begins := space && rest[0] != ' ';
      Oversteps(rest[1..], if begins then c + 1 else c, space && !begins,
                device || (begins && c == PERM && DeviceLetter(rest[0])))
  }

  /** That needs a device line of exactly five columns. */
  lemma {:induction false} OverstepsShort(rest: string, c: nat, space: bool, device: bool, cur: string,
                                          done: seq<string>)
    requires Oversteps(rest, c, space, device) && |done| == (if space then c else c - 1)
    ensures |Scan(rest, c, space, device, cur, done)| == SIZE + 1
    ensures device || c == PERM
    decreases |rest|
  {
    if rest[0] == ' ' && !space {
      var e := if c == SIZE + 1 && device then SkipMinor(rest) else 0;
      if e < |rest| {
        OverstepsShort(rest[e + 1..], c, true, device, "", done + [cur + rest[..e]]);
      }
    } else {
      var begins := space && rest[0] != ' ';
      OverstepsShort(rest[1..], if begins then c + 1 else c, space && !begins,
                     device || (begins && c == PERM && DeviceLetter(rest[0])),
                     if space && !begins && c != NAME then "" else cur + [rest[0]], done);
    }
  }

  // ---- what ls prints

  function Blanks(n: nat): (s: string)
    ensures |s| == n && forall i :: 0 <= i < n ==> s[i] == ' '
  {
    seq(n, _ => ' ')
  }

  /** The size column of a device: the major number with its comma, blanks, the minor number. */
  predicate MajorMinor(w: string) {
    var e := SkipWord(w);
    0 < e < |w| && SkipMinor(w[e..]) == |w| - e && w[|w| - 1] != ' '
  }

  /** A column other than the name. */
  predicate Word(w: string, k: nat, device: bool) {
    if k == SIZE && device then MajorMinor(w) else w != [] && ' ' !in w
  }

  /** The rest of a line from column `k` on: blanks before each column, one blank before the name. */
  function Format(words: seq<string>, gaps: seq<nat>, name: string): string
    requires |words| == |gaps|
  {
    if words == [] then name
    else Blanks(gaps[0]) + words[0] + (if |words| == 1 then " " else "") + Format(words[1..], gaps[1..], name)
  }

  /** Eight proper columns, at least one blank between them, and a name that is not all blanks. */
  predicate Proper(words: seq<string>, gaps: seq<nat>, name: string) {
    && |words| == |gaps| == NAME
    && words[0] != [] && (forall k :: 0 <= k < NAME ==> Word(words[k], k, DeviceLetter(words[0][0])))
    && (forall k :: 1 <= k < NAME ==> gaps[k] >= 1)
    && exists i :: 0 <= i < |name| && name[i] != ' '
  }

  lemma {:induction false} ScanBlanks(n: nat, rest: string, c: nat, device: bool, done: seq<string>)
    requires c < NAME
    ensures Scan(Blanks(n) + rest, c, true, device, "", done) == Scan(rest, c, true, device, "", done)
    decreases n
  {
    if n == 0 {
      assert Blanks(0) + rest == rest;
    } else {
      assert (Blanks(n) + rest)[0] == ' ' && (Blanks(n) + rest)[1..] == Blanks(n - 1) + rest;
      ScanBlanks(n - 1, rest, c, device, done);
    }
  }

  lemma {:induction false} ScanWordRest(w: string, rest: string, c: nat, device: bool, cur: string, done: seq<string>)
    requires c < COLS && ' ' !in w
    ensures Scan(w + rest, c, false, device, cur, done) == Scan(rest, c, false, device, cur + w, done)
    decreases |w|
  {
    if w == [] {
      assert w + rest == rest && cur + w == cur;
    } else {
      assert (w + rest)[0] == w[0] && (w + rest)[1..] == w[1..] + rest;
      assert cur + w == cur + [w[0]] + w[1..];
      ScanWordRest(w[1..], rest, c, device, cur + [w[0]], done);
    }
  }

  lemma {:induction false} SkipAppend(w: string, rest: string)
    requires rest == [] || rest[0] == ' '
    ensures SkipWord(w + rest) == SkipWord(w)
    ensures ' ' !in w ==> SkipWord(w) == |w|
    ensures ' ' !in w[..SkipWord(w)] && (SkipWord(w) < |w| ==> w[SkipWord(w)] == ' ')
    decreases |w|
  {
    if w == [] {
      assert w + rest == rest;
    } else {
      assert (w + rest)[0] == w[0] && (w + rest)[1..] == w[1..] + rest;
      SkipAppend(w[1..], rest);
      if w[0] != ' ' {
        assert w[..SkipWord(w)] == [w[0]] + w[1..][..SkipWord(w[1..])];
      }
    }
  }

  /** The end of the blanks and of the word behind them does not depend on what follows. */
  lemma {:induction false} SkipMinorAppend(s: string, rest: string)
    requires s != [] && SkipMinor(s) == |s| && s[|s| - 1] != ' ' && rest != [] && rest[0] == ' '
    ensures SkipMinor(s + rest) == |s|
    decreases |s|
  {
    if s[0] == ' ' {
      assert (s + rest)[1..] == s[1..] + rest;
      assert s[1..] != [] && SkipMinor(s[1..]) == |s[1..]| by {
        assert s[1..][SkipBlanks(s[1..])..] == s[SkipBlanks(s)..];
      }
      SkipMinorAppend(s[1..], rest);
      assert (s + rest)[1..][SkipBlanks((s + rest)[1..])..] == (s + rest)[SkipBlanks(s + rest)..];
    } else {
      assert s[0..] == s && (s + rest)[0..] == s + rest;
      SkipAppend(s, rest);
    }
  }

  /** The first character of a column and the rest of its word. */
  lemma ScanBegin(w: string, tail: string, c: nat, device: bool, done: seq<string>)
    requires c < NAME && w != [] && ' ' !in w
    ensures Scan(w + tail, c, true, device, "", done)
         == Scan(tail, c + 1, false, device || (c == PERM && DeviceLetter(w[0])), w, done)
  {
    assert w[0] in w;
    assert (w + tail)[0] == w[0] && (w + tail)[1..] == w[1..] + tail;
    assert "" + [w[0]] == [w[0]] && [w[0]] + w[1..] == w;
    ScanWordRest(w[1..], tail, c + 1, device || (c == PERM && DeviceLetter(w[0])), [w[0]], done);
  }

  /** The end of a column: the blank, or for a device's size the minor number and the blank. */
  lemma ScanEnd(rest: string, c: nat, device: bool, cur: string, done: seq<string>)
    requires rest != [] && rest[0] == ' ' && c < COLS
    ensures var e := if c == SIZE + 1 && device then SkipMinor(rest) else 0;
            Scan(rest, c, false, device, cur, done)
              == Scan(if e < |rest| then rest[e + 1..] else [], c, true, device, "", done + [cur + rest[..e]])
  {
  }

  /** A plain column and the blank behind it. */
  lemma ScanPlain(w: string, k: nat, device: bool, rest: string, done: seq<string>)
    requires k < NAME && w != [] && ' ' !in w
    requires !(k == SIZE && device)
    ensures Scan(w + " " + rest, k, true, device, "", done)
         == Scan(rest, k + 1, true, device || (k == PERM && DeviceLetter(w[0])), "", done + [w])
  {
    hide Scan;
    var tail := " " + rest;
    assert w + " " + rest == w + tail;
    ScanBegin(w, tail, k, device, done);
    ScanEnd(tail, k + 1, device || (k == PERM && DeviceLetter(w[0])), w, done);
    assert tail[1..] == rest && w + tail[..0] == w;
  }

  lemma MinorAndRest(b: string, rest: string)
    requires b != [] && b[0] == ' ' && SkipMinor(b) == |b| && b[|b| - 1] != ' '
    ensures var tail := b + (" " + rest);
            SkipMinor(tail) == |b| && tail[0] == ' ' && tail[..|b|] == b && tail[|b| + 1..] == rest
  {
    SkipMinorAppend(b, " " + rest);
    hide SkipMinor;
  }

  lemma DeviceParts(w: string)
    requires MajorMinor(w)
    ensures var e := SkipWord(w);
            && 0 < e < |w| && ' ' !in w[..e] && w == w[..e] + w[e..]
            && w[e..] != [] && w[e..][0] == ' ' && SkipMinor(w[e..]) == |w[e..]| && w[e..][|w[e..]| - 1] != ' '
  {
    hide SkipMinor, SkipWord;
    SkipAppend(w, "");
    var e := SkipWord(w);
    assert w[e..][|w| - e - 1] == w[|w| - 1];
  }

  /** The size column of a device and the blank behind it. */
  lemma ScanDevice(w: string, rest: string, done: seq<string>)
    requires MajorMinor(w)
    ensures Scan(w + " " + rest, SIZE, true, true, "", done) == Scan(rest, SIZE + 1, true, true, "", done + [w])
  {
    hide SkipMinor, SkipWord, Scan, MajorMinor;
    DeviceParts(w);
    var e := SkipWord(w);
    var a, b := w[..e], w[e..];
    MinorAndRest(b, rest);
    var tail := b + (" " + rest);
    Regroup(a, b, rest);
    ScanBegin(a, tail, SIZE, true, done);
    ScanEnd(tail, SIZE + 1, true, a, done);
  }

  lemma Regroup(a: string, b: string, rest: string)
    ensures a + b + " " + rest == a + (b + (" " + rest))
  {
  }

  /** The name, with whatever blanks it begins with. */
  lemma {:induction false} ScanName(name: string, device: bool, cur: string, done: seq<string>)
    requires exists i :: 0 <= i < |name| && name[i] != ' '
    ensures Scan(name, NAME, true, device, cur, done) == done + [cur + name]
    decreases |name|
  {
    assert name == [name[0]] + name[1..];
    if name[0] == ' ' {
      var i :| 0 <= i < |name| && name[i] != ' ';
      assert name[1..][i - 1] != ' ';
      ScanName(name[1..], device, cur + [name[0]], done);
      assert cur + [name[0]] + name[1..] == cur + name;
    } else {
      assert cur + [name[0]] + name[1..] == cur + name;
      assert name[1..] == [] ==> cur + [name[0]] == cur + name;
    }
  }

  lemma OneBlankLess(g: nat, rest: string)
    requires g >= 1
    ensures Blanks(g) + rest == " " + (Blanks(g - 1) + rest)
  {
    assert Blanks(g) == " " + Blanks(g - 1);
  }

  lemma FormatTail(words: seq<string>, gaps: seq<nat>, name: string)
    requires words != [] && |words| == |gaps| && gaps[0] >= 1
    ensures Format(words, gaps, name) == " " + Format(words, gaps[0 := gaps[0] - 1], name)
  {
    var gaps' := gaps[0 := gaps[0] - 1];
    assert gaps'[1..] == gaps[1..];
    var rest := words[0] + (if |words| == 1 then " " else "") + Format(words[1..], gaps[1..], name);
    OneBlankLess(gaps[0], rest);
    hide Format;
    assert Blanks(gaps[0]) + words[0] + (if |words| == 1 then " " else "") + Format(words[1..], gaps[1..], name)
        == Blanks(gaps[0]) + rest;
    assert Blanks(gaps'[0]) + words[0] + (if |words| == 1 then " " else "") + Format(words[1..], gaps[1..], name)
        == Blanks(gaps'[0]) + rest;
  }

  lemma FormatParts(words: seq<string>, gaps: seq<nat>, name: string)
    requires words != [] && |words| == |gaps|
    ensures Format(words, gaps, name)
         == Blanks(gaps[0]) + words[0] + (if |words| == 1 then " " else "") + Format(words[1..], gaps[1..], name)
  {
  }

  lemma FormatStep(words: seq<string>, gaps: seq<nat>, name: string)
    requires words != [] && |words| == |gaps| && (|gaps| > 1 ==> gaps[1] >= 1)
    ensures Format(words, gaps, name)
         == Blanks(gaps[0])
            + (words[0] + " " + Format(words[1..], if |gaps| > 1 then gaps[1..][0 := gaps[1] - 1] else [], name))
  {
    FormatParts(words, gaps, name);
    hide Format;
    if |gaps| > 1 {
      FormatTail(words[1..], gaps[1..], name);
      var rest := Format(words[1..], gaps[1..][0 := gaps[1] - 1], name);
      assert Blanks(gaps[0]) + words[0] + "" + (" " + rest) == Blanks(gaps[0]) + (words[0] + " " + rest);
    } else {
      var rest := Format(words[1..], gaps[1..], name);
      assert gaps[1..] == [];
      assert Blanks(gaps[0]) + words[0] + " " + rest == Blanks(gaps[0]) + (words[0] + " " + rest);
    }
  }

  lemma {:induction false} ScanAll(words: seq<string>, gaps: seq<nat>, name: string, k: nat, device: bool,
                                   done: seq<string>)
    requires k + |words| == NAME && |gaps| == |words|
    requires forall j :: 0 <= j < |words| ==> Word(words[j], k + j, device) && words[j] != []
    requires k == 0 ==> device == DeviceLetter(words[0][0])
    requires forall j :: 1 <= j < |words| ==> gaps[j] >= 1
    requires exists i :: 0 <= i < |name| && name[i] != ' '
    ensures Scan(Format(words, gaps, name), k, true, k > 0 && device, "", done) == done + words + [name]
    decreases |words|
  {
    hide Format;
    if words == [] {
      FormatDone(name);
      ScanName(name, device, "", done);
      assert "" + name == name;
    } else {
      var gaps' := if |gaps| > 1 then gaps[1..][0 := gaps[1] - 1] else [];
      var rest := Format(words[1..], gaps', name);
      FormatStep(words, gaps, name);
      ScanBlanks(gaps[0], words[0] + " " + rest, k, k > 0 && device, done);
      assert Word(words[0], k + 0, device);
      hide Scan;
      if k == SIZE && device {
        ScanDevice(words[0], rest, done);
      } else {
        ScanPlain(words[0], k, k > 0 && device, rest, done);
      }
      ScanAll(words[1..], gaps', name, k + 1, device, done + [words[0]]);
      assert done + [words[0]] + words[1..] == done + words;
    }
  }

  lemma FormatDone(name: string)
    ensures Format([], [], name) == name
  {
  }

  /** Cutting undoes printing: the eight columns and the name come back character for character,
      leading, inner and trailing blanks of the name included. */
  lemma ColumnsOfFormat(words: seq<string>, gaps: seq<nat>, name: string)
    requires Proper(words, gaps, name)
    ensures Columns(Format(words, gaps, name)) == words + [name]
  {
    var device := DeviceLetter(words[0][0]);
    forall k | 0 <= k < NAME ensures words[k] != [] {
      assert Word(words[k], k, device);
    }
    ScanAll(words, gaps, name, 0, device, []);
    assert [] + words == words;
  }

  /** Eight texts with the gaps between them, and a name with a character that is no blank. */
  predicate Printed(words: seq<string>, gaps: seq<nat>, name: string) {
    && |words| == |gaps| == 8 && words[0] != ""
    && (forall k :: 1 <= k < 8 ==> gaps[k] >= 1)
    && exists i :: 0 <= i < |name| && name[i] != ' '
  }

  predicate BlankFree(w: string) {
    w != "" && ' ' !in w
  }

  /** A line that begins with neither 'b' nor 'c', as for directories, files and links: eight
      words without blanks and the name come back. */
  lemma PlainColumns(words: seq<string>, gaps: seq<nat>, name: string)
    requires Printed(words, gaps, name) && forall k :: 0 <= k < 8 ==> BlankFree(words[k])
    requires words[0][0] != 'b' && words[0][0] != 'c'
    ensures Columns(Format(words, gaps, name)) == words + [name]
  {
    ColumnsOfFormat(words, gaps, name);
  }

  /** A line that begins with 'b' or 'c': the fifth column is "major, minor", blank and all. */
  lemma DeviceColumns(words: seq<string>, gaps: seq<nat>, name: string, major: string, gap: nat, minor: string)
    requires Printed(words, gaps, name) && forall k :: 0 <= k < 8 && k != 4 ==> BlankFree(words[k])
    requires words[0][0] == 'b' || words[0][0] == 'c'
    requires words[4] == major + "," + Blanks(gap) + minor && gap >= 1 && ' ' !in major && BlankFree(minor)
    ensures Columns(Format(words, gaps, name)) == words + [name]
  {
    IsMajorMinor(major + ",", gap, minor);
    hide MajorMinor, Format, Columns, Scan;
    ColumnsOfFormat(words, gaps, name);
  }

  lemma IsMajorMinor(a: string, gap: nat, minor: string)
    requires BlankFree(a) && gap >= 1 && BlankFree(minor)
    ensures MajorMinor(a + Blanks(gap) + minor)
  {
    var tail := Blanks(gap) + minor;
    assert a + Blanks(gap) + minor == a + tail && tail[0] == ' ';
    SkipAppend(a, tail);
    assert (a + tail)[|a|..] == tail;
    BlanksThenWord(gap, minor);
    assert tail[|tail| - 1] == minor[|minor| - 1] && minor[|minor| - 1] in minor;
  }

  lemma {:induction false} BlanksThenWord(gap: nat, minor: string)
    requires BlankFree(minor)
    ensures SkipMinor(Blanks(gap) + minor) == gap + |minor|
    ensures SkipBlanks(Blanks(gap) + minor) == gap
    decreases gap
  {
    var s := Blanks(gap) + minor;
    if gap == 0 {
      assert s == minor && minor[0] in minor && s[0..] == s;
      SkipAppend(minor, "");
    } else {
      assert s[0] == ' ' && s[1..] == Blanks(gap - 1) + minor;
      BlanksThenWord(gap - 1, minor);
      assert s[1..][gap - 1..] == s[gap..];
    }
  }

  /** The scan stays inside a line that gives nine columns. */
  lemma NineStayInside(line: string)
    requires |Columns(line)| == COLS
    ensures !Oversteps(line, 0, true, false)
  {
    if Oversteps(line, 0, true, false) {
      OverstepsShort(line, 0, true, false, "", []);
    }
  }

  /** So it stays inside a line that ls printed. */
  lemma FormatStaysInside(words: seq<string>, gaps: seq<nat>, name: string)
    requires Proper(words, gaps, name)
    ensures !Oversteps(Format(words, gaps, name), 0, true, false)
  {
    hide Format, Columns;
    ColumnsOfFormat(words, gaps, name);
    NineStayInside(Format(words, gaps, name));
  }

  // ---- the scan in place

  /** The line of `n` characters, NULs behind it, as sock_readln leaves it in its buffer. */
  ghost predicate Padded(b: seq<char>, n: nat) {
    && n < |b| && (forall k :: 0 <= k < n ==> b[k] != NUL)
    && forall k :: n <= k < |b| ==> b[k] == NUL
  }

  /** Column `j` was cut out of the original text: unchanged from its start to a written NUL. */
  ghost predicate CutOut(b: seq<char>, b0: seq<char>, col: nat, end: nat, text: string) {
    && col <= end < |b| == |b0|
    && b0[col..end] == text && b[col..end] == text && b[end] == NUL
  }

  /** Finished columns are cut out, and nothing from `start` on has changed. */
  ghost predicate Cuts(b: seq<char>, b0: seq<char>, cols: seq<nat>, ends: seq<nat>, done: seq<string>, start: nat) {
    && |b| == |b0| && |ends| == |done| <= |cols| && start <= |b| && b[start..] == b0[start..]
    && forall j :: 0 <= j < |done| ==> CutOut(b, b0, cols[j], ends[j], done[j]) && ends[j] < start
  }

  /** The scan has come to `i` in state (c, space, device), and from here gives the line's columns. */
  ghost predicate OnScan(b0: seq<char>, n: nat, i: nat, c: nat, space: bool, device: bool, start: nat,
                         done: seq<string>) {
    && Padded(b0, n) && start <= i <= n + 1 && i < |b0| && (i == n + 1 ==> space && start == i)
    && (|b0| == n + 1 ==> !Oversteps(b0[i..n], c, space, device))
    && Columns(b0[..n])
         == Scan(if i <= n then b0[i..n] else [], c, space, device, if i <= n then b0[start..i] else [], done)
    && |done| == (if space then c else c - 1) && c <= COLS && (c == COLS ==> !space)
    && (space && c < NAME ==> start == i)
  }

  lemma RestStep(b: seq<char>, i: nat, n: nat, start: nat)
    requires start <= i < n <= |b|
    ensures b[i..n][0] == b[i] && b[i..n][1..] == b[i + 1..n] && b[start..i] + [b[i]] == b[start..i + 1]
  {
  }

  /** A step over a character that ends nothing. */
  lemma StepOver(b0: seq<char>, n: nat, i: nat, c: nat, space: bool, device: bool, start: nat, done: seq<string>)
    requires OnScan(b0, n, i, c, space, device, start, done) && i < n && c < COLS && (space || b0[i] != ' ')
    ensures var begins := space && b0[i] != ' ';
            var start' := if space && b0[i] == ' ' && c != NAME then i + 1 else start;
            OnScan(b0, n, i + 1, if begins then c + 1 else c, space && b0[i] == ' ',
                   device || (begins && c == PERM && DeviceLetter(b0[i])), start', done)
  {
    RestStep(b0, i, n, start);
    assert b0[i + 1..i + 1] == [];
  }

  /** A step over the blank that ends a column, with the minor number of a device. */
  lemma StepEnd(b0: seq<char>, n: nat, i: nat, c: nat, device: bool, start: nat, done: seq<string>)
    requires OnScan(b0, n, i, c, false, device, start, done) && i < n && c < COLS && b0[i] == ' '
    ensures var e := if c == SIZE + 1 && device then SkipMinor(b0[i..n]) else 0;
            OnScan(b0, n, i + e + 1, c, true, device, i + e + 1, done + [b0[start..i + e]])
  {
    hide SkipMinor, Scan, Columns, Oversteps;
    assert n <= |b0|;
    hide Padded;
    var rest := b0[i..n];
    var e := if c == SIZE + 1 && device then SkipMinor(rest) else 0;
    assert rest[0] == b0[i];
    ScanEnd(rest, c, device, b0[start..i], done);
    OverstepsEnd(rest, c, device);
    AfterEnd(b0, n, i, start, e);
  }

  lemma OverstepsEnd(rest: string, c: nat, device: bool)
    requires rest != [] && rest[0] == ' ' && c < COLS
    ensures var e := if c == SIZE + 1 && device then SkipMinor(rest) else 0;
            Oversteps(rest, c, false, device) <==> (e == |rest| || Oversteps(rest[e + 1..], c, true, device))
  {
  }

  lemma AfterEnd(b0: seq<char>, n: nat, i: nat, start: nat, e: nat)
    requires start <= i < n <= |b0| && e <= n - i
    ensures b0[start..i] + b0[i..n][..e] == b0[start..i + e]
    ensures e < n - i ==> b0[i..n][e + 1..] == b0[i + e + 1..n] && b0[i + e + 1..i + e + 1] == []
  {
  }

  /** Cutting one more column: a NUL at `end`, and the scan goes on behind it. */
  lemma CutMore(b: seq<char>, b': seq<char>, b0: seq<char>, cols: seq<nat>, ends: seq<nat>, done: seq<string>,
                start: nat, end: nat)
    requires Cuts(b, b0, cols, ends, done, start) && |cols| == |done| + 1 && cols[|done|] == start
    requires start <= end < |b| && b' == b[end := NUL]
    ensures Cuts(b', b0, cols, ends + [end], done + [b0[start..end]], end + 1)
  {
    assert b'[end + 1..] == b[start..][end + 1 - start..] == b0[start..][end + 1 - start..];
    assert b[start..end] == b[start..][..end - start] == b0[start..end];
    forall j | 0 <= j < |done| ensures CutOut(b', b0, cols[j], ends[j], done[j]) {
      assert CutOut(b, b0, cols[j], ends[j], done[j]);
      assert b'[cols[j]..ends[j]] == b[cols[j]..ends[j]];
    }
  }

  lemma CutsLater(b: seq<char>, b0: seq<char>, cols: seq<nat>, ends: seq<nat>, done: seq<string>,
                  start: nat, start': nat)
    requires Cuts(b, b0, cols, ends, done, start) && start <= start' <= |b|
    ensures Cuts(b, b0, cols, ends, done, start')
  {
    assert b[start'..] == b[start..][start' - start..] == b0[start..][start' - start..] == b0[start'..];
  }

  lemma CutsBegin(b: seq<char>, b0: seq<char>, cols: seq<nat>, ends: seq<nat>, done: seq<string>, start: nat, col: nat)
    requires Cuts(b, b0, cols, ends, done, start)
    ensures Cuts(b, b0, cols + [col], ends, done, start)
  {
  }

  /** The inner loop over blanks. */
  method SkipBlanksAt(s: array<char>, ghost n: nat, i0: nat) returns (i: nat)
    requires i0 <= n < s.Length && s[n] == NUL
    ensures i == i0 + SkipBlanks(s[i0..n]) <= n
  {
    i := i0;
    while s[i] == ' '
      invariant i0 <= i <= n && SkipBlanks(s[i0..n]) == i - i0 + SkipBlanks(s[i..n])
      decreases n - i
    {
      assert s[i..n][1..] == s[i + 1..n];
      i := i + 1;
    }
  }

  /** The inner loop over the minor number. */
  method SkipWordAt(s: array<char>, ghost n: nat, i0: nat) returns (i: nat)
    requires i0 <= n < s.Length && s[n] == NUL && NUL !in s[i0..n]
    ensures i == i0 + SkipWord(s[i0..n]) <= n
  {
    i := i0;
    while s[i] != NUL && s[i] != ' '
      invariant i0 <= i <= n && SkipWord(s[i0..n]) == i - i0 + SkipWord(s[i..n])
      decreases n - i
    {
      assert s[i..n][1..] == s[i + 1..n];
      i := i + 1;
    }
    assert i < n ==> s[i0..n][i - i0] == s[i];
  }

  /** Over a device's minor number and the blanks before it. */
  method SkipMinorAt(s: array<char>, ghost n: nat, i0: nat) returns (i: nat)
    requires i0 <= n < s.Length && s[n] == NUL && NUL !in s[i0..n]
    ensures i == i0 + SkipMinor(s[i0..n]) <= n
  {
    i := SkipBlanksAt(s, n, i0);
    assert s[i0..n][i - i0..] == s[i..n];
    assert forall k :: i <= k < n ==> s[k] == s[i0..n][k - i0];
    i := SkipWordAt(s, n, i);
  }

  lemma StartScan(b0: seq<char>, n: nat)
    requires Padded(b0, n) && (Oversteps(b0[..n], 0, true, false) ==> n + 2 <= |b0|)
    ensures OnScan(b0, n, 0, 0, true, false, 0, []) && Cuts(b0, b0, [], [], [], 0)
  {
    assert b0[0..n] == b0[..n] && b0[0..0] == [];
  }

  /** The scan never leaves the line and its padding, and sees the original text ahead. */
  lemma ScanAhead(b: seq<char>, b0: seq<char>, n: nat, i: nat, cols: seq<nat>, ends: seq<nat>,
                  space: bool, device: bool, start: nat, done: seq<string>)
    requires OnScan(b0, n, i, |cols|, space, device, start, done) && Cuts(b, b0, cols, ends, done, start)
    ensures |b| == |b0| && start <= i <= n + 1 <= |b| && i < |b| && b[i] == b0[i] && (b[i] != NUL <==> i < n)
    ensures i < n ==> b[n] == NUL && b[i..n] == b0[i..n] && NUL !in b[i..n]
    ensures |cols| <= COLS
  {
    assert b[i] == b[start..][i - start] == b0[start..][i - start];
    if i < n {
      assert b[n] == b[start..][n - start] == b0[start..][n - start];
      assert b[i..n] == b[start..][i - start..n - start] == b0[start..][i - start..n - start] == b0[i..n];
    }
  }

  /** What the scan found when it stops. */
  lemma ScanStops(b0: seq<char>, n: nat, i: nat, c: nat, space: bool, device: bool, start: nat, done: seq<string>)
    requires OnScan(b0, n, i, c, space, device, start, done) && (i >= n || c == COLS)
    ensures start <= n + 1 <= |b0|
    ensures Columns(b0[..n]) == if space then done else (done + [b0[start..n]])
  {
    if i < n {
      assert b0[start..i] + b0[i..n] == b0[start..n];
    }
  }

  lemma StringOf(b: seq<char>, b0: seq<char>, n: nat, col: nat, end: nat, text: string)
    requires Padded(b0, n) && CutOut(b, b0, col, end, text) && end <= n
    ensures CStr(b[col..]) == text
  {
    assert NulFree(text) by {
      assert forall k :: 0 <= k < |text| ==> text[k] == b0[col + k];
    }
    assert b[col..][..end - col] == b[col..end];
    assert (text + [NUL]) == b[col..][..end - col + 1];
    CStrIs(b[col..], text);
  }

  lemma ScanDone(b: seq<char>, b0: seq<char>, n: nat, i: nat, cols: seq<nat>, ends: seq<nat>,
                 space: bool, device: bool, start: nat, done: seq<string>)
    requires OnScan(b0, n, i, |cols|, space, device, start, done) && Cuts(b, b0, cols, ends, done, start)
    requires i >= n || |cols| == COLS
    requires !space ==> |cols| > 0 && cols[|cols| - 1] == start
    ensures |cols| == |Columns(b0[..n])| <= COLS
    ensures forall j :: 0 <= j < |cols| ==> cols[j] <= |b| && CStr(b[cols[j]..]) == Columns(b0[..n])[j]
  {
    ScanStops(b0, n, i, |cols|, space, device, start, done);
    hide Columns, Scan, Padded, CStr, CutOut;
    forall j | 0 <= j < |cols| ensures cols[j] <= |b| && CStr(b[cols[j]..]) == Columns(b0[..n])[j] {
      if j < |done| {
        assert CutOut(b, b0, cols[j], ends[j], done[j]);
        StringOf(b, b0, n, cols[j], ends[j], done[j]);
      } else {
        LastColumn(b, b0, n, start);
      }
    }
  }

  /** A column nothing follows ends with the line. */
  lemma LastColumn(b: seq<char>, b0: seq<char>, n: nat, start: nat)
    requires Padded(b0, n) && |b| == |b0| && start <= n && b[start..] == b0[start..]
    ensures CStr(b[start..]) == b0[start..n]
  {
    assert b[start..n] == b[start..][..n - start] == b0[start..][..n - start];
    assert b[n] == b[start..][n - start] == b0[start..][n - start];
    StringOf(b, b0, n, start, n, b0[start..n]);
  }

  /** A step over a character that ends nothing: a column may begin. */
  lemma StepPlain(b: seq<char>, b0: seq<char>, n: nat, i: nat, cols: seq<nat>, ends: seq<nat>,
                  space: bool, device: bool, start: nat, done: seq<string>)
    requires OnScan(b0, n, i, |cols|, space, device, start, done) && Cuts(b, b0, cols, ends, done, start)
    requires i < n < |b0| && |cols| < COLS && (space || b0[i] != ' ')
    ensures var begins := space && b0[i] != ' ';
            var cols' := if begins then cols + [start] else cols;
            var start' := if space && b0[i] == ' ' && |cols| != NAME then i + 1 else start;
            && OnScan(b0, n, i + 1, |cols'|, space && b0[i] == ' ',
                      device || (begins && |cols| == PERM && DeviceLetter(b0[i])), start', done)
            && Cuts(b, b0, cols', ends, done, start')
  {
    ScanAhead(b, b0, n, i, cols, ends, space, device, start, done);
    hide Scan, Oversteps, Columns, Padded, CutOut, DeviceLetter;
    StepOver(b0, n, i, |cols|, space, device, start, done);
    hide OnScan, Cuts;
    if space && b0[i] == ' ' && |cols| != NAME {
      CutsLater(b, b0, cols, ends, done, start, i + 1);
    }
    CutsBegin(b, b0, cols, ends, done, start, start);
  }

  /** At any other character: a blank before a column, which moves the start unless the name is
      next, the first character of a column, or one inside it. */
  method PassOver(s: array<char>, ghost n: nat, i: nat, col0: seq<nat>, space0: bool, device0: bool, start0: nat,
                  ghost b0: seq<char>, ghost ends: seq<nat>, ghost done: seq<string>)
    returns (col: seq<nat>, space: bool, device: bool, start: nat)
    requires OnScan(b0, n, i, |col0|, space0, device0, start0, done) && Cuts(s[..], b0, col0, ends, done, start0)
    requires i < n < |b0| && i < s.Length && s[i] == b0[i] && |col0| < COLS && (space0 || s[i] != ' ')
    requires !space0 ==> |col0| > 0 && col0[|col0| - 1] == start0
    ensures OnScan(b0, n, i + 1, |col|, space, device, start, done) && Cuts(s[..], b0, col, ends, done, start)
    ensures !space ==> |col| > 0 && col[|col| - 1] == start
    ensures |col| <= COLS
  {
    StepPlain(s[..], b0, n, i, col0, ends, space0, device0, start0, done);
    hide OnScan, Cuts;
    col, space, device, start := col0, space0, device0, start0;
    if s[i] == ' ' {
      if |col| != NAME {
        start := i + 1;
      }
    } else if space {
      col := col + [start];
      space := false;
      if |col| - 1 == PERM && DeviceLetter(s[i]) {
        device := true;
      }
    }
  }

  /** The blank behind a column, or behind a device's minor number. */
  method EndOfColumn(s: array<char>, ghost n: nat, i: nat, c: nat, device: bool) returns (end: nat)
    requires i <= n < s.Length && s[n] == NUL && NUL !in s[i..n]
    ensures end == i + (if c == SIZE + 1 && device then SkipMinor(s[i..n]) else 0) <= n
  {
    hide SkipMinor;
    end := i;
    if c - 1 == SIZE && device {
      end := SkipMinorAt(s, n, i);
    }
  }

  /** At the blank behind a column: over a device's minor number, then a NUL. */
  method EndColumn(s: array<char>, ghost n: nat, i: nat, c: nat, device: bool, ghost b0: seq<char>,
                   ghost col: seq<nat>, ghost ends: seq<nat>, ghost start: nat, ghost done: seq<string>)
    returns (end: nat)
    requires OnScan(b0, n, i, c, false, device, start, done) && Cuts(s[..], b0, col, ends, done, start)
    requires |col| == c < COLS && c > 0 && col[c - 1] == start && i < n && s[i] == ' '
    modifies s
    ensures start <= i <= end <= n < |b0|
    ensures OnScan(b0, n, end + 1, c, true, device, end + 1, done + [b0[start..end]])
    ensures Cuts(s[..], b0, col, ends + [end], done + [b0[start..end]], end + 1)
  {
    ScanAhead(s[..], b0, n, i, col, ends, false, device, start, done);
    assert |done| == c - 1;
    hide Padded, Scan, Columns, SkipMinor, OnScan, Cuts, Oversteps;
    StepEnd(b0, n, i, c, device, start, done);
    end := EndOfColumn(s, n, i, c, device);
    Terminate(s, b0, col, ends, done, start, end);
  }

  method Terminate(s: array<char>, ghost b0: seq<char>, ghost col: seq<nat>, ghost ends: seq<nat>,
                   ghost done: seq<string>, ghost start: nat, end: nat)
    requires Cuts(s[..], b0, col, ends, done, start)
    requires |col| == |done| + 1 && col[|done|] == start && start <= end < s.Length
    modifies s
    ensures end < |b0| && Cuts(s[..], b0, col, ends + [end], done + [b0[start..end]], end + 1)
  {
    ghost var b := s[..];
    CutMore(b, b[end := NUL], b0, col, ends, done, start, end);
    hide Cuts, CutOut;
    s[end] := NUL;
    assert s[..] == b[end := NUL];
  }

  /** One step of the scan: the end of a column, or any other character. */
  method Step(s: array<char>, ghost n: nat, i0: nat, col0: seq<nat>, space0: bool, device0: bool, start0: nat,
              ghost b0: seq<char>, ghost ends0: seq<nat>, ghost done0: seq<string>)
    returns (i: nat, col: seq<nat>, space: bool, device: bool, start: nat,
             ghost ends: seq<nat>, ghost done: seq<string>)
    requires Stands(s[..], b0, n, i0, col0, ends0, space0, device0, start0, done0) && i0 < n && |col0| < COLS
    modifies s
    ensures Stands(s[..], b0, n, i, col, ends, space, device, start, done) && i > i0
  {
    ScanAhead(s[..], b0, n, i0, col0, ends0, space0, device0, start0, done0);
    hide OnScan, Cuts;
    i, col, ends, done := i0, col0, ends0, done0;
    if s[i] == ' ' && !space0 {
      i := EndColumn(s, n, i, |col|, device0, b0, col, ends, start0, done);
      done, ends := done + [b0[start0..i]], ends + [i];
      space, device, start := true, device0, i + 1;
    } else {
      col, space, device, start := PassOver(s, n, i, col, space0, device0, start0, b0, ends, done);
    }
    i := i + 1;
  }

  /** The loop's invariant. */
  ghost predicate Stands(b: seq<char>, b0: seq<char>, n: nat, i: nat, cols: seq<nat>, ends: seq<nat>,
                         space: bool, device: bool, start: nat, done: seq<string>) {
    && OnScan(b0, n, i, |cols|, space, device, start, done) && Cuts(b, b0, cols, ends, done, start)
    && (!space ==> |cols| > 0 && cols[|cols| - 1] == start)
  }

  lemma StandsAhead(b: seq<char>, b0: seq<char>, n: nat, i: nat, cols: seq<nat>, ends: seq<nat>,
                    space: bool, device: bool, start: nat, done: seq<string>)
    requires Stands(b, b0, n, i, cols, ends, space, device, start, done)
    ensures i <= n + 1 && i < |b| && (b[i] != NUL <==> i < n) && |cols| <= COLS
  {
    ScanAhead(b, b0, n, i, cols, ends, space, device, start, done);
  }

  lemma StandsDone(b: seq<char>, b0: seq<char>, n: nat, i: nat, cols: seq<nat>, ends: seq<nat>,
                   space: bool, device: bool, start: nat, done: seq<string>)
    requires Stands(b, b0, n, i, cols, ends, space, device, start, done) && (i >= n || |cols| == COLS)
    requires n <= |b0|
    ensures |cols| == |Columns(b0[..n])| <= COLS
    ensures forall j :: 0 <= j < |cols| ==> cols[j] <= |b| && CStr(b[cols[j]..]) == Columns(b0[..n])[j]
  {
    ScanDone(b, b0, n, i, cols, ends, space, device, start, done);
  }

  /** Cuts the line in place: each blank behind a column becomes a NUL, and `col` gets the starts
      of the columns, which then are the strings of Columns. */
  method ParseDir(s: array<char>, ghost n: nat) returns (col: seq<nat>)
    requires Padded(s[..], n) && (Oversteps(s[..n], 0, true, false) ==> n + 2 <= s.Length)
    modifies s
    ensures |col| == |Columns(old(s[..n]))| <= COLS
    ensures forall j :: 0 <= j < |col| ==> col[j] <= s.Length && CStr(s[col[j]..]) == Columns(old(s[..n]))[j]
  {
    ghost var b0 := s[..];
    ghost var done: seq<string>, ends: seq<nat> := [], [];
    var i: nat, start: nat, space, device := 0, 0, true, false;
    col := [];
    StartScan(b0, n);
    StandsAhead(s[..], b0, n, i, col, ends, space, device, start, done);
    hide Stands, Columns, CStr;
    while s[i] != NUL
      invariant Stands(s[..], b0, n, i, col, ends, space, device, start, done)
      invariant i <= n + 1 && i < s.Length && (s[i] != NUL <==> i < n) && |col| <= COLS
      decreases n + 1 - i
    {
      if |col| == COLS {
        break;
      }
      i, col, space, device, start, ends, done := Step(s, n, i, col, space, device, start, b0, ends, done);
      StandsAhead(s[..], b0, n, i, col, ends, space, device, start, done);
    }
    StandsDone(s[..], b0, n, i, col, ends, space, device, start, done);
  }

  /** The buffer holds the line and NULs behind it. */
  ghost predicate HoldsLine(b: seq<char>, line: string) {
    |line| < |b| && NulFree(line) && b[..|line|] == line && forall k :: |line| <= k < |b| ==> b[k] == NUL
  }

  /** Cutting a line that begins with neither 'b' nor 'c'. */
  method ParsePlain(s: array<char>, ghost words: seq<string>, ghost gaps: seq<nat>, ghost name: string)
    returns (col: seq<nat>)
    requires Printed(words, gaps, name) && forall k :: 0 <= k < 8 ==> BlankFree(words[k])
    requires words[0][0] != 'b' && words[0][0] != 'c' && HoldsLine(s[..], Format(words, gaps, name))
    modifies s
    ensures |col| == 9
    ensures forall j :: 0 <= j < 9 ==> col[j] <= s.Length && CStr(s[col[j]..]) == (words + [name])[j]
  {
    PlainColumns(words, gaps, name);
    NineStayInside(Format(words, gaps, name));
    LinePadded(s[..], Format(words, gaps, name));
    hide Printed, Format, Columns, CStr, Padded, Oversteps;
    col := ParseDir(s, |Format(words, gaps, name)|);
  }

  /** Cutting a line that begins with 'b' or 'c'. */
  method ParseDevice(s: array<char>, ghost words: seq<string>, ghost gaps: seq<nat>, ghost name: string,
                     ghost major: string, ghost gap: nat, ghost minor: string)
    returns (col: seq<nat>)
    requires Printed(words, gaps, name) && forall k :: 0 <= k < 8 && k != 4 ==> BlankFree(words[k])
    requires words[0][0] == 'b' || words[0][0] == 'c'
    requires words[4] == major + "," + Blanks(gap) + minor && gap >= 1 && ' ' !in major && BlankFree(minor)
    requires HoldsLine(s[..], Format(words, gaps, name))
    modifies s
    ensures |col| == 9
    ensures forall j :: 0 <= j < 9 ==> col[j] <= s.Length && CStr(s[col[j]..]) == (words + [name])[j]
  {
    DeviceColumns(words, gaps, name, major, gap, minor);
    NineStayInside(Format(words, gaps, name));
    LinePadded(s[..], Format(words, gaps, name));
    hide Printed, Format, Columns, CStr, Padded, Oversteps;
    col := ParseDir(s, |Format(words, gaps, name)|);
  }

  lemma LinePadded(b: seq<char>, line: string)
    requires HoldsLine(b, line)
    ensures Padded(b, |line|) && b[..|line|] == line
  {
    forall k | 0 <= k < |line| ensures b[k] != NUL {
      assert b[k] == line[k] && line[k] in line;
    }
  }
}
