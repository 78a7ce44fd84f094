/** Shell quoting of a string inside single quotes, done in place and backwards. */
module Quoting {
  import opened CStrings

  function Quotes(s: string): nat {
    if s == [] then 0 else Quotes(s[..|s| - 1]) + if s[|s| - 1] == '\'' then 1 else 0
  }

  /** Every quote becomes quote, backslash, quote, quote. */
  function Escape(s: string): (r: string)
    ensures |r| == |s| + 3 * Quotes(s)
    ensures NulFree(s) ==> NulFree(r)
  {
    if s == [] then []
    else Escape(s[..|s| - 1]) + if s[|s| - 1] == '\'' then "'\\''" else [s[|s| - 1]]
  }

  lemma {:induction false} EscapeAppend(a: string, b: string)
    ensures Escape(a + b) == Escape(a) + Escape(b)
    ensures Quotes(a + b) == Quotes(a) + Quotes(b)
  {
    if b == [] {
      assert a + b == a;
      assert Escape(a) + [] == Escape(a);
    } else {
      var b', c := b[..|b| - 1], b[|b| - 1];
      EscapeAppend(a, b');
      assert (a + b)[..|a + b| - 1] == a + b' && (a + b)[|a + b| - 1] == c;
    }
  }

  lemma {:induction false} EscapePlain(s: string)
    requires Quotes(s) == 0
    ensures Escape(s) == s
  {
    if s != [] {
      EscapePlain(s[..|s| - 1]);
      assert s == s[..|s| - 1] + [s[|s| - 1]];
    }
  }

  lemma EscapeOne(c: char)
    ensures Quotes([c]) == if c == '\'' then 1 else 0
    ensures Escape([c]) == if c == '\'' then "'\\''" else [c]
  {
    assert [c][..0] == [];
    assert Escape([c]) == Escape([]) + if c == '\'' then "'\\''" else [c];
  }

  lemma TakeOne(s: string, r: nat)
    requires r < |s|
    ensures s[..r + 1] == s[..r] + [s[r]]
    ensures s[r..] == [s[r]] + s[r + 1..]
  {
  }

  /** What is done and what is left at each step of the backward loop: characters up to `r` are
      untouched, behind `s` stand the escaped rest of the string and its NUL. */
  ghost predicate Halfway(b: seq<char>, str: string, r: int, s: int, q: nat) {
    && -1 <= r < |str| && q == Quotes(str[..r + 1]) && s == r + 3 * q && s + 1 < |b|
    && str[..r + 1] <= b
    && Escape(str[r + 1..]) + [NUL] <= b[s + 1..]
  }

  /** Text put right before a known suffix extends it. */
  lemma PutBefore(b: seq<char>, b': seq<char>, at: nat, w: string, p: string)
    requires |b'| == |b| && at + |w| <= |b| && b'[at..at + |w|] == w
    requires b'[at + |w|..] == b[at + |w|..] && p <= b[at + |w|..]
    ensures w + p <= b'[at..]
  {
    assert b'[at..] == b'[at..at + |w|] + b'[at + |w|..];
  }

  lemma StepBack(str: string, r: nat)
    requires r < |str|
    ensures Quotes(str[..r + 1]) == Quotes(str[..r]) + if str[r] == '\'' then 1 else 0
    ensures Escape(str[r..]) == (if str[r] == '\'' then "'\\''" else [str[r]]) + Escape(str[r + 1..])
  {
    TakeOne(str, r);
    EscapeOne(str[r]);
    EscapeAppend([str[r]], str[r + 1..]);
    EscapeAppend(str[..r], [str[r]]);
  }

  /** One step back: `w`, the escaped character, went before what was already escaped. */
  lemma Step(b: seq<char>, b': seq<char>, str: string, r: int, s: int, q: nat, w: string)
    requires Halfway(b, str, r, s, q) && r >= 0 && w == (if str[r] == '\'' then "'\\''" else [str[r]])
    requires |b'| == |b| && r <= s + 1 - |w| && b'[s + 1 - |w|..s + 1] == w && b'[s + 1..] == b[s + 1..]
    requires b'[..r] == b[..r]
    ensures Halfway(b', str, r - 1, s - |w|, if str[r] == '\'' then q - 1 else q)
  {
    StepBack(str, r);
    hide Escape, Quotes;
    PutBefore(b, b', s + 1 - |w|, w, Escape(str[r + 1..]) + [NUL]);
    assert w + (Escape(str[r + 1..]) + [NUL]) == w + Escape(str[r + 1..]) + [NUL];
    Shorter(b, b', str, r);
  }

  lemma Shorter(b: seq<char>, b': seq<char>, str: string, r: nat)
    requires r < |str| && r <= |b| && |b'| == |b| && str[..r + 1] <= b && b'[..r] == b[..r]
    ensures str[..r] <= b'
  {
    assert str[..r] == str[..r + 1][..r];
  }

  lemma HalfwayBounds(b: seq<char>, str: string, r: int, s: int, q: nat)
    requires Halfway(b, str, r, s, q) && q > 0
    ensures 0 <= r <= s - 3 && s < |b| && r < |str| && b[r] == str[r]
  {
    assert str[..0] == [];
    assert str[..r + 1] == b[..r + 1];
    assert b[r] == b[..r + 1][r];
  }

  lemma EscapeSplit(str: string, k: nat)
    requires k <= |str| && Quotes(str[..k]) == 0
    ensures Escape(str) == str[..k] + Escape(str[k..])
  {
    EscapePlain(str[..k]);
    EscapeAppend(str[..k], str[k..]);
    assert str == str[..k] + str[k..];
  }

  lemma PrefixJoin(b: seq<char>, k: nat, head: string, rest: string)
    requires k <= |b| && |head| == k && head <= b && rest <= b[k..]
    ensures head + rest <= b
  {
    assert b == b[..k] + b[k..];
  }

  lemma HalfwayDone(b: seq<char>, str: string, r: int, s: int)
    requires NulFree(str) && Halfway(b, str, r, s, 0)
    ensures CStr(b) == Escape(str) && NUL in b
  {
    EscapeSplit(str, r + 1);
    var e := Escape(str);
    assert NulFree(e);
    hide Escape, Quotes;
    PrefixJoin(b, r + 1, str[..r + 1], Escape(str[r + 1..]) + [NUL]);
    assert str[..r + 1] + (Escape(str[r + 1..]) + [NUL]) == e + [NUL];
    CStrIs(b, e);
    assert b[|e|] == (e + [NUL])[|e|];
  }

  /** The backward loop; it stops as soon as no quote is left to escape. */
  method Backwards(name: array<char>, ghost str: string, r0: int, s0: int, q0: nat)
    requires NulFree(str) && Halfway(name[..], str, r0, s0, q0)
    modifies name
    ensures CStr(name[..]) == Escape(str) && NUL in name[..]
  {
    hide Escape, Quotes, Halfway;
    var r, s, q := r0, s0, q0;
    while q > 0
      invariant Halfway(name[..], str, r, s, q)
      decreases q, r + 1
    {
      HalfwayBounds(name[..], str, r, s, q);
      ghost var b := name[..];
      if name[r] == '\'' {
        s := s - 3;
        name[s] := '\'';
        name[s + 1] := '\\';
        name[s + 2] := '\'';
        name[s + 3] := '\'';
        Step(b, name[..], str, r, s + 3, q, "'\\''");
        q := q - 1;
      } else {
        name[s] := name[r];
        Step(b, name[..], str, r, s, q, [str[r]]);
      }
      s := s - 1;
      r := r - 1;
    }
    HalfwayDone(name[..], str, r, s);
  }

  /** The first loop: finds the end and counts the quotes. */
  method CountQuotes(name: array<char>) returns (r: nat, q: nat)
    requires NUL in name[..]
    ensures r == |CStr(name[..])| && q == Quotes(CStr(name[..])) && r < name.Length
  {
    ghost var str := CStr(name[..]);
    CStrSplit(name[..]);
    hide Escape, Quotes, CStr;
    r, q := 0, 0;
    assert str[..0] == [];
    NoQuotes();
    while name[r] != NUL
      invariant r <= |str| < name.Length && q == Quotes(str[..r])
      decreases |str| - r
    {
      StringAt(name[..], str, r);
      StepBack(str, r);
      if name[r] == '\'' {
        q := q + 1;
      }
      r := r + 1;
    }
    StringAt(name[..], str, r);
    assert str[..|str|] == str;
  }

  lemma NoQuotes()
    ensures Quotes([]) == 0
  {
  }

  lemma StringAt(b: seq<char>, str: string, r: nat)
    requires NulFree(str) && str + [NUL] <= b && r <= |str|
    ensures r < |b| && if r < |str| then b[r] == str[r] && b[r] != NUL else b[r] == NUL
  {
    assert b[r] == (str + [NUL])[r];
  }

  /** Escapes the string in `name` in place when the result fits, else leaves it alone. */
  method ReplaceQuote(name: array<char>) returns (ok: bool)
    requires name.Length == PATH_MAX && NUL in name[..]
    modifies name
    ensures ok <==> |Escape(old(CStr(name[..])))| + 1 <= PATH_MAX
    ensures ok ==> CStr(name[..]) == Escape(old(CStr(name[..]))) && NUL in name[..]
    ensures !ok ==> name[..] == old(name[..])
  {
    ghost var str := CStr(name[..]);
    CStrSplit(name[..]);
    hide Quotes, CStr, Halfway, Escape;
    var r: int, q: int;
    r, q := CountQuotes(name);
    var s: int := r + 3 * q;
    if s + 1 > PATH_MAX {
      return false;
    }
    ghost var b := name[..];
    name[s] := NUL;
    StartHalfway(b, name[..], str, r - 1, s - 1, q);
    Backwards(name, str, r - 1, s - 1, q);
    ok := true;
  }

  lemma StartHalfway(b: seq<char>, b': seq<char>, str: string, r: int, s: int, q: nat)
    requires r == |str| - 1 && q == Quotes(str) && s == r + 3 * q && s + 1 < |b|
    requires str + [NUL] <= b && b' == b[s + 1 := NUL]
    ensures Halfway(b', str, r, s, q)
  {
    assert str[..|str|] == str && str[|str|..] == [];
    hide Quotes;
    assert Escape([]) + [NUL] == [NUL];
    assert b'[s + 1] == NUL;
    assert b'[s + 1..][0] == NUL;
    assert str <= b';
  }
}
