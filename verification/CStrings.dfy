/** NUL-terminated strings in character buffers, and decimal numbers. */
module CStrings {
  const NUL: char := '\0'
  const PATH_MAX: nat := 512

  predicate NulFree(s: string) {
    NUL !in s
  }

  /** The string a buffer holds: everything before its first NUL. */
  function CStr(b: seq<char>): (s: string)
    ensures |s| <= |b| && NulFree(s)
    ensures s == b[..|s|]
    ensures |s| < |b| ==> b[|s|] == NUL
  {
    if b == [] || b[0] == NUL then [] else [b[0]] + CStr(b[1..])
  }

  /** A buffer that starts with a NUL-free string and its NUL holds that string. */
  lemma {:induction false} CStrIs(b: seq<char>, s: string)
    requires NulFree(s) && s + [NUL] <= b
    ensures CStr(b) == s
  {
    if s != [] {
      assert b[0] == (s + [NUL])[0] == s[0];
      assert s[1..] + [NUL] == (s + [NUL])[1..];
      CStrIs(b[1..], s[1..]);
    } else {
      assert b[0] == (s + [NUL])[0];
    }
  }

  lemma CStrSplit(b: seq<char>)
    requires NUL in b
    ensures |CStr(b)| < |b| && CStr(b) + [NUL] <= b
  {
  }

  /** strcpy: copies `s` and a NUL to position `at`. */
  method StrCpy(buf: array<char>, at: nat, s: string)
    requires at + |s| < buf.Length
    modifies buf
    ensures buf[..at] == old(buf[..at]) && buf[at..at + |s|] == s && buf[at + |s|] == NUL
    ensures buf[at + |s| + 1..] == old(buf[at + |s| + 1..])
  {
    forall k | 0 <= k < |s| {
      buf[at + k] := s[k];
    }
    buf[at + |s|] := NUL;
  }

  // ---- decimal numbers, as printf writes them

  function Digit(d: nat): char
    requires d < 10
  {
    "0123456789"[d]
  }

  predicate IsDigits(s: string) {
    |s| > 0 && forall i :: 0 <= i < |s| ==> '0' <= s[i] <= '9'
  }

  function DecNat(n: nat): (s: string)
    ensures IsDigits(s)
  {
    if n < 10 then [Digit(n)] else DecNat(n / 10) + [Digit(n % 10)]
  }

  /** %d */
  function Dec(n: int): (s: string)
    ensures |s| > 0 && (s[0] == '-' || '0' <= s[0] <= '9')
    ensures forall i :: 0 <= i < |s| ==> s[i] == '-' || '0' <= s[i] <= '9'
  {
    if n < 0 then "-" + DecNat(-n) else DecNat(n)
  }

  /** The number a run of digits denotes. */
  function Value(s: string): nat
    requires forall i :: 0 <= i < |s| ==> '0' <= s[i] <= '9'
  {
    if s == [] then 0 else Value(s[..|s| - 1]) * 10 + (s[|s| - 1] - '0') as nat
  }

  lemma {:induction false} ValueDec(n: nat)
    ensures Value(DecNat(n)) == n
  {
    if n < 10 {
      var s := DecNat(n);
      assert s[..0] == [];
      assert Value(s[..0]) == 0;
    } else {
      ValueDec(n / 10);
      var s := DecNat(n);
      assert s[..|s| - 1] == DecNat(n / 10);
    }
  }

  /** The integer a printed text denotes. */
  function Number(s: string): int {
    if IsDigits(s) then Value(s)
    else if s != "" && s[0] == '-' && IsDigits(s[1..]) then 0 - Value(s[1..])
    else 0
  }

  /** %d prints the number: its digits, with a sign in front when it is negative. */
  lemma DecValue(n: int)
    ensures n >= 0 ==> IsDigits(Dec(n)) && Value(Dec(n)) == n
    ensures n < 0 ==> Dec(n)[0] == '-' && IsDigits(Dec(n)[1..]) && Value(Dec(n)[1..]) == -n
    ensures Number(Dec(n)) == n && ' ' !in Dec(n)
  {
    ValueDec(if n < 0 then -n else n);
    assert n < 0 ==> Dec(n)[1..] == DecNat(-n);
  }

  /** A text cut at its blanks. */
  function Words(s: string): (r: seq<string>)
    ensures |r| > 0
  {
    if s == [] then [""]
    else
      var r := Words(s[1..]);
      if s[0] == ' ' then [""] + r else [[s[0]] + r[0]] + r[1..]
  }

  lemma {:induction false} OneWord(w: string)
    requires ' ' !in w
    ensures Words(w) == [w]
  {
    if w != [] {
      assert w[0] in w && [w[0]] + w[1..] == w;
      OneWord(w[1..]);
    }
  }

  lemma {:induction false} WordsAppend(a: string, w: string)
    requires ' ' !in w
    ensures Words(a + " " + w) == Words(a) + [w]
    decreases |a|
  {
    var s := a + " " + w;
    if a == [] {
      assert s[1..] == w;
      OneWord(w);
    } else {
      assert s[1..] == a[1..] + " " + w && s[0] == a[0];
      WordsAppend(a[1..], w);
    }
  }
}
