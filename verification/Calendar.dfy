/** The client's conversion of a file time to text, and the server's conversion back. */
module Calendar {
  import opened CStrings
  import opened Divisors

  const DAY: nat := 24 * 60 * 60

  /** Days of the non-leap months before month `m` (0 is January). */
  const BEFORE_MONTH: seq<nat> := [0, 31, 59, 90, 120, 151, 181, 212, 243, 273, 304, 334]

  predicate IsLeap(year: int) {
    year % 4 == 0 && (year % 100 != 0 || year % 400 == 0)
  }

  function YearDays(year: int): nat {
    if IsLeap(year) then 366 else 365
  }

  /** A broken-down time; months count from 1. */
  datatype Fields = Fields(year: int, month: int, day: int, hour: int, min: int, sec: int)

  function MonthDays(year: int, month: int): int
    requires 1 <= month <= 12
  {
    if month == 2 then (if IsLeap(year) then 29 else 28)
    else if month in {4, 6, 9, 11} then 30 else 31
  }

  /** A date of the Gregorian calendar and a time of day. */
  predicate Valid(f: Fields) {
    && 1 <= f.month <= 12 && 1 <= f.day <= MonthDays(f.year, f.month)
    && 0 <= f.hour < 24 && 0 <= f.min < 60 && 0 <= f.sec < 60
  }

  /** Days of the year before the date. */
  function YearDay(f: Fields): int
    requires 1 <= f.month <= 12
  {
    BEFORE_MONTH[f.month - 1] + f.day - 1 + if IsLeap(f.year) && f.month > 2 then 1 else 0
  }

  /** The number of days between the Epoch and the start of a year, as POSIX has it. */
  function DaysToYear(year: int): int {
    (year - 1970) * 365 + (year - 1969) / 4 - (year - 1901) / 100 + (year - 1601) / 400
  }

  /** "Seconds Since the Epoch", section 4.16 of XBD, POSIX.1-2017. */
  function Posix(f: Fields): int
    requires 1 <= f.month <= 12
  {
    f.sec + f.min * 60 + f.hour * 3600 + (YearDay(f) + DaysToYear(f.year)) * DAY
  }

  lemma Div4(y: int)
    ensures (y - 1968) / 4 == (y - 1969) / 4 + if y % 4 == 0 then 1 else 0
  {
  }

  lemma Div100(y: int)
    ensures (y - 1900) / 100 == (y - 1901) / 100 + if y % 100 == 0 then 1 else 0
    ensures y % 100 == 0 ==> y % 4 == 0
  {
  }

  lemma Div400(y: int)
    ensures (y - 1600) / 400 == (y - 1601) / 400 + if y % 400 == 0 then 1 else 0
    ensures y % 400 == 0 ==> y % 100 == 0
  {
  }

  /** The closed formula grows by the length of each year. */
  lemma NextYear(year: int)
    ensures DaysToYear(year + 1) == DaysToYear(year) + YearDays(year)
  {
    Div4(year);
    Div100(year);
    Div400(year);
    var a, b, c := (year - 1969) / 4, (year - 1901) / 100, (year - 1601) / 400;
    var a', b', c' := (year - 1968) / 4, (year - 1900) / 100, (year - 1600) / 400;
    assert DaysToYear(year + 1) == (year - 1969) * 365 + a' - b' + c';
    assert DaysToYear(year) == (year - 1970) * 365 + a - b + c;
    hide DaysToYear;
  }

  lemma YearDayRange(f: Fields)
    requires Valid(f)
    ensures 0 <= YearDay(f) < YearDays(f.year)
  {
  }

  // ---- the client: strctime

  /** The year-stripping loop. */
  method StripYears(days: nat) returns (year: int, work: nat)
    ensures year >= 1970 && work < YearDays(year) && DaysToYear(year) + work == days
  {
    work := days;
    var i := 1970;
    while true
      invariant i >= 1970 && DaysToYear(i) + work == days
      decreases work
    {
      var k := YearDays(i);
      NextYear(i);
      if work >= k {
        work := work - k;
      } else {
        break;
      }
      i := i + 1;
    }
    year := i;
  }

  /** Month and day of a day of the year, with the leap day taken out first. */
  method SplitYear(year: int, days: nat) returns (month: int, day: int)
    requires days < YearDays(year)
    ensures 0 <= month < 12 && 1 <= day <= MonthDays(year, month + 1)
    ensures YearDay(Fields(year, month + 1, day, 0, 0, 0)) == days
  {
    var work := days;
    day := 1;
    if IsLeap(year) && work > 58 {
      if work == 59 {
        day := 2;
      }
      work := work - 1;
    }
    var i := 11;
    while i > 0 && BEFORE_MONTH[i] > work
      invariant 0 <= i <= 11
      invariant i < 11 ==> BEFORE_MONTH[i + 1] > work
    {
      i := i - 1;
    }
    month := i;
    day := day + work - BEFORE_MONTH[i];
  }

  /** The time of day. */
  method SplitDay(t: nat) returns (hour: nat, min: nat, sec: nat)
    ensures hour < 24 && min < 60 && sec < 60
    ensures sec + min * 60 + hour * 3600 == t % DAY
  {
    var work := t % DAY;
    sec := work % 60;
    work := work / 60;
    min := work % 60;
    hour := work / 60;
  }

  /** Every time from the Epoch on is broken down to the one valid date and time that has it. */
  method Strctime(t: nat) returns (f: Fields)
    ensures Valid(f) && f.year >= 1970 && Posix(f) == t
    ensures forall g :: Valid(g) && Posix(g) == t ==> g == f
  {
    var hour, min, sec := SplitDay(t);
    var year, rest := StripYears(t / DAY);
    var month, day := SplitYear(year, rest);
    f := Fields(year, month + 1, day, hour, min, sec);
    SameDate(Fields(year, month + 1, day, 0, 0, 0), f);
    hide YearDay, DaysToYear, MonthDays;
    assert t == t / DAY * DAY + t % DAY;
    forall g | Valid(g) && Posix(g) == t ensures g == f {
      SameTime(f, g);
    }
  }

  lemma SameDate(f: Fields, g: Fields)
    requires f.year == g.year && f.month == g.month && f.day == g.day && 1 <= f.month <= 12
    ensures YearDay(f) == YearDay(g)
  {
  }

  // ---- a time has one date

  lemma {:induction false} YearsApart(a: int, b: int)
    requires a < b
    ensures DaysToYear(a) + YearDays(a) <= DaysToYear(b)
    decreases b - a
  {
    NextYear(b - 1);
    if a < b - 1 {
      YearsApart(a, b - 1);
    }
  }

  lemma SameDay(f: Fields, g: Fields)
    requires Valid(f) && Valid(g) && f.year == g.year && YearDay(f) == YearDay(g)
    ensures f.month == g.month && f.day == g.day
  {
  }

  lemma SameDayTime(f: Fields, g: Fields, a: int, b: int)
    requires 0 <= f.hour < 24 && 0 <= f.min < 60 && 0 <= f.sec < 60
    requires 0 <= g.hour < 24 && 0 <= g.min < 60 && 0 <= g.sec < 60
    requires f.sec + f.min * 60 + f.hour * 3600 + a * DAY == g.sec + g.min * 60 + g.hour * 3600 + b * DAY
    ensures a == b && f.hour == g.hour && f.min == g.min && f.sec == g.sec
  {
    var x, y := f.sec + f.min * 60 + f.hour * 3600, g.sec + g.min * 60 + g.hour * 3600;
    assert 0 <= x < 86400 && 0 <= y < 86400;
    assert x - y == (b - a) * 86400;
  }

  lemma SameTime(f: Fields, g: Fields)
    requires Valid(f) && Valid(g) && Posix(f) == Posix(g)
    ensures f == g
  {
    YearDayRange(f);
    YearDayRange(g);
    var a, b := YearDay(f) + DaysToYear(f.year), YearDay(g) + DaysToYear(g.year);
    hide YearDay, DaysToYear;
    SameDayTime(f, g, a, b);
    if f.year < g.year {
      YearsApart(f.year, g.year);
    } else if g.year < f.year {
      YearsApart(g.year, f.year);
    } else {
      SameDay(f, g);
    }
  }

  // ---- the text and the server

  function Pow10(w: nat): (p: nat)
    ensures p > 0
  {
    if w == 0 then 1 else 10 * Pow10(w - 1)
  }

  /** A number with at least `w` digits, as %.<w>d prints it. */
  function Pad(n: nat, w: nat): (s: string)
    ensures |s| >= w
    ensures forall i :: 0 <= i < |s| ==> '0' <= s[i] <= '9'
  {
    if w == 0 then (if n == 0 then "" else DecNat(n))
    else Pad(n / 10, w - 1) + [Digit(n % 10)]
  }

  /** There are more than `w` characters exactly when the number has more digits. */
  lemma {:induction false} PadLength(n: nat, w: nat)
    ensures |Pad(n, w)| == w <==> n < Pow10(w)
    decreases w
  {
    if w > 0 {
      PadLength(n / 10, w - 1);
      hide Pow10, DecNat;
      TailMod(n, Pow10(w - 1));
      PowStep(w);
    }
  }

  /** The last `w` characters read as a number are the number modulo 10^w. */
  lemma {:induction false} PadTail(n: nat, w: nat)
    ensures Value(Pad(n, w)[|Pad(n, w)| - w..]) == n % Pow10(w)
    decreases w
  {
    if w > 0 {
      PadTail(n / 10, w - 1);
      PadStep(n, w);
      hide Pow10, DecNat, Pad, Value, Digit;
      TailMod(n, Pow10(w - 1));
      PowStep(w);
    } else {
      assert Pad(n, 0)[|Pad(n, 0)|..] == [];
    }
  }

  lemma PadStep(n: nat, w: nat)
    requires w > 0
    ensures var s, t := Pad(n, w), Pad(n / 10, w - 1);
            Value(s[|s| - w..]) == Value(t[|t| - (w - 1)..]) * 10 + n % 10
  {
    hide Value, Digit, DecNat;
    DigitValue(n % 10);
    TailValue(Pad(n / 10, w - 1), w - 1, Digit(n % 10));
  }

  lemma DigitValue(d: nat)
    requires d < 10
    ensures '0' <= Digit(d) <= '9' && (Digit(d) - '0') as nat == d
  {
  }

  lemma PowStep(w: nat)
    requires w > 0
    ensures Pow10(w) == 10 * Pow10(w - 1)
  {
  }

  lemma TailValue(t: string, w: nat, c: char)
    requires w <= |t| && '0' <= c <= '9' && forall i :: 0 <= i < |t| ==> '0' <= t[i] <= '9'
    ensures Value((t + [c])[|t| + 1 - (w + 1)..]) == Value(t[|t| - w..]) * 10 + (c - '0') as nat
  {
    var tail := (t + [c])[|t| - w..];
    assert tail[..|tail| - 1] == t[|t| - w..];
  }

  lemma TailMod(n: nat, p: nat)
    requires p > 0
    ensures n % (10 * p) == (n / 10) % p * 10 + n % 10
    ensures n < 10 * p <==> n / 10 < p
  {
    var m, d := n / 10, n % 10;
    var q, r := m / p, m % p;
    assert m == p * q + r;
    assert (10 * p) * q == 10 * (p * q);
    DivisionIs(n, 10 * p, q, r * 10 + d);
  }

  /** What strctime prints. */
  function Text(f: Fields): string
    requires Valid(f) && f.year >= 0
  {
    Pad(f.year, 4) + Pad(f.month, 2) + Pad(f.day, 2) + Pad(f.hour, 2) + Pad(f.min, 2) + "." + Pad(f.sec, 2)
  }

  /** The server's pattern, four characters, four pairs, a dot and a pair, found at `p`. */
  predicate MatchesAt(s: string, p: nat) {
    p + 15 <= |s| && s[p + 12] == '.' && '\n' !in s[p..p + 15]
  }

  /** The pattern is not anchored: its first match at or behind `p` counts, -1 if there is none. */
  function FirstMatch(s: string, p: nat): (m: int)
    ensures m == -1 || (p <= m && MatchesAt(s, m))
    decreases |s| - p
  {
    if p + 15 > |s| then -1
    else if MatchesAt(s, p) then p
    else FirstMatch(s, p + 1)
  }

  predicate Digits(s: string) {
    forall i :: 0 <= i < |s| ==> '0' <= s[i] <= '9'
  }

  /** The captured groups. */
  function Cut(s: string, p: nat): Fields
    requires p + 15 <= |s|
  {
    Fields(Number(s[p..p + 4]), Number(s[p + 4..p + 6]), Number(s[p + 6..p + 8]), Number(s[p + 8..p + 10]),
           Number(s[p + 10..p + 12]), Number(s[p + 13..p + 15]))
  }

  lemma TwoDigits(n: nat)
    requires n < 100
    ensures |Pad(n, 2)| == 2 && Digits(Pad(n, 2)) && Number(Pad(n, 2)) == n
  {
    hide Pad, Value, Pow10;
    PadLength(n, 2);
    Powers();
    var s := Pad(n, 2);
    assert Value(s) == n by {
      PadTail(n, 2);
      assert s[0..] == s;
    }
  }

  lemma Powers()
    ensures Pow10(2) == 100 && Pow10(4) == 10000
  {
  }

  lemma YearDigits(n: nat)
    ensures var y := Pad(n, 4);
            Digits(y) && Digits(y[|y| - 4..]) && Number(y[|y| - 4..]) == n % 10000 && (|y| == 4 <==> n < 10000)
  {
    hide Pad, Value, Pow10;
    Powers();
    PadTail(n, 4);
    PadLength(n, 4);
  }

  /** No match can start before the last four digits of the year. */
  lemma {:induction false} FirstMatchIs(s: string, k: nat, p: nat)
    requires p <= k && MatchesAt(s, k) && forall i :: p + 12 <= i < k + 12 ==> s[i] != '.'
    ensures FirstMatch(s, p) == k
    decreases k - p
  {
    if p < k {
      FirstMatchIs(s, k, p + 1);
    }
  }

  /** A text is digits, a dot, and two more characters; the match ends it. */
  lemma MatchOf(front: string, se: string)
    requires |front| >= 12 && Digits(front) && Digits(se) && |se| == 2
    ensures FirstMatch(front + "." + se, 0) == |front| - 12
  {
    var s, k := front + "." + se, |front| - 12;
    assert s[k + 12] == '.';
    assert forall i :: 0 <= i < |front| ==> s[i] == front[i];
    assert '\n' !in s;
    FirstMatchIs(s, k, 0);
  }

  lemma DigitsJoin(a: string, b: string)
    requires Digits(a) && Digits(b)
    ensures Digits(a + b)
  {
  }

  lemma FirstIs(y: string, mo: string, da: string, ho: string, mi: string, se: string)
    requires |y| >= 4 && |mo| == |da| == |ho| == |mi| == |se| == 2
    requires Digits(y) && Digits(mo) && Digits(da) && Digits(ho) && Digits(mi) && Digits(se)
    ensures FirstMatch(y + mo + da + ho + mi + "." + se, 0) == |y| - 4
  {
    DigitsJoin(y, mo);
    DigitsJoin(y + mo, da);
    DigitsJoin(y + mo + da, ho);
    DigitsJoin(y + mo + da + ho, mi);
    hide Digits, FirstMatch;
    MatchOf(y + mo + da + ho + mi, se);
  }

  /** Where the pieces of a text are. */
  lemma Pieces(y: string, mo: string, da: string, ho: string, mi: string, se: string)
    requires |y| >= 4 && |mo| == |da| == |ho| == |mi| == |se| == 2
    ensures var s, k := y + mo + da + ho + mi + "." + se, |y| - 4;
            && k + 15 == |s| && s[k + 12] == '.'
            && Cut(s, k) == Fields(Number(y[k..]), Number(mo), Number(da), Number(ho), Number(mi), Number(se))
  {
    hide Number;
    var s, k := y + mo + da + ho + mi + "." + se, |y| - 4;
    assert s[k..k + 4] == y[k..];
    assert s[k + 4..k + 6] == mo;
    assert s[k + 6..k + 8] == da;
    assert s[k + 8..k + 10] == ho;
    assert s[k + 10..k + 12] == mi;
    assert s[k + 13..k + 15] == se;
  }

  lemma FieldDigits(f: Fields)
    requires Valid(f) && f.year >= 0
    ensures var y := Pad(f.year, 4);
            Digits(y) && Number(y[|y| - 4..]) == f.year % 10000 && (|y| == 4 <==> f.year <= 9999)
    ensures |Pad(f.month, 2)| == |Pad(f.day, 2)| == |Pad(f.hour, 2)| == |Pad(f.min, 2)| == |Pad(f.sec, 2)| == 2
    ensures Digits(Pad(f.month, 2)) && Digits(Pad(f.day, 2)) && Digits(Pad(f.hour, 2)) && Digits(Pad(f.min, 2))
    ensures Digits(Pad(f.sec, 2))
    ensures Number(Pad(f.month, 2)) == f.month && Number(Pad(f.day, 2)) == f.day
    ensures Number(Pad(f.hour, 2)) == f.hour && Number(Pad(f.min, 2)) == f.min && Number(Pad(f.sec, 2)) == f.sec
  {
    hide Number, Pad, Digits;
    YearDigits(f.year);
    TwoDigits(f.month);
    TwoDigits(f.day);
    TwoDigits(f.hour);
    TwoDigits(f.min);
    TwoDigits(f.sec);
  }

  lemma TextPieces(f: Fields)
    requires Valid(f) && f.year >= 0
    ensures var k := |Text(f)| - 15;
            && k >= 0 && Text(f)[k + 12] == '.' && (k == 0 <==> f.year <= 9999)
            && FirstMatch(Text(f), 0) == k && Cut(Text(f), k) == f.(year := f.year % 10000)
  {
    hide Number, Pad, Digits, FirstMatch, Cut, MonthDays;
    FieldDigits(f);
    FirstIs(Pad(f.year, 4), Pad(f.month, 2), Pad(f.day, 2), Pad(f.hour, 2), Pad(f.min, 2), Pad(f.sec, 2));
    Pieces(Pad(f.year, 4), Pad(f.month, 2), Pad(f.day, 2), Pad(f.hour, 2), Pad(f.min, 2), Pad(f.sec, 2));
  }

  /** The server sees all fields but only the last four digits of the year. */
  lemma TextCut(f: Fields)
    requires Valid(f) && f.year >= 0
    ensures var k := FirstMatch(Text(f), 0);
            0 <= k && k + 15 <= |Text(f)| && Cut(Text(f), k) == f.(year := f.year % 10000)
  {
    hide Text, FirstMatch, Cut, Valid;
    TextPieces(f);
  }

  /** Up to the year 9999 the text is fifteen characters: YYYYMMDDhhmm.ss. */
  lemma TextLayout(f: Fields)
    requires Valid(f) && 0 <= f.year <= 9999
    ensures var t := Text(f);
            && |t| == 15 && t[12] == '.'
            && Number(t[0..4]) == f.year && Number(t[4..6]) == f.month && Number(t[6..8]) == f.day
            && Number(t[8..10]) == f.hour && Number(t[10..12]) == f.min && Number(t[13..15]) == f.sec
  {
    CutWhole(Text(f));
    hide Text, FirstMatch, Cut, Number, Valid;
    TextPieces(f);
  }

  lemma CutWhole(t: string)
    ensures |t| == 15 ==>
              Cut(t, 0) == Fields(Number(t[0..4]), Number(t[4..6]), Number(t[6..8]), Number(t[8..10]),
                                  Number(t[10..12]), Number(t[13..15]))
  {
  }

  /** mktime in the server's time zone GMT. */
  function ServerTime(text: string): int
    requires var k := FirstMatch(text, 0);
             k >= 0 && k + 15 <= |text| && 1 <= Cut(text, k).month <= 12
  {
    Posix(Cut(text, FirstMatch(text, 0)))
  }

  lemma Shift4(x: int, k: int)
    ensures (x + 10000 * k) / 4 == x / 4 + 2500 * k && (x + 10000 * k) % 4 == x % 4
  {
  }

  lemma Shift100(x: int, k: int)
    ensures (x + 10000 * k) / 100 == x / 100 + 100 * k && (x + 10000 * k) % 100 == x % 100
  {
  }

  lemma Shift400(x: int, k: int)
    ensures (x + 10000 * k) / 400 == x / 400 + 25 * k && (x + 10000 * k) % 400 == x % 400
  {
  }

  /** Ten thousand years are a whole number of leap year cycles. */
  lemma TenMillennia(year: int, k: int)
    ensures DaysToYear(year + 10000 * k) == DaysToYear(year) + 3652425 * k
  {
    Shift4(year - 1969, k);
    Shift100(year - 1901, k);
    Shift400(year - 1601, k);
    var a, b, c := (year - 1969) / 4, (year - 1901) / 100, (year - 1601) / 400;
    assert DaysToYear(year) == (year - 1970) * 365 + a - b + c;
    assert DaysToYear(year + 10000 * k)
        == (year + 10000 * k - 1970) * 365 + (a + 2500 * k) - (b + 100 * k) + (c + 25 * k) by {
      assert year + 10000 * k - 1969 == year - 1969 + 10000 * k;
      assert year + 10000 * k - 1901 == year - 1901 + 10000 * k;
      assert year + 10000 * k - 1601 == year - 1601 + 10000 * k;
    }
    hide DaysToYear;
  }

  lemma SameLeap(year: int, k: int)
    ensures IsLeap(year + 10000 * k) == IsLeap(year)
  {
    Shift4(year, k);
    Shift100(year, k);
    Shift400(year, k);
  }

  /** The server sets the time that was sent if and only if the year has at most four digits;
      otherwise it is early by whole ten-thousands of years. */
  lemma SetTimeExact(f: Fields)
    requires Valid(f) && f.year >= 0
    ensures var k := FirstMatch(Text(f), 0);
            && k >= 0 && k + 15 <= |Text(f)| && Cut(Text(f), k).month == f.month
            && ServerTime(Text(f)) == Posix(f) - f.year / 10000 * (3652425 * DAY)
            && (ServerTime(Text(f)) == Posix(f) <==> f.year <= 9999)
  {
    TextCut(f);
    hide Text, FirstMatch, Cut, Posix;
    Early(f, f.year % 10000, f.year / 10000);
  }

  lemma Early(f: Fields, y: int, k: int)
    requires 1 <= f.month <= 12 && 0 <= y < 10000 && f.year == y + 10000 * k
    ensures Posix(f.(year := y)) == Posix(f) - k * (3652425 * DAY)
    ensures Posix(f.(year := y)) == Posix(f) <==> f.year <= 9999 && f.year >= 0
  {
    hide Posix;
    LaterEpoch(f.(year := y), k);
  }

  lemma LaterEpoch(g: Fields, k: int)
    requires 1 <= g.month <= 12
    ensures Posix(g.(year := g.year + 10000 * k)) == Posix(g) + k * (3652425 * DAY)
  {
    hide DaysToYear, IsLeap;
    TenMillennia(g.year, k);
    SameLeap(g.year, k);
    var f := g.(year := g.year + 10000 * k);
    assert YearDay(f) == YearDay(g);
    hide YearDay;
  }

  lemma EndOf9999()
    ensures DaysToYear(10000) == 2932897
  {
  }

  /** In terms of the time itself the bound is the end of the year 9999. */
  lemma LastSecond(f: Fields)
    requires Valid(f)
    ensures f.year <= 9999 <==> Posix(f) < 253402300800
  {
    YearDayRange(f);
    EndOf9999();
    hide DaysToYear, YearDay, YearDays;
    if f.year <= 9999 {
      YearsApart(f.year, 10000);
    } else if f.year > 10000 {
      YearsApart(10000, f.year);
    }
  }

  /** The time travels from the client's strctime to the server's mktime unchanged exactly up to
      the end of the year 9999. */
  method SetTime(t: nat) returns (received: int)
    ensures received == t <==> t < 253402300800
  {
    var f := Strctime(t);
    SetTimeExact(f);
    LastSecond(f);
    received := ServerTime(Text(f));
  }
}
