/** Lines and blocks read from a socket through a fixed buffer. */
module SockReader {
  import opened CStrings
  import opened Divisors

  const READLNBUF_SIZE: nat := PATH_MAX * 10
  const EAGAIN: int := -11
  const EINVAL: int := -22
  const EIO: int := -5

  /** What the socket has in store: pieces of the stream as they arrive, and moments without data. */
  datatype Event = Data(bytes: string) | Again

  function Stream(events: seq<Event>): string {
    if events == [] then ""
    else (if events[0].Data? then events[0].bytes else "") + Stream(events[1..])
  }

  /** Bounds the number of reads that can still happen. */
  function Pending(events: seq<Event>): nat {
    if events == [] then 0
    else (if events[0].Data? then |events[0].bytes| else 0) + 1 + Pending(events[1..])
  }

  /** How much the next read finds: the first piece that is not empty, EAGAIN, or 0 at the end. */
  function FirstPiece(events: seq<Event>): int {
    if events == [] then 0
    else match events[0]
      case Again => EAGAIN
      case Data(b) => if b == "" then FirstPiece(events[1..]) else |b|
  }

  /** Before event `i` there are only empty pieces. */
  predicate FirstReal(events: seq<Event>, i: nat) {
    i < |events| && events[i] != Data("") && forall j :: 0 <= j < i ==> events[j] == Data("")
  }

  lemma {:induction false} FirstPieceIs(events: seq<Event>, i: nat)
    requires FirstReal(events, i)
    ensures FirstPiece(events) == if events[i].Again? then -11 else |events[i].bytes|
    decreases i
  {
    if i > 0 {
      FirstPieceIs(events[1..], i - 1);
    }
  }

  /** The peer has closed: nothing comes any more, not even a wait. */
  predicate Closed(events: seq<Event>) {
    Stream(events) == "" && forall i :: 0 <= i < |events| ==> events[i].Data?
  }

  lemma {:induction false} NoFirstPiece(events: seq<Event>)
    requires Closed(events)
    ensures FirstPiece(events) == 0
  {
    if events != [] {
      assert events[0].Data?;
      NoFirstPiece(events[1..]);
    }
  }

  /** What the socket still has when `n` characters of the stream have been read. */
  function From(events: seq<Event>, n: nat): seq<Event> {
    if n == 0 || events == [] then events
    else match events[0]
      case Again => From(events[1..], n)
      case Data(b) => if |b| <= n then From(events[1..], n - |b|) else [Data(b[n..])] + events[1..]
  }

  /** Where in the stream the piece with the `m`-th character ends. */
  function PieceEnd(events: seq<Event>, m: nat): (e: nat)
    requires m > 0
    ensures e >= m
  {
    if events == [] then m
    else match events[0]
      case Again => PieceEnd(events[1..], m)
      case Data(b) => if m <= |b| then |b| else |b| + PieceEnd(events[1..], m - |b|)
  }

  /** The sockets differ only in what happens before the next character. */
  ghost predicate SameData(a: seq<Event>, b: seq<Event>) {
    forall m: nat :: m > 0 ==> From(a, m) == From(b, m) && PieceEnd(a, m) == PieceEnd(b, m)
  }

  lemma {:induction false} FromFrom(events: seq<Event>, n: nat, m: nat)
    ensures From(From(events, n), m) == From(events, n + m)
  {
    if n > 0 && events != [] {
      match events[0]
      case Again =>
        FromFrom(events[1..], n, m);
      case Data(b) =>
        if |b| <= n {
          FromFrom(events[1..], n - |b|, m);
        } else {
          assert n + m < |b| ==> b[n..][m..] == b[n + m..];
        }
    }
  }

  lemma {:induction false} PieceEndFrom(events: seq<Event>, n: nat, m: nat)
    requires m > 0
    ensures n + PieceEnd(From(events, n), m) == PieceEnd(events, n + m)
  {
    if n > 0 && events != [] {
      match events[0]
      case Again =>
        PieceEndFrom(events[1..], n, m);
      case Data(b) =>
        if |b| <= n {
          PieceEndFrom(events[1..], n - |b|, m);
        }
    }
  }

  /** All characters of one piece have the same end. */
  lemma {:induction false} PieceEndSame(events: seq<Event>, a: nat, b: nat)
    requires 0 < a <= b <= PieceEnd(events, a)
    ensures PieceEnd(events, b) == PieceEnd(events, a)
  {
    if events != [] {
      match events[0]
      case Again =>
        PieceEndSame(events[1..], a, b);
      case Data(d) =>
        if a > |d| {
          PieceEndSame(events[1..], a - |d|, b - |d|);
        }
    }
  }

  class Socket {
    var events: seq<Event>

    constructor (events: seq<Event>)
      ensures this.events == events
    {
      this.events := events;
    }

    /** One read of at most `cap` characters; 0 means the peer has closed. */
    method Recv(cap: nat) returns (result: int, bytes: string)
      requires cap > 0
      modifies this
      ensures result == EAGAIN || (result == |bytes| && result <= cap)
      ensures result == EAGAIN ==> bytes == ""
      ensures Stream(old(events)) == bytes + Stream(events)
      ensures result == 0 ==> events == [] && Stream(old(events)) == ""
      ensures result != 0 ==> Pending(events) < Pending(old(events))
      ensures result == Min(FirstPiece(old(events)), cap)
      ensures result > 0 ==> events == From(old(events), result) && result == Min(PieceEnd(old(events), 1), cap)
      ensures result == EAGAIN ==> SameData(events, old(events))
      decreases Pending(events)
    {
      if events == [] {
        return 0, "";
      }
      match events[0] {
        case Again =>
          events := events[1..];
          result, bytes := EAGAIN, "";
        case Data(b) =>
          if b == "" {
            events := events[1..];
            result, bytes := Recv(cap);
          } else if |b| <= cap {
            events := events[1..];
            result, bytes := |b|, b;
          } else {
            ghost var before := events;
            events := [Data(b[cap..])] + events[1..];
            result, bytes := cap, b[..cap];
            assert b == b[..cap] + b[cap..];
            assert events[1..] == before[1..];
          }
      }
    }
  }

  function IndexOf(c: char, s: string): (i: int)
    ensures -1 <= i < |s|
    ensures i >= 0 ==> s[i] == c && c !in s[..i]
    ensures i < 0 <==> c !in s
  {
    if s == [] then -1
    else if s[0] == c then 0
    else
      var i := IndexOf(c, s[1..]);
      if i < 0 then -1 else
      assert s[..i + 1] == [s[0]] + s[1..][..i];
      i + 1
  }

  datatype Taken = Taken(line: string, rest: string) | Short

  /** The next line of a stream: up to the newline when there is one in the first
      READLNBUF_SIZE characters, else all of those but the last, which is lost. */
  function NextLine(content: string): Taken {
    var i := IndexOf('\n', if |content| < READLNBUF_SIZE then content else content[..READLNBUF_SIZE]);
    if i >= 0 then Taken(content[..i], content[i + 1..])
    else if |content| >= READLNBUF_SIZE then Taken(content[..READLNBUF_SIZE - 1], content[READLNBUF_SIZE..])
    else Short
  }

  /** What of a line arrives in a caller's buffer of `count` characters. */
  function Received(line: string, count: nat): (s: string)
    requires count > 0
    ensures |s| < count
  {
    var s := CStr(line);
    if |s| < count then s else s[..count - 1]
  }

  /** How many characters the socket delivers when `held` characters are buffered and the line
      ends with the `e`-th: up to the end of the piece with the newline, if there is room. */
  function LineReads(events: seq<Event>, held: nat, e: nat): nat
    requires held <= READLNBUF_SIZE
  {
    if e <= held then 0 else Min(PieceEnd(events, e - held), READLNBUF_SIZE - held)
  }

  /** A piece that holds the end of the line and fits is taken whole. */
  lemma PieceTakenWhole(b: string, more: seq<Event>, held: nat, e: nat)
    requires held < e <= held + |b| <= READLNBUF_SIZE
    ensures LineReads([Data(b)] + more, held, e) == |b|
  {
  }

  class Reader {
    const sock: Socket
    const buf: array<char>
    var len: nat

    ghost predicate Valid()
      reads this
    {
      buf.Length == READLNBUF_SIZE && len <= READLNBUF_SIZE
    }

    /** Everything not yet handed out: the buffer and what the socket still has. */
    ghost function Content(): string
      requires Valid()
      reads this, buf, sock
    {
      buf[..len] + Stream(sock.events)
    }

    constructor (events: seq<Event>)
      ensures Valid() && fresh(buf) && fresh(sock) && len == 0 && sock.events == events
      ensures Content() == Stream(events)
    {
      sock := new Socket(events);
      buf := new char[READLNBUF_SIZE](_ => ' ');
      len := 0;
    }

    /** Drops the first `n` characters of the buffer. */
    method Shift(n: nat)
      requires Valid() && n <= len
      modifies this`len, buf
      ensures Valid() && buf[..len] == old(buf[n..len])
    {
      forall k | 0 <= k < len - n {
        buf[k] := buf[n + k];
      }
      len := len - n;
    }

    /** strncpy of a line into the caller's buffer. */
    method CopyLine(line: string, buffer: array<char>, count: nat) returns (strlen: nat)
      requires 0 < count <= buffer.Length
      modifies buffer
      ensures strlen == |Received(line, count)|
      ensures buffer[..strlen] == Received(line, count)
      ensures forall k :: strlen <= k < count ==> buffer[k] == NUL
    {
      var s := Received(line, count);
      forall k | 0 <= k < count {
        buffer[k] := if k < |s| then s[k] else NUL;
      }
      strlen := |s|;
    }

    /** Hands out the first `nl` characters of the buffer and drops them with their newline. */
    method TakeLine(nl: nat, buffer: array<char>, count: nat) returns (strlen: nat)
      requires Valid() && nl < len && buffer != buf && 0 < count <= buffer.Length
      modifies this`len, buf, buffer
      ensures Valid() && len == old(len) - (nl + 1) && buf[..len] == old(buf[nl + 1..len])
      ensures strlen == |Received(old(buf[..nl]), count)| && buffer[..strlen] == Received(old(buf[..nl]), count)
      ensures forall k :: strlen <= k < count ==> buffer[k] == NUL
    {
      hide Received;
      strlen := CopyLine(buf[..nl], buffer, count);
      Shift(nl + 1);
    }

    /** One socket read into the free part of the buffer. */
    method Receive(c: nat) returns (got: int, ghost bytes: string)
      requires Valid() && 0 < c == READLNBUF_SIZE - len
      modifies this`len, buf, sock
      ensures Valid() && buf[..len] == old(buf[..len]) + bytes && len == old(len) + |bytes|
      ensures if got > 0 then |bytes| == got else bytes == "" && buf[..len] == old(buf[..len])
      ensures old(Content()) == Content()
      ensures got == 0 ==> Stream(old(sock.events)) == ""
      ensures got != 0 ==> Pending(sock.events) < Pending(old(sock.events))
      ensures got > 0 ==> |bytes| == Min(PieceEnd(old(sock.events), 1), c)
                          && sock.events == From(old(sock.events), |bytes|)
      ensures got < 0 ==> got == EAGAIN && SameData(sock.events, old(sock.events))
    {
      hide Stream, Pending, FirstPiece, PieceEnd, From, SameData;
      var received;
      got, received := sock.Recv(c);
      bytes := received;
      ghost var held := buf[..len];
      assert held + (received + Stream(sock.events)) == held + received + Stream(sock.events);
      Fill(received);
    }

    /** Looks for a newline, reading until there is one; if the buffer is full without, one is put
        at its end. */
    method FindLine() returns (nl: int, ghost positive: nat)
      requires Valid()
      modifies this`len, buf, sock
      ensures Valid()
      ensures match NextLine(old(Content()))
              case Taken(line, rest) =>
                && nl == |line| < len && line == buf[..nl] && rest == buf[nl + 1..len] + Stream(sock.events)
                && var fetched := LineReads(old(sock.events), old(len), nl + 1);
                   sock.events == From(old(sock.events), fetched) && len == old(len) + fetched
              case Short => nl == EIO && Content() == old(Content())
      ensures positive <= READLNBUF_SIZE - old(len)
    {
      hide NextLine, Stream, Pending, From, PieceEnd, FirstPiece, LineReads, SameData, Progress, CutOff;
      ghost var content, events, cut := Content(), sock.events, false;
      ghost var fetched: nat, before: nat := 0, 0;
      StartLine(events, buf[..len]);
      positive := 0;
      var l := 0;
      while true
        invariant Valid() && positive + old(len) <= len
        invariant if cut then CutOff(content, buf[..len], Stream(sock.events)) else Content() == content
        invariant Progress(events, sock.events, old(len), buf[..len], fetched, before)
        decreases Pending(sock.events), if cut then 0 else 1
      {
        nl := IndexOf('\n', buf[..len]);
        if nl >= 0 {
          ghost var held := buf[..len];
          LineInBuffer(content, held, nl, Stream(sock.events), cut);
          LineComplete(events, sock.events, old(len), held, fetched, before, nl);
          return nl, positive;
        }
        var c := READLNBUF_SIZE - len;
        if c == 0 {
          Overflow(content, buf[..len], Stream(sock.events), cut);
          CutKeeps(events, sock.events, old(len), buf[..len], fetched, before);
          buf[READLNBUF_SIZE - 1] := '\n';
          cut := true;
          continue;
        }
        NotCut(content, buf[..len], Stream(sock.events), cut);
        ghost var unread, held0 := sock.events, buf[..len];
        var got, bytes := Receive(c);
        if got == 0 {
          NoLine(content, buf[..len]);
          return EIO, positive;
        }
        if got == EAGAIN {
          WaitMore(events, unread, old(len), held0, fetched, before, sock.events);
          continue;
        }
        ReadMore(events, unread, old(len), held0, fetched, before, bytes);
        before, fetched := fetched, fetched + got;
        positive := positive + 1;
        l := l + 1;
        if l > READLNBUF_SIZE + 1 && len == 0 {
          return EINVAL, positive;
        }
      }
    }

    /** Reads one line. Whatever pieces the socket delivers, the line and what is left are those
        of NextLine; a line needs no more positive reads than there was room in the buffer. */
    method Readln(buffer: array<char>, count: nat) returns (result: int, ghost positive: nat)
      requires Valid() && buffer != buf && 0 < count <= buffer.Length
      modifies this`len, buf, sock, buffer
      ensures Valid()
      ensures match NextLine(old(Content()))
              case Taken(line, rest) =>
                && result == |Received(line, count)| && buffer[..result] == Received(line, count)
                && (forall k :: result <= k < count ==> buffer[k] == NUL)
                && Content() == rest
                && var fetched := LineReads(old(sock.events), old(len), |line| + 1);
                   sock.events == From(old(sock.events), fetched) && len == old(len) + fetched - (|line| + 1)
              case Short => result == EIO && Content() == old(Content())
      ensures positive <= READLNBUF_SIZE - old(len)
    {
      hide NextLine, Received, Stream, From, LineReads;
      var nl;
      nl, positive := FindLine();
      if nl < 0 {
        return nl, positive;
      }
      result := TakeLine(nl, buffer, count);
    }

    /** How many of `n` characters a direct read gets. */
    ghost function Available(n: nat): nat
      requires Valid()
      reads this, sock
    {
      if n <= len then n else len + Min(n - len, Max(FirstPiece(sock.events), 0))
    }

    /** What a direct read of `n` characters returns: all of them as soon as there are any. */
    ghost function Reported(n: nat): int
      requires Valid()
      reads this, sock
    {
      var more := FirstPiece(sock.events);
      if n <= len || more > 0 then n else if more == 0 then EIO else EAGAIN
    }

    /** The buffered characters, then one socket read. */
    method ReadOnce(count: nat) returns (result: int, got: string)
      requires Valid()
      modifies this`len, buf, sock
      ensures Valid() && old(Content()) == got + Content()
      ensures result == count || result == EIO || result == EAGAIN
      ensures |got| == old(Available(count))
      ensures result == old(Reported(count))
      ensures |got| == count ==> var fetched := if count <= old(len) then 0 else count - old(len);
                                 sock.events == From(old(sock.events), fetched) && len == old(len) + fetched - count
    {
      hide Stream, Pending, FirstPiece, From, PieceEnd, SameData;
      ghost var held, stream := buf[..len], Stream(sock.events);
      FromNothing(sock.events);
      var c := count;
      got := "";
      if len > 0 {
        if count > len {
          c := len;
        }
        got := buf[..c];
        Shift(c);
        assert held == got + buf[..len];
        c := count - c;
      }
      assert held + stream == got + (buf[..len] + stream);
      if c == 0 {
        return count, got;
      }
      assert buf[..len] == "";
      var more, bytes := sock.Recv(c);
      ghost var left := Stream(sock.events);
      assert got + ("" + (bytes + left)) == got + bytes + ("" + left);
      got := got + bytes;
      if more == 0 {
        return EIO, got;
      }
      result := if more < 0 then more else count;
    }

    /** Reads a block of `count` characters: the buffered ones, then one socket read. What it
        hands out is the stream's next `got` characters; it reports the whole count even when
        the socket read was short. */
    method Read(count: nat) returns (result: int, got: string)
      requires Valid()
      modifies this`len, buf, sock
      ensures Valid() && old(Content()) == got + Content()
      ensures result == count || result == EIO || result == EAGAIN
      ensures |got| == old(Available(count))
      ensures count <= old(len) ==> result == count == |got|
      ensures count > old(len) && Closed(old(sock.events)) ==> result == -5 && |got| == old(len)
      ensures forall i: nat :: count > old(len) && FirstReal(old(sock.events), i) ==>
                match old(sock.events)[i]
                case Again => result == -11 && |got| == old(len)
                case Data(b) => result == count && |got| == Min(count, old(len) + |b|)
      ensures |got| == count ==> var fetched := if count <= old(len) then 0 else count - old(len);
                                 sock.events == From(old(sock.events), fetched) && len == old(len) + fetched - count
    {
      ReadOutcome(sock.events);
      hide Stream, FirstPiece, From, Closed, FirstReal;
      result, got := ReadOnce(count);
    }

    /** Puts received characters behind the buffered ones. */
    method Fill(bytes: string)
      requires Valid() && len + |bytes| <= READLNBUF_SIZE
      modifies this`len, buf
      ensures Valid() && buf[..len] == old(buf[..len]) + bytes && len == old(len) + |bytes|
    {
      forall k | 0 <= k < |bytes| {
        buf[len + k] := bytes[k];
      }
      len := len + |bytes|;
    }
  }

  lemma ReadOutcome(events: seq<Event>)
    ensures Closed(events) ==> FirstPiece(events) == 0
    ensures forall i: nat :: FirstReal(events, i) ==>
              FirstPiece(events) == if events[i].Again? then -11 else |events[i].bytes|
    ensures forall i: nat :: FirstReal(events, i) && events[i].Data? ==> |events[i].bytes| > 0
  {
    if Closed(events) {
      NoFirstPiece(events);
    }
    forall i: nat | FirstReal(events, i)
      ensures FirstPiece(events) == if events[i].Again? then -11 else |events[i].bytes|
    {
      FirstPieceIs(events, i);
    }
  }

  /** The socket still has what follows the first `reads` characters of `events`. */
  ghost predicate Unread(events: seq<Event>, fetched: nat, now: seq<Event>) {
    forall m: nat :: m > 0 ==>
      From(now, m) == From(events, fetched + m) && fetched + PieceEnd(now, m) == PieceEnd(events, fetched + m)
  }

  /** The last read began behind `before` characters, when no newline was buffered. */
  ghost predicate LastRead(events: seq<Event>, held0: nat, fetched: nat, before: nat, held: string) {
    && before < fetched && held0 + fetched == |held| <= READLNBUF_SIZE
    && '\n' !in held[..held0 + before]
    && fetched == Min(PieceEnd(events, before + 1), READLNBUF_SIZE - held0)
  }

  /** What a line needs to know about the characters fetched for it so far. */
  ghost predicate Progress(events: seq<Event>, now: seq<Event>, held0: nat, held: string, fetched: nat, before: nat) {
    && |held| == held0 + fetched <= READLNBUF_SIZE && Unread(events, fetched, now)
    && (now == From(events, fetched) || ('\n' !in held && |held| < READLNBUF_SIZE))
    && (fetched > 0 ==> LastRead(events, held0, fetched, before, held))
  }

  lemma FromNothing(events: seq<Event>)
    ensures From(events, 0) == events
  {
  }

  lemma StartLine(events: seq<Event>, held: string)
    requires |held| <= READLNBUF_SIZE
    ensures Progress(events, events, |held|, held, 0, 0)
  {
  }

  lemma WaitMore(events: seq<Event>, now: seq<Event>, held0: nat, held: string, fetched: nat, before: nat,
                 next: seq<Event>)
    requires Progress(events, now, held0, held, fetched, before) && SameData(next, now)
    requires '\n' !in held && |held| < READLNBUF_SIZE
    ensures Progress(events, next, held0, held, fetched, before)
  {
  }

  lemma ReadMore(events: seq<Event>, now: seq<Event>, held0: nat, held: string, fetched: nat, before: nat,
                 bytes: string)
    requires Progress(events, now, held0, held, fetched, before)
    requires '\n' !in held && |held| < READLNBUF_SIZE
    requires |bytes| == Min(PieceEnd(now, 1), READLNBUF_SIZE - |held|)
    ensures Progress(events, From(now, |bytes|), held0, held + bytes, fetched + |bytes|, fetched)
  {
    hide From, PieceEnd;
    assert (held + bytes)[..held0 + fetched] == held;
    ReadOn(events, fetched, now, |bytes|);
    hide Unread;
  }

  lemma ReadOn(events: seq<Event>, fetched: nat, now: seq<Event>, got: nat)
    requires Unread(events, fetched, now) && got > 0
    ensures From(now, got) == From(events, fetched + got)
    ensures fetched + PieceEnd(now, 1) == PieceEnd(events, fetched + 1)
    ensures Unread(events, fetched + got, From(now, got))
  {
    hide From, PieceEnd;
    forall m: nat | m > 0
      ensures From(From(now, got), m) == From(events, fetched + got + m)
      ensures fetched + got + PieceEnd(From(now, got), m) == PieceEnd(events, fetched + got + m)
    {
      FromFrom(events, fetched + got, m);
      PieceEndFrom(events, fetched + got, m);
    }
  }

  lemma CutKeeps(events: seq<Event>, now: seq<Event>, held0: nat, held: string, fetched: nat, before: nat)
    requires Progress(events, now, held0, held, fetched, before) && |held| == READLNBUF_SIZE
    ensures Progress(events, now, held0, held[READLNBUF_SIZE - 1 := '\n'], fetched, before)
  {
    if fetched > 0 {
      assert held[READLNBUF_SIZE - 1 := '\n'][..held0 + before] == held[..held0 + before];
    }
  }

  lemma LineComplete(events: seq<Event>, now: seq<Event>, held0: nat, held: string, fetched: nat, before: nat, nl: nat)
    requires Progress(events, now, held0, held, fetched, before)
    requires nl < |held| && held[nl] == '\n' && '\n' !in held[..nl]
    ensures LineReads(events, held0, nl + 1) == fetched && now == From(events, fetched)
    ensures |held| == held0 + fetched
  {
    if fetched > 0 {
      NotBefore(held, nl, held0 + before);
      PieceEndSame(events, before + 1, nl + 1 - held0);
    }
  }

  lemma NotBefore(s: string, i: nat, n: nat)
    requires i < |s| && n <= |s| && s[i] !in s[..n]
    ensures n <= i
  {
  }

  /** The buffer was full without a newline and its last character was overwritten by one. */
  ghost predicate CutOff(content: string, held: string, stream: string) {
    && |held| == READLNBUF_SIZE <= |content| && stream == content[READLNBUF_SIZE..]
    && '\n' !in content[..READLNBUF_SIZE]
    && held == content[..READLNBUF_SIZE - 1] + ['\n']
  }

  lemma {:induction false} IndexIs(c: char, s: string, i: nat)
    requires i < |s| && s[i] == c && c !in s[..i]
    ensures IndexOf(c, s) == i
    decreases i
  {
    if i > 0 {
      assert s[0] == s[..i][0];
      assert s[1..][..i - 1] == s[..i][1..];
      IndexIs(c, s[1..], i - 1);
    }
  }

  lemma LineInBuffer(content: string, held: string, nl: nat, stream: string, cut: bool)
    requires |held| <= READLNBUF_SIZE && nl == IndexOf('\n', held)
    requires if cut then CutOff(content, held, stream) else content == held + stream
    ensures NextLine(content) == Taken(held[..nl], held[nl + 1..] + stream)
  {
    hide IndexOf;
    var first := if |content| < READLNBUF_SIZE then content else content[..READLNBUF_SIZE];
    if cut {
      var last := READLNBUF_SIZE - 1;
      assert held[..last] == content[..READLNBUF_SIZE][..last] == content[..last];
      IndexIs('\n', held, last);
      assert held[last + 1..] + stream == stream;
    } else {
      assert first[..nl] == held[..nl] && first[nl] == held[nl];
      IndexIs('\n', first, nl);
      assert content[..nl] == held[..nl] && content[nl + 1..] == held[nl + 1..] + stream;
    }
  }

  lemma Overflow(content: string, held: string, stream: string, cut: bool)
    requires |held| == READLNBUF_SIZE && '\n' !in held
    requires if cut then CutOff(content, held, stream) else content == held + stream
    ensures !cut && CutOff(content, held[READLNBUF_SIZE - 1 := '\n'], stream)
  {
    NotCut(content, held, stream, cut);
    assert content[..READLNBUF_SIZE] == held;
  }

  lemma NotCut(content: string, held: string, stream: string, cut: bool)
    requires '\n' !in held && (cut ==> CutOff(content, held, stream))
    ensures !cut
  {
    if cut {
      CutHasNewline(content, held, stream);
    }
  }

  lemma CutHasNewline(content: string, held: string, stream: string)
    requires CutOff(content, held, stream)
    ensures '\n' in held
  {
    assert held[READLNBUF_SIZE - 1] == '\n';
  }

  lemma NoLine(content: string, held: string)
    requires content == held && |held| < READLNBUF_SIZE && '\n' !in held
    ensures NextLine(content) == Short
  {
  }

  /** A stream's next line ends at its first newline if the buffer can hold that; a longer line is
      cut when the buffer is full, and loses the buffer's last character. */
  lemma NextLineCases(content: string)
    ensures forall k: nat :: k < |content| && k < READLNBUF_SIZE && content[k] == '\n' && '\n' !in content[..k] ==>
              NextLine(content) == Taken(content[..k], content[k + 1..])
    ensures |content| >= READLNBUF_SIZE && '\n' !in content[..READLNBUF_SIZE] ==>
              NextLine(content) == Taken(content[..READLNBUF_SIZE - 1], content[READLNBUF_SIZE..])
    ensures |content| < READLNBUF_SIZE && '\n' !in content ==> NextLine(content) == Short
  {
    var first := if |content| < READLNBUF_SIZE then content else content[..READLNBUF_SIZE];
    forall k: nat | k < |content| && k < READLNBUF_SIZE && content[k] == '\n' && '\n' !in content[..k]
      ensures NextLine(content) == Taken(content[..k], content[k + 1..])
    {
      assert first[..k] == content[..k];
      IndexIs('\n', first, k);
    }
  }

  /** The caller gets a line up to its first NUL, and of that as much as leaves room for a NUL. */
  lemma ReceivedIs(line: string, count: nat, k: nat)
    requires count > 0 && k <= |line| && NulFree(line[..k]) && (k < |line| ==> line[k] == NUL)
    ensures Received(line, count) == line[..Min(k, count - 1)]
  {
    if k < |line| {
      assert line[..k] + [NUL] == line[..k + 1];
      CStrIs(line, line[..k]);
    } else {
      assert line[..k] == line;
      WholeString(line);
    }
  }

  // ---- streams of lines and blocks

  /** A piece of the server's output: a line, or a block whose length the client knows. */
  datatype Frame = Text(line: string) | Block(bytes: string)

  function Bytes(frame: Frame): string {
    match frame case Text(l) => l + "\n" case Block(b) => b
  }

  function Sent(frames: seq<Frame>): string {
    if frames == [] then "" else Bytes(frames[0]) + Sent(frames[1..])
  }

  /** Lines that survive the buffers: no newline, no NUL, shorter than both. */
  predicate Fits(frames: seq<Frame>, count: nat) {
    forall i :: 0 <= i < |frames| ==> LineFits(frames[i], count)
  }

  predicate LineFits(frame: Frame, count: nat) {
    frame.Text? ==>
      '\n' !in frame.line && NulFree(frame.line) && |frame.line| < READLNBUF_SIZE && |frame.line| < count
  }

  lemma NextLineIs(line: string, more: string, count: nat)
    requires '\n' !in line && NulFree(line) && |line| < READLNBUF_SIZE && |line| < count
    ensures NextLine(line + "\n" + more) == Taken(line, more)
    ensures Received(line, count) == line
  {
    var content := line + "\n" + more;
    var first := if |content| < READLNBUF_SIZE then content else content[..READLNBUF_SIZE];
    assert first[..|line|] == line && first[|line|] == '\n';
    IndexIs('\n', first, |line|);
    assert content[..|line|] == line && content[|line| + 1..] == more;
    assert line[..|line|] == line;
    WholeString(line);
  }

  lemma {:induction false} WholeString(s: string)
    requires NulFree(s)
    ensures CStr(s) == s
  {
    if s != [] {
      assert s[0] != NUL;
      WholeString(s[1..]);
    }
  }

  function Length(frame: Frame): nat {
    |Bytes(frame)|
  }

  /** When the stream has been fetched up to `q`, one socket read fetches it up to `e`. */
  predicate OneRead(events: seq<Event>, q: nat, e: nat) {
    e <= q || FirstPiece(From(events, q)) >= e - q
  }

  /** How far the stream has been fetched behind the frame that starts at `p`. */
  function Fetched(events: seq<Event>, p: nat, q: nat, frame: Frame): nat {
    var e := p + Length(frame);
    if e <= q then q
    else if frame.Block? then e
    else Min(PieceEnd(events, e), p + READLNBUF_SIZE)
  }

  /** Every block is in the buffer or comes with one socket read. The frames start at position
      `p` of the stream, which has been fetched up to `q`. */
  predicate BlocksWhole(events: seq<Event>, frames: seq<Frame>, p: nat, q: nat) {
    frames == [] ||
    (&& (frames[0].Block? ==> OneRead(events, q, p + Length(frames[0])))
     && BlocksWhole(events, frames[1..], p + Length(frames[0]), Fetched(events, p, q, frames[0])))
  }

  /** No piece ends strictly between positions `a` and `b`, and no wait falls between them. */
  predicate Uncut(events: seq<Event>, a: nat, b: nat) {
    a >= b || events == [] ||
    match events[0]
      case Again => a > 0 && Uncut(events[1..], a, b)
      case Data(d) => if |d| <= a then Uncut(events[1..], a - |d|, b - |d|) else b <= |d|
  }

  /** The network cuts no block. */
  predicate BlocksUncut(events: seq<Event>, frames: seq<Frame>, p: nat) {
    frames == [] ||
    (&& (frames[0].Block? ==> Uncut(events, p, p + Length(frames[0])))
     && BlocksUncut(events, frames[1..], p + Length(frames[0])))
  }

  lemma {:induction false} UncutIsOneRead(events: seq<Event>, a: nat, q: nat, b: nat)
    requires Uncut(events, a, b) && a <= q && b <= |Stream(events)|
    ensures OneRead(events, q, b)
  {
    if q < b {
      match events[0]
      case Again =>
        UncutIsOneRead(events[1..], a, q, b);
      case Data(d) =>
        if |d| <= q {
          UncutIsOneRead(events[1..], if a < |d| then 0 else a - |d|, q - |d|, b - |d|);
        }
    }
  }

  /** Where the lines before a block leave off fetching does not matter as long as no block is cut. */
  lemma {:induction false} UncutBlocksWhole(events: seq<Event>, frames: seq<Frame>, p: nat, q: nat, count: nat)
    requires Fits(frames, count) && BlocksUncut(events, frames, p) && p <= q && p + |Sent(frames)| <= |Stream(events)|
    ensures BlocksWhole(events, frames, p, q)
  {
    if frames != [] {
      var e := p + Length(frames[0]);
      if frames[0].Block? {
        UncutIsOneRead(events, p, q, e);
      }
      UncutBlocksWhole(events, frames[1..], e, Fetched(events, p, q, frames[0]), count);
    }
  }

  lemma {:induction false} LinesWhole(events: seq<Event>, frames: seq<Frame>, p: nat, q: nat)
    requires forall i :: 0 <= i < |frames| ==> frames[i].Text?
    ensures BlocksWhole(events, frames, p, q)
  {
    if frames != [] {
      LinesWhole(events, frames[1..], p + Length(frames[0]), Fetched(events, p, q, frames[0]));
    }
  }

  /** The next line comes whole, however the socket cuts it. */
  method ReadText(reader: Reader, buffer: array<char>, ghost l: string, ghost more: string,
                  ghost events: seq<Event>, ghost p: nat)
    returns (line: string)
    requires reader.Valid() && reader.Content() == l + "\n" + more && buffer != reader.buf
    requires '\n' !in l && NulFree(l) && |l| < READLNBUF_SIZE && |l| < buffer.Length
    requires reader.sock.events == From(events, p + reader.len)
    modifies reader`len, reader.buf, reader.sock, buffer
    ensures line == l && reader.Valid() && reader.Content() == more
    ensures p + |l| + 1 + reader.len == Fetched(events, p, p + old(reader.len), Text(l))
    ensures reader.sock.events == From(events, p + |l| + 1 + reader.len)
  {
    hide NextLine, Received, Stream, From, PieceEnd, LineReads, Fetched;
    NextLineIs(l, more, buffer.Length);
    LineReadsFrom(events, p, p + reader.len, l);
    var n, _ := reader.Readln(buffer, buffer.Length);
    line := buffer[..n];
  }

  /** The next block comes whole if and only if it is buffered or comes with one socket read. */
  method ReadBlock(reader: Reader, count: nat, ghost b: string, ghost more: string,
                   ghost events: seq<Event>, ghost p: nat)
    returns (whole: bool, bytes: string)
    requires reader.Valid() && reader.Content() == b + more && |b| == count
    requires reader.sock.events == From(events, p + reader.len)
    modifies reader`len, reader.buf, reader.sock
    ensures reader.Valid()
    ensures whole <==> OneRead(events, p + old(reader.len), p + count)
    ensures whole ==>
              && bytes == b && reader.Content() == more
              && p + count + reader.len == Fetched(events, p, p + old(reader.len), Block(b))
              && reader.sock.events == From(events, p + count + reader.len)
  {
    hide Stream, From, FirstPiece;
    FromFrom(events, p + reader.len, if count <= reader.len then 0 else count - reader.len);
    var _, got := reader.Read(count);
    whole, bytes := |got| == count, got;
    if whole {
      SameSplit(got, reader.Content(), b, more);
    }
  }

  method ReadFrame(reader: Reader, buffer: array<char>, frame: Frame, ghost more: string,
                   ghost events: seq<Event>, ghost p: nat)
    returns (whole: bool, got: Frame)
    requires reader.Valid() && reader.Content() == Bytes(frame) + more && buffer != reader.buf
    requires LineFits(frame, buffer.Length) && reader.sock.events == From(events, p + reader.len)
    modifies reader`len, reader.buf, reader.sock, buffer
    ensures reader.Valid()
    ensures whole <==> (frame.Block? ==> OneRead(events, p + old(reader.len), p + Length(frame)))
    ensures whole ==>
              && got == frame && reader.Content() == more
              && p + Length(frame) + reader.len == Fetched(events, p, p + old(reader.len), frame)
              && reader.sock.events == From(events, p + Length(frame) + reader.len)
  {
    hide From, OneRead, Fetched, Stream;
    match frame {
      case Text(l) =>
        var line := ReadText(reader, buffer, l, more, events, p);
        whole, got := true, Text(line);
      case Block(b) =>
        var bytes;
        whole, bytes := ReadBlock(reader, |b|, b, more, events, p);
        got := Block(bytes);
    }
  }

  /** Reads a known sequence of frames from a fresh connection. All frames come back as they were
      sent if and only if every block that is not buffered comes with one socket read; up to the
      first block that does not, they come back however the socket cuts the stream. */
  method ReadFrames(events: seq<Event>, frames: seq<Frame>, count: nat, tail: string)
    returns (got: seq<Frame>, complete: bool)
    requires count > 0 && Fits(frames, count) && Stream(events) == Sent(frames) + tail
    ensures complete <==> BlocksWhole(events, frames, 0, 0)
    ensures complete ==> got == frames
    ensures !complete ==> |got| < |frames| && got == frames[..|got|] && frames[|got|].Block?
  {
    hide NextLine, Received, Stream, Sent, From, PieceEnd, FirstPiece, BlocksWhole, OneRead, Fetched, LineFits, Bytes;
    var reader := new Reader(events);
    var buffer := new char[count](_ => ' ');
    got, complete := [], true;
    FromNothing(events);
    SentFrom(frames, 0);
    assert frames[0..] == frames;
    ghost var p: nat := 0;
    for k := 0 to |frames|
      invariant fresh(reader) && fresh(reader.buf) && fresh(reader.sock) && fresh(buffer)
      invariant buffer.Length == count && buffer != reader.buf && reader.Valid()
      invariant complete && got == frames[..k]
      invariant reader.Content() == Sent(frames[k..]) + tail
      invariant reader.sock.events == From(events, p + reader.len)
      invariant BlocksWhole(events, frames, 0, 0) <==> BlocksWhole(events, frames[k..], p, p + reader.len)
    {
      SentFrom(frames, k);
      WholeStep(events, frames, k, p, p + reader.len);
      ghost var more := Sent(frames[k + 1..]) + tail;
      assert Bytes(frames[k]) + Sent(frames[k + 1..]) + tail == Bytes(frames[k]) + more;
      var whole, frame := ReadFrame(reader, buffer, frames[k], more, events, p);
      if !whole {
        return got, false;
      }
      got := got + [frame];
      p := p + Length(frames[k]);
    }
    assert frames[..|frames|] == frames && frames[|frames|..] == [];
    NothingWhole(events, p, p + reader.len);
  }

  lemma NothingWhole(events: seq<Event>, p: nat, q: nat)
    ensures BlocksWhole(events, [], p, q)
  {
  }

  lemma WholeStep(events: seq<Event>, frames: seq<Frame>, k: nat, p: nat, q: nat)
    requires k < |frames|
    ensures BlocksWhole(events, frames[k..], p, q) <==>
              && (frames[k].Block? ==> OneRead(events, q, p + Length(frames[k])))
              && BlocksWhole(events, frames[k + 1..], p + Length(frames[k]), Fetched(events, p, q, frames[k]))
  {
    assert frames[k..][1..] == frames[k + 1..];
  }

  lemma LineReadsFrom(events: seq<Event>, p: nat, q: nat, l: string)
    requires p <= q <= p + READLNBUF_SIZE && |l| < READLNBUF_SIZE
    ensures var n := LineReads(From(events, q), q - p, |l| + 1);
            && q + n == Fetched(events, p, q, Text(l))
            && From(From(events, q), n) == From(events, q + n)
  {
    FromFrom(events, q, LineReads(From(events, q), q - p, |l| + 1));
    if p + |l| + 1 > q {
      PieceEndFrom(events, q, p + |l| + 1 - q);
    }
  }

  /** A block that arrives in two pieces is reported as complete when half of it is there. */
  method ShortBlock() returns (result: int, got: string)
    ensures result == 4 && got == "ab"
  {
    var events := [Data("ab"), Data("cd")];
    var reader := new Reader(events);
    assert FirstPiece(events) == 2;
    result, got := reader.Read(4);
    assert events[1..] == [Data("cd")] && [Data("cd")][1..] == [];
    SameSplit(got, reader.Content(), "ab", Stream([Data("cd")]));
  }

  lemma SentFrom(frames: seq<Frame>, k: nat)
    requires k <= |frames|
    ensures k < |frames| ==>
              Sent(frames[k..]) == Bytes(frames[k]) + Sent(frames[k + 1..])
    ensures k == |frames| ==> Sent(frames[k..]) == ""
  {
  }

  lemma SameSplit(a: string, x: string, b: string, y: string)
    requires |a| == |b| && a + x == b + y
    ensures a == b && x == y
  {
    assert (a + x)[..|a|] == a && (b + y)[..|a|] == b;
    assert (a + x)[|a|..] == x && (b + y)[|a|..] == y;
  }
}
