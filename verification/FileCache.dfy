/** The per-inode read/write buffer and the remote file behind it. */
module FileCache {
  import opened ByteFile
  import opened Divisors
  import opened Window

  /** A file on the remote side. Call number `k` fails exactly when `fails(k)`; a failed
      read delivers nothing and a failed write changes nothing. */
  class RemoteFile {
    const fails: nat -> bool
    var bytes: seq<byte>
    var log: seq<Call>

    constructor (content: seq<byte>, fails: nat -> bool)
      ensures bytes == content && log == [] && this.fails == fails
    {
      this.fails := fails;
      bytes, log := content, [];
    }

    method Read(off: nat, len: nat, buf: array<byte>, at: nat) returns (result: int)
      requires at + len <= buf.Length
      modifies this`log, buf
      ensures log == old(log) + [Fetched(off, len)]
      ensures result == if fails(|old(log)|) then -1 else len
      ensures result < 0 ==> buf[..] == old(buf[..])
      ensures result >= 0 ==> buf[..] == Splice(old(buf[..]), at, Slice(bytes, off, len))
    {
      result := if fails(|log|) then -1 else len;
      log := log + [Fetched(off, len)];
      if result >= 0 {
        Put(buf, at, Slice(bytes, off, len));
      }
    }

    method Write(off: nat, d: seq<byte>) returns (result: int)
      modifies this
      ensures log == old(log) + [Stored(off, |d|)]
      ensures result == if fails(|old(log)|) then -1 else |d|
      ensures bytes == if result < 0 then old(bytes) else Overlay(old(bytes), off, d)
    {
      result := if fails(|log|) then -1 else |d|;
      log := log + [Stored(off, |d|)];
      if result >= 0 {
        bytes := Overlay(bytes, off, d);
      }
    }
  }

  /** Copies `s` into `dst` at `at`. */
  method Put(dst: array<byte>, at: nat, s: seq<byte>)
    requires at + |s| <= dst.Length
    modifies dst
    ensures dst[..] == Splice(old(dst[..]), at, s)
  {
    forall k | 0 <= k < |s| {
      dst[at + k] := s[k];
    }
  }

  /** `b` with the bytes from `at` on replaced by `s`. */
  function Splice(b: seq<byte>, at: nat, s: seq<byte>): (r: seq<byte>)
    requires at + |s| <= |b|
    ensures |r| == |b|
  {
    b[..at] + s + b[at + |s|..]
  }

  lemma SpliceMore(b: seq<byte>, at: nat, s: seq<byte>, t: seq<byte>)
    requires at + |s| + |t| <= |b|
    ensures Splice(Splice(b, at, s), at + |s|, t) == Splice(b, at, s + t)
  {
  }

  lemma SpliceFront(b: seq<byte>, at: nat, s: seq<byte>, k: nat)
    requires k <= at && at + |s| <= |b|
    ensures Splice(b, at, s)[..k] == b[..k]
  {
  }

  /** Every call behind those of `before` is a read. */
  predicate OnlyFetches(before: seq<Call>, after: seq<Call>) {
    before <= after && forall k :: |before| <= k < |after| ==> after[k].Fetched?
  }

  lemma SpliceWhole(b: seq<byte>, s: seq<byte>)
    requires |b| == |s|
    ensures Splice(b, 0, s) == s
  {
  }

  lemma SpliceHead(b: seq<byte>, s: seq<byte>)
    requires |s| <= |b|
    ensures Splice(b, 0, s)[..|s|] == s
  {
  }

  lemma SpliceNone(b: seq<byte>, at: nat, f: seq<byte>, from: nat)
    requires at <= |b|
    ensures Splice(b, at, Slice(f, from, 0)) == b
  {
  }

  /** What a read delivers: the window's bytes, which sit `Skew` bytes early in a clean
      window, then the file's own bytes. `before` is the file the window stood for. */
  function Delivered(before: seq<byte>, after: seq<byte>, w: Win, from: nat, total: nat): (r: seq<byte>)
    ensures |r| == total
  {
    var hit := w.Hit(from, total);
    Slice(before, if hit == 0 then from else from - w.Skew(), hit) + Slice(after, from + hit, total - hit)
  }

  /** Copying into the buffer patches what the window holds. */
  lemma PatchSplice(b: seq<byte>, cnt: nat, at: nat, p: seq<byte>)
    requires at <= cnt <= |b| && at + |p| <= |b|
    ensures Splice(b, at, p)[..Max(cnt, at + |p|)] == Patch(b[..cnt], at, p)
  {
  }

  lemma PatchAll(s: seq<byte>)
    ensures Patch([], 0, s) == s
  {
  }

  lemma OverlayNone(f: seq<byte>, off: nat, g: seq<byte>, at: nat)
    ensures Overlay(f, off, []) == f && Overlay(g, at, []) == g
  {
  }

  /** The window holds exactly the bytes a hit is meant to see, up to the skew. */
  lemma HitServes(bytes: seq<byte>, w: Win, held: seq<byte>, from: nat, total: nat)
    requires |held| == w.cnt && w.off <= from < w.off + w.cnt
    requires !w.dirty ==> held == Slice(bytes, PageFloor(w.off), w.cnt)
    ensures var o, hit := from - w.off, w.Hit(from, total);
            var f := if w.dirty then Overlay(bytes, w.off, held) else bytes;
            && held[o..o + hit] == Slice(f, from - w.Skew(), hit)
            && (total == 0 ==> Slice(f, from, 0) == [])
  {
    hide Divides, PageFloor, Overlay, Slice;
    var o, hit := from - w.off, w.Hit(from, total);
    if w.dirty {
      SliceOverlay(bytes, w.off, held, o, o + hit);
    } else {
      SliceSlice(bytes, PageFloor(w.off), w.cnt, o, o + hit);
    }
  }

  lemma DeliveredParts(before: seq<byte>, after: seq<byte>, w: Win, from: nat, total: nat)
    ensures var hit := w.Hit(from, total);
            var s1 := Slice(before, if hit == 0 then from else from - w.Skew(), hit);
            && Delivered(before, after, w, from, total) == s1 + Slice(after, from + hit, total - hit)
            && (hit == total ==> Delivered(before, after, w, from, total) == s1)
  {
  }

  /** Shrinks a read length until it divides the offset it starts at. */
  method ReduceToDivisor(o: nat, readahead: nat) returns (len: nat)
    requires readahead > 0
    ensures len == Euclid(o, readahead)
  {
    len := readahead;
    if o % readahead != 0 {
      var y, z := o, readahead;
      while y > 0 && z > 0
        invariant Euclid(y, z) == Euclid(o, readahead)
        decreases y + z
      {
        if y > z { y := Rem(y, z); } else { z := Rem(z, y); }
      }
      len := if y > z then y else z;
    } else {
      EuclidOfMultiple(o, readahead);
    }
  }

  /** The bytes a round copies out are the file's bytes at the requested position. */
  lemma FetchServes(bytes: seq<byte>, w: Win, pos: nat, n: nat, size: nat)
    requires Sized(size) && n > 0 && w.Fits(size) && !w.dirty
    ensures var f := PlanFetch(w, pos, n, size);
            var (w', c) := AfterFetch(w, pos, n, size);
            var x := pos - PageFloor(pos);
            && f.at == PageFloor(pos) && f.base.cnt + f.len <= size && x < f.len
            && w' == Win(false, f.base.off, f.base.cnt + f.len)
            && c == Min(f.len - x, n)
            && Slice(bytes, PageFloor(f.base.off), w'.cnt)[f.base.cnt + x..f.base.cnt + x + c] == Slice(bytes, pos, c)
  {
    FetchAligned(w, pos, n, size);
    FetchContinues(w, pos, n, size);
    hide PlanFetch, PageFloor, Divides;
    var f := PlanFetch(w, pos, n, size);
    var x := pos - PageFloor(pos);
    var c := Min(f.len - x, n);
    SliceSlice(bytes, PageFloor(f.base.off), f.base.cnt + f.len, f.base.cnt + x, f.base.cnt + x + c);
  }

  class ShfsFile {
    var dirty: bool    // the write type
    var isNew: bool
    var offset: nat
    var count: nat
    const data: array<byte>

    /** The window holds all of the `total` bytes at `from`. */
    predicate Inside(from: nat, total: nat)
      reads this
    {
      offset <= from < offset + count && from + total <= offset + count
    }

    ghost predicate Valid(r: RemoteFile)
      reads this, data, r
    {
      && Sized(data.Length)
      && Window().Fits(data.Length)
      && (!dirty ==> data[..count] == Slice(r.bytes, PageFloor(offset), count))
    }

    function Window(): Win
      reads this
    {
      Win(dirty, offset, count)
    }

    /** The file as the user sees it: the remote bytes overlaid by the dirty window. */
    ghost function Logical(r: RemoteFile): seq<byte>
      requires count <= data.Length
      reads this, data, r
    {
      if dirty then Overlay(r.bytes, offset, data[..count]) else r.bytes
    }

    constructor (size: nat)
      requires Sized(size)
      ensures fresh(data) && data.Length == size
      ensures Window() == Win(false, 0, 0) && isNew
      ensures forall r: RemoteFile :: Valid(r) && Logical(r) == r.bytes
    {
      data := new byte[size](_ => 0);
      dirty, isNew, offset, count := false, true, 0, 0;
    }

    /** Stores the dirty window; it is gone afterwards even when the remote write failed. */
    method Sync(r: RemoteFile) returns (result: int)
      requires Valid(r)
      modifies this`dirty, this`count, r
      ensures Valid(r)
      ensures var w := old(Window());
              if w.cnt > 0 && w.dirty then
                && Window() == Win(false, w.off, 0)
                && r.log == old(r.log) + [Stored(w.off, w.cnt)]
                && result == (if r.fails(|old(r.log)|) then -1 else 0)
              else
                Window() == w && r.log == old(r.log) && result == 0
      ensures r.bytes == if result < 0 then old(r.bytes) else old(Logical(r))
      ensures Logical(r) == r.bytes
    {
      result := 0;
      if count > 0 && dirty {
        result := r.Write(offset, data[..count]);
        dirty := false;
        count := 0;
      }
      result := if result < 0 then result else 0;
    }

    /** Drops a clean window, keeps a dirty one. */
    method Clear(ghost r: RemoteFile)
      requires Valid(r)
      modifies this`count
      ensures Valid(r) && Logical(r) == old(Logical(r))
      ensures Window() == if old(dirty) then old(Window()) else old(Window()).(cnt := 0)
    {
      if count > 0 {
        if !dirty {
          count := 0;
        }
      }
    }

    /** First half of a read round: keeps or moves the window and chooses the read length. */
    method Prepare(pos: nat, n: nat) returns (readahead: nat)
      requires Sized(data.Length) && Window().Fits(data.Length) && !dirty && n > 0
      modifies this`offset, this`count
      ensures var f := PlanFetch(old(Window()), pos, n, data.Length);
              readahead == f.len && Window() == f.base
    {
      hide PageFloor, PageCeil, Divides;
      var o := PageFloor(pos);
      var x := pos - o;
      readahead := 0;
      if offset + count == pos {
        readahead := count;
      } else {
        offset, count := o, 0;
      }
      if readahead < x + n {
        readahead := x + n;
      }
      readahead := PageCeil(readahead);
      if readahead > data.Length {
        readahead := data.Length;
      }
      readahead := ReduceToDivisor(o, readahead);
      if count + readahead > data.Length {
        offset, count := o, 0;
      }
    }

    /** The remote read of one round, appended behind what the window keeps. */
    method FetchBehind(r: RemoteFile, pos: nat, n: nat) returns (result: int)
      requires Valid(r) && !dirty && n > 0
      modifies this`offset, this`count, data, r`log
      ensures var f := PlanFetch(old(Window()), pos, n, data.Length);
              && r.log == old(r.log) + [Fetched(f.at, f.len)]
              && Window() == f.base && f.base.cnt + f.len <= data.Length
              && result == (if r.fails(|old(r.log)|) then -1 else f.len)
              && (result >= 0 ==> data[..f.base.cnt + f.len]
                                  == Slice(r.bytes, PageFloor(f.base.off), f.base.cnt + f.len))
    {
      FetchAligned(Window(), pos, n, data.Length);
      FetchContinues(Window(), pos, n, data.Length);
      hide PlanFetch, PageFloor, Divides;
      ghost var f := PlanFetch(Window(), pos, n, data.Length);
      assert data[..f.base.cnt] == Slice(r.bytes, PageFloor(f.base.off), f.base.cnt);
      var readahead := Prepare(pos, n);
      result := r.Read(PageFloor(pos), readahead, data, count);
      if result >= 0 {
        SliceJoin(r.bytes, PageFloor(f.base.off), f.base.cnt, f.len);
        assert data[..f.base.cnt + f.len]
            == Slice(r.bytes, PageFloor(f.base.off), f.base.cnt) + Slice(r.bytes, f.at, f.len);
      }
    }

    /** One round of the read loop: a remote read into the window, and the bytes that are
        then copied out of it. */
    method Round(r: RemoteFile, pos: nat, n: nat) returns (result: int, served: seq<byte>)
      requires Valid(r) && !dirty && n > 0
      modifies this`offset, this`count, data, r`log
      ensures Valid(r)
      ensures var f := PlanFetch(old(Window()), pos, n, data.Length);
              r.log == old(r.log) + [Fetched(f.at, f.len)]
      ensures result < 0 <==> r.fails(|old(r.log)|)
      ensures result < 0 ==> count == 0
      ensures Divides(PAGE, old(offset)) ==> Divides(PAGE, offset)
      ensures result >= 0 ==> (Window(), |served|) == AfterFetch(old(Window()), pos, n, data.Length)
                              && served == Slice(r.bytes, pos, |served|)
    {
      FetchServes(r.bytes, Window(), pos, n, data.Length);
      FetchContinues(Window(), pos, n, data.Length);
      DividesEnds(PAGE);
      hide PlanFetch, AfterFetch, PageFloor, Divides;
      var x := pos - PageFloor(pos);
      served := [];
      result := FetchBehind(r, pos, n);
      if result < 0 {
        count := 0;
      } else {
        var c := result - x;
        if c > n {
          c := n;
        }
        served := data[..count + result][count + x..count + x + c];
        count := count + result;
      }
    }

    /** A round with its copy into the caller's buffer. */
    method RoundInto(r: RemoteFile, pos: nat, n: nat, buffer: array<byte>, at: nat) returns (c: int)
      requires Valid(r) && !dirty && n > 0 && buffer != data && at + n <= buffer.Length
      modifies this`offset, this`count, data, buffer, r`log
      ensures Valid(r)
      ensures var f := PlanFetch(old(Window()), pos, n, data.Length);
              r.log == old(r.log) + [Fetched(f.at, f.len)]
      ensures Divides(PAGE, old(offset)) ==> Divides(PAGE, offset)
      ensures c < 0 ==> count == 0 && r.fails(|old(r.log)|) && buffer[..] == old(buffer[..])
      ensures c >= 0 ==> (Window(), c) == AfterFetch(old(Window()), pos, n, data.Length)
                         && buffer[..] == Splice(old(buffer[..]), at, Slice(r.bytes, pos, c))
    {
      hide PlanFetch, AfterFetch, PageFloor, Divides, Splice, Slice;
      var result, served := Round(r, pos, n);
      if result < 0 {
        return result;
      }
      c := |served|;
      Put(buffer, at, served);
    }

    /** The read loop: every byte it delivers is the remote byte at its position. */
    method ReadMisses(r: RemoteFile, from: nat, total: nat, buffer: array<byte>, at: nat) returns (result: int)
      requires Valid(r) && !dirty && buffer != data && at + total <= buffer.Length
      modifies this`offset, this`count, data, buffer, r`log
      ensures Valid(r)
      ensures result >= 0 ==>
                && result == total
                && buffer[..] == Splice(old(buffer[..]), at, Slice(r.bytes, from, total))
                && (Window(), r.log) == (ReadLoop(old(Window()), from, total, data.Length).0,
                                         old(r.log) + ReadLoop(old(Window()), from, total, data.Length).1)
      ensures result < 0 ==> count == 0 && |r.log| > |old(r.log)| && r.fails(|r.log| - 1)
      ensures Divides(PAGE, old(offset)) ==> Divides(PAGE, offset)
      ensures buffer[..at] == old(buffer[..at]) && OnlyFetches(old(r.log), r.log)
    {
      hide PlanFetch, AfterFetch, PageFloor, Divides, Splice, Slice, ReadLoop, OnPlan;
      SpliceNone(buffer[..], at, r.bytes, from);
      ghost var plan := ReadLoop(Window(), from, total, data.Length);
      ghost var done: seq<Call> := [];
      OnPlanEnds(plan, [], Window(), from, total, data.Length);
      var pos: nat, n: nat, read: nat := from, total, 0;
      while n > 0
        invariant pos == from + read && read + n == total
        invariant Valid(r) && r.log == old(r.log) + done
        invariant buffer[..] == Splice(old(buffer[..]), at, Slice(r.bytes, from, read))
        invariant Divides(PAGE, old(offset)) ==> Divides(PAGE, offset)
        invariant buffer[..][..at] == old(buffer[..at]) && OnlyFetches(old(r.log), r.log)
        invariant OnPlan(plan, done, Window(), pos, n, data.Length)
      {
        OnPlanStep(plan, done, Window(), pos, n, data.Length);
        ghost var f, b := PlanFetch(Window(), pos, n, data.Length), buffer[..];
        var c := RoundInto(r, pos, n, buffer, at + read);
        if c < 0 {
          return c;
        }
        SliceJoin(r.bytes, from, read, c);
        SpliceMore(old(buffer[..]), at, Slice(r.bytes, from, read), Slice(r.bytes, pos, c));
        SpliceFront(b, at + read, Slice(r.bytes, pos, c), at);
        done := done + [Fetched(f.at, f.len)];
        pos, n, read := pos + c, n - c, read + c;
      }
      OnPlanEnds(plan, done, Window(), pos, n, data.Length);
      result := read;
    }

    /** The part of a read that the window serves. */
    method ReadHit(r: RemoteFile, from: nat, total: nat, buffer: array<byte>) returns (read: nat)
      requires Valid(r) && buffer != data && total <= buffer.Length
      modifies buffer
      ensures Valid(r) && Logical(r) == old(Logical(r))
      ensures read == Window().Hit(from, total)
      ensures read == if offset <= from < offset + count then Min(total, offset + count - from) else 0
      ensures read > 0 ==> buffer[..read] == data[from - offset..from - offset + read]
      ensures buffer[..] == Splice(old(buffer[..]), 0,
                                   Slice(old(Logical(r)), if read == 0 then from else from - Window().Skew(), read))
    {
      hide Divides, Splice, PageFloor, Overlay, Slice;
      ghost var held := data[..count];
      read := 0;
      SpliceNone(buffer[..], 0, Logical(r), from);
      if offset <= from < offset + count {
        var o := from - offset;
        var c := if total > count - o then count - o else total;
        HitServes(r.bytes, Window(), held, from, total);
        Put(buffer, 0, data[..count][o..o + c]);
        SpliceHead(old(buffer[..]), data[..count][o..o + c]);
        assert data[..count][o..o + c] == data[o..o + c];
        read := c;
      }
      assert data[..count] == held;
    }

    /** What the window does not serve: the flush of a dirty window, then the read loop. */
    method ReadBehind(r: RemoteFile, pos: nat, n: nat, buffer: array<byte>, at: nat) returns (result: int)
      requires Valid(r) && buffer != data && at + n <= buffer.Length && n > 0
      modifies this`dirty, this`offset, this`count, data, buffer, r
      ensures Valid(r) && !dirty
      ensures r.bytes == if old(dirty) && !r.fails(|old(r.log)|) then old(Logical(r)) else old(r.bytes)
      ensures var w := old(Window());
              var start := if w.dirty then Win(false, pos, 0) else w;
              && Sized(data.Length) && start.Fits(data.Length)
              && (result >= 0 ==>
                    && result == n
                    && buffer[..] == Splice(old(buffer[..]), at, Slice(r.bytes, pos, n))
                    && Window() == ReadLoop(start, pos, n, data.Length).0
                    && var calls := ReadLoop(start, pos, n, data.Length).1;
                       r.log == old(r.log) + if w.dirty then [Stored(w.off, w.cnt)] + calls else calls)
      ensures old(!dirty && Divides(PAGE, offset)) ==> Divides(PAGE, offset)
      ensures result < 0 ==> count == 0 && |r.log| > |old(r.log)| && r.fails(|r.log| - 1)
      ensures buffer[..at] == old(buffer[..at])
      ensures OnlyFetches(old(r.log) + if old(dirty) then [Stored(old(offset), old(count))] else [], r.log)
    {
      hide Splice, Slice, PageFloor, Divides, ReadLoop, Overlay;
      DividesEnds(PAGE);
      ghost var calls: seq<Call> := [];
      if dirty {
        calls := [Stored(offset, count)];
        var _ := r.Write(offset, data[..count]);
        dirty, offset, count := false, pos, 0;
      }
      ghost var rest := ReadLoop(Window(), pos, n, data.Length).1;
      assert old(r.log) + calls + rest == old(r.log) + (calls + rest);
      result := ReadMisses(r, pos, n, buffer, at);
    }

    /** Reads `total` bytes at `from`: the hit, the flush of a dirty window (whose result is
        ignored), and the read loop. */
    method Read(r: RemoteFile, from: nat, total: nat, buffer: array<byte>) returns (result: int)
      requires Valid(r) && buffer != data && total <= buffer.Length
      modifies this`dirty, this`offset, this`count, data, buffer, r
      ensures Valid(r)
      ensures var w := old(Window());
              var flush := w.dirty && w.Hit(from, total) < total;
              var lost := flush && r.fails(|old(r.log)|);
              && r.bytes == (if flush && !lost then old(Logical(r)) else old(r.bytes))
              && Logical(r) == (if lost then old(r.bytes) else old(Logical(r)))
              && (result >= 0 ==>
                    && result == total
                    && buffer[..] == Splice(old(buffer[..]), 0, Delivered(old(Logical(r)), Logical(r), w, from, total))
                    && (Window(), r.log) == (ReadPlan(w, from, total, data.Length).0,
                                             old(r.log) + ReadPlan(w, from, total, data.Length).1))
              && (!w.dirty && Divides(PAGE, w.off) ==> Divides(PAGE, offset))
      ensures result < 0 ==> !dirty && count == 0 && |r.log| > |old(r.log)| && r.fails(|r.log| - 1)
      ensures old(Inside(from, total)) ==>
                && result == total && r.log == old(r.log) && r.bytes == old(r.bytes)
                && Window() == old(Window()) && Logical(r) == old(Logical(r))
                && buffer[..total] == old(data[from - offset..from - offset + total])
      ensures old(offset <= from < offset + count < from + total) ==>
                buffer[..old(offset + count) - from] == old(data[from - offset..count])
      ensures !old(Inside(from, total)) && total > 0 ==>
                OnlyFetches(old(r.log) + if old(dirty) then [Stored(old(offset), old(count))] else [], r.log)
    {
      hide Splice, Slice, PageFloor, Divides, ReadLoop, Overlay, Delivered;
      ghost var w, before, b0 := Window(), Logical(r), buffer[..];
      var read := ReadHit(r, from, total, buffer);
      ghost var s1 := Slice(before, if read == 0 then from else from - w.Skew(), read);
      if read == total {
        DeliveredParts(before, before, w, from, total);
        assert r.log + [] == r.log;
        return read;
      }
      result := ReadBehind(r, from + read, total - read, buffer, read);
      DeliveredParts(before, r.bytes, w, from, total);
      SpliceMore(b0, 0, s1, Slice(r.bytes, from + read, total - read));
      if result >= 0 {
        result := read + result;
      }
    }

    /** Copies `s` into the dirty window at or before its end; the window grows to hold it. */
    method CopyIn(r: RemoteFile, from: nat, s: seq<byte>)
      requires Valid(r) && dirty && offset <= from <= offset + count
      requires from - offset + |s| <= data.Length
      modifies this`count, data
      ensures Valid(r)
      ensures Window() == Win(true, old(offset), Max(old(count), from - old(offset) + |s|))
      ensures Logical(r) == Overlay(old(Logical(r)), from, s)
    {
      hide Divides, PageFloor, Overlay, Slice, Patch, Splice;
      var o := from - offset;
      PatchSplice(data[..], count, o, s);
      OverlayPatch(r.bytes, offset, data[..count], o, s);
      assert data[..][..count] == data[..count];
      Put(data, o, s);
      if o + |s| > count {
        count := o + |s|;
      }
      assert data[..][..count] == data[..count];
    }

    /** The part of a write that the window takes: over its bytes and behind its end. */
    method TakeIn(r: RemoteFile, from: nat, src: seq<byte>) returns (wrote: nat)
      requires Valid(r)
      modifies this`dirty, this`offset, this`count, data
      ensures Valid(r)
      ensures (Window(), wrote) == Absorb(old(Window()), from, |src|, data.Length)
      ensures Logical(r) == Overlay(old(Logical(r)), from, src[..wrote])
    {
      hide Divides, PageFloor, Overlay, Slice;
      ghost var logical := Logical(r);
      OverlayNone(r.bytes, from, logical, from);
      if !dirty {
        offset, count, dirty := from, 0, true;
      }
      wrote := 0;
      assert src[..0] == [];
      if offset <= from < offset + count {
        var o := from - offset;
        wrote := if |src| > data.Length - o then data.Length - o else |src|;
        CopyIn(r, from, src[..wrote]);
      }
      if |src| - wrote > 0 && from + wrote == offset + count {
        var c := if |src| - wrote > data.Length - count then data.Length - count else |src| - wrote;
        OverlaySplit(logical, from, src[..wrote + c], wrote);
        assert src[..wrote + c][..wrote] == src[..wrote] && src[..wrote + c][wrote..] == src[wrote..wrote + c];
        CopyIn(r, from + wrote, src[wrote..wrote + c]);
        wrote := wrote + c;
      }
    }

    /** One round of the flush loop: stores the window and, if that worked, starts the next
        window with `s`. */
    method FlushRound(r: RemoteFile, pos: nat, s: seq<byte>) returns (result: int)
      requires Valid(r) && dirty && |s| <= data.Length
      modifies this`offset, this`count, data, r
      ensures Valid(r) && r.log == old(r.log) + [Stored(old(offset), old(count))]
      ensures result == if r.fails(|old(r.log)|) then -1 else old(count)
      ensures result < 0 ==> Window() == old(Window()) && Logical(r) == old(Logical(r))
      ensures result >= 0 ==> Window() == Win(true, pos, |s|) && Logical(r) == Overlay(old(Logical(r)), pos, s)
    {
      hide Divides, PageFloor, Overlay, Slice, Splice;
      result := r.Write(offset, data[..count]);
      if result >= 0 {
        PatchSplice(data[..], 0, 0, s);
        PatchAll(s);
        assert data[..][..0] == [];
        Put(data, 0, s);
        offset, count := pos, |s|;
        assert data[..][..|s|] == data[..|s|];
      }
    }

    /** The flush loop of a write; a failed flush ends it with the window untouched. */
    method FlushLoop(r: RemoteFile, from: nat, src: seq<byte>) returns (result: int, wrote: nat)
      requires Valid(r) && dirty
      modifies this`offset, this`count, data, r
      ensures Valid(r) && dirty && wrote <= |src| && old(r.log) <= r.log
      ensures Logical(r) == Overlay(old(Logical(r)), from, src[..wrote])
      ensures wrote == |src| ==>
                && result >= 0
                && (Window(), r.log) == (WriteLoop(old(Window()), from, |src|, data.Length).0,
                                         old(r.log) + WriteLoop(old(Window()), from, |src|, data.Length).1)
      ensures wrote < |src| <==> result < 0
      ensures result >= -1
      ensures result < 0 <==> |r.log| > |old(r.log)| && r.fails(|r.log| - 1)
      ensures if wrote > 0 then count > 0 else Window() == old(Window())
    {
      hide Divides, PageFloor, Overlay, Slice, Splice, WriteLoop, OnWritePlan;
      ghost var logical := Logical(r);
      ghost var plan := WriteLoop(Window(), from, |src|, data.Length);
      ghost var done: seq<Call> := [];
      OnWritePlanEnds(plan, done, Window(), from, |src|, data.Length);
      OverlayNone(r.bytes, from, logical, from);
      var pos: nat, n: nat := from, |src|;
      result, wrote := 0, 0;
      assert src[..0] == [];
      while n > 0
        invariant pos == from + wrote && wrote + n == |src| && result >= 0
        invariant Valid(r) && dirty && r.log == old(r.log) + done
        invariant Logical(r) == Overlay(logical, from, src[..wrote])
        invariant OnWritePlan(plan, done, Window(), pos, n, data.Length)
        invariant if wrote > 0 then count > 0 else Window() == old(Window())
        invariant |r.log| > |old(r.log)| ==> !r.fails(|r.log| - 1)
      {
        var c := if n > data.Length then data.Length else n;
        OnWritePlanStep(plan, done, Window(), pos, n, data.Length);
        OverlaySplit(logical, from, src[..wrote + c], wrote);
        assert src[..wrote + c][..wrote] == src[..wrote] && src[..wrote + c][wrote..] == src[wrote..wrote + c];
        done := done + [Stored(offset, count)];
        result := FlushRound(r, pos, src[wrote..wrote + c]);
        if result < 0 {
          return;
        }
        pos, n, wrote := pos + c, n - c, wrote + c;
      }
      OnWritePlanEnds(plan, done, Window(), pos, n, data.Length);
    }

    /** The early write of the window's first byte, made once per cache. */
    method Probe(r: RemoteFile) returns (result: int)
      requires Valid(r) && dirty && count > 0
      modifies r
      ensures Valid(r) && r.log == old(r.log) + [Stored(offset, 1)]
      ensures result == if r.fails(|old(r.log)|) then -1 else 1
      ensures Logical(r) == old(Logical(r))
    {
      hide Divides, PageFloor, Overlay, Slice;
      OverlayHead(r.bytes, offset, data[..count], 1);
      assert data[..count][..1] == data[..1];
      result := r.Write(offset, data[..1]);
    }

    /** The steps of a write: what the window takes, the flush loop, the probe. */
    method WriteSteps(r: RemoteFile, from: nat, src: seq<byte>) returns (result: int, wrote: nat)
      requires Valid(r)
      modifies this, data, r
      ensures Valid(r) && dirty && wrote <= |src| && old(r.log) <= r.log
      ensures Logical(r) == Overlay(old(Logical(r)), from, src[..wrote])
      ensures wrote == |src| ==>
                (Window(), r.log) == (WritePlan(old(Window()), old(isNew), from, |src|, data.Length).0,
                                      old(r.log) + WritePlan(old(Window()), old(isNew), from, |src|, data.Length).1)
      ensures wrote < |src| ==> exists k :: |old(r.log)| <= k < |r.log| && r.fails(k)
      ensures result == if |r.log| > |old(r.log)| && r.fails(|r.log| - 1) then -1 else wrote
      ensures isNew == (old(isNew) && wrote == 0)
      ensures wrote >= Absorb(old(Window()), from, |src|, data.Length).1
    {
      hide Divides, PageFloor, Overlay, Slice, Splice, WriteLoop, Absorb;
      ghost var logical, w := Logical(r), Window();
      var taken := TakeIn(r, from, src);
      var more;
      ghost var calls := WriteLoop(Window(), from + taken, |src| - taken, data.Length).1;
      result, more := FlushLoop(r, from + taken, src[taken..]);
      wrote := taken + more;
      OverlaySplit(logical, from, src[..wrote], taken);
      assert src[..wrote][..taken] == src[..taken] && src[..wrote][taken..] == src[taken..][..more];
      assert calls + [] == calls;
      assert old(r.log) + (calls + [Stored(offset, 1)]) == old(r.log) + calls + [Stored(offset, 1)];
      if isNew && wrote > 0 {
        result := Probe(r);
        isNew := false;
      }
      result := if result >= 0 then wrote else result;
    }

    /** Writes `src` at `from`. `wrote` bytes are accepted whatever fails; the result is that
        number unless the last remote call failed. */
    method Write(r: RemoteFile, from: nat, src: seq<byte>) returns (result: int, wrote: nat)
      requires Valid(r)
      modifies this, data, r
      ensures Valid(r) && dirty && wrote <= |src| && old(r.log) <= r.log
      ensures Logical(r) == Overlay(old(Logical(r)), from, src[..wrote])
      ensures wrote == |src| ==>
                (Window(), r.log) == (WritePlan(old(Window()), old(isNew), from, |src|, data.Length).0,
                                      old(r.log) + WritePlan(old(Window()), old(isNew), from, |src|, data.Length).1)
      ensures wrote < |src| ==> exists k :: |old(r.log)| <= k < |r.log| && r.fails(k)
      ensures result == if |r.log| > |old(r.log)| && r.fails(|r.log| - 1) then -1 else wrote
      ensures isNew == (old(isNew) && wrote == 0)
      ensures WriteFits(old(Window()), from, |src|, data.Length) ==>
                var (off, cnt) := WriteStart(old(Window()), from);
                && wrote == |src| && Window() == Win(true, off, Max(cnt, from - off + |src|))
                && r.log == old(r.log) + if old(isNew) && src != [] then [Stored(off, 1)] else []
    {
      if WriteFits(Window(), from, |src|, data.Length) {
        WriteInside(Window(), isNew, from, |src|, data.Length);
      }
      hide Valid, Logical, Overlay, Absorb, WritePlan;
      result, wrote := WriteSteps(r, from, src);
    }
  }
}
