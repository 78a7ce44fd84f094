/** The server's loops behind a remote read and write, the client's block arithmetic, and the
    size of a cache buffer. */
module Server {
  import opened ByteFile
  import opened Divisors
  import opened Window
  import opened SequentialAccess

  /** System calls are numbered in the order they are made; number `k` fails exactly when
      `fails(k)`. */
  ghost predicate NoneFailed(fails: nat -> bool, calls: nat) {
    forall k: nat :: k < calls ==> !fails(k)
  }

  /** One sysread or syswrite of at most `most` characters of which `have` are there: any number of
      them, but none only if there are none to transfer. */
  method Transfer(most: nat, have: nat, failed: bool) returns (k: int)
    ensures if failed then k == -1 else 0 <= k <= Min(most, have) && (k == 0 <==> most == 0 || have == 0)
  {
    if failed {
      return -1;
    }
    k :| 0 <= k <= Min(most, have) && (k == 0 <==> most == 0 || have == 0);
  }

  /** s_read: reads until nothing more comes, then pads with zeros. However short the single reads
      are, the client gets the bytes a zero-extended file has, unless a call fails. */
  method ServeRead(file: seq<byte>, off: nat, size: nat, fails: nat -> bool)
    returns (ok: bool, out: seq<byte>, calls: nat)
    ensures 0 < calls <= size + 1
    ensures ok <==> NoneFailed(fails, calls)
    ensures !ok ==> fails(calls - 1) && NoneFailed(fails, calls - 1)
    ensures ok ==> out == Slice(file, off, size)
  {
    var data: seq<byte> := [];
    calls := 1;
    var s: nat := size;
    var left: nat := if off < |file| then |file| - off else 0;
    var result := Transfer(s, left, fails(0));
    while result > 0
      invariant result == -1 || 0 <= result <= s
      invariant |data| + s == size && left == (if off + |data| < |file| then |file| - off - |data| else 0)
      invariant result >= 0 ==> result <= left && (result == 0 <==> s == 0 || left == 0)
      invariant data == Slice(file, off, |data|)
      invariant 0 < calls <= |data| + 1 && NoneFailed(fails, calls - 1) && (result < 0 <==> fails(calls - 1))
      decreases s, result
    {
      NextBytes(file, off, |data|, result);
      data := data + file[off + |data|..off + |data| + result];
      s, left := s - result, left - result;
      result := Transfer(s, left, fails(calls));
      calls := calls + 1;
    }
    ok, out := result >= 0, [];
    if ok {
      ZeroTail(file, off, |data|, s);
      out := data + Zeros(s);
    }
  }

  lemma NextBytes(file: seq<byte>, off: nat, have: nat, k: nat)
    requires off + have + k <= |file|
    ensures Slice(file, off, have) + file[off + have..off + have + k] == Slice(file, off, have + k)
  {
    var a, b := Slice(file, off, have) + file[off + have..off + have + k], Slice(file, off, have + k);
    forall i | 0 <= i < have + k ensures a[i] == b[i] {
      assert b[i] == At(file, off + i);
    }
  }

  lemma ZeroTail(file: seq<byte>, off: nat, have: nat, s: nat)
    requires s == 0 || off + have >= |file|
    ensures Slice(file, off, have) + Zeros(s) == Slice(file, off, have + s)
  {
    var a, b := Slice(file, off, have) + Zeros(s), Slice(file, off, have + s);
    forall i | 0 <= i < have + s ensures a[i] == b[i] {
      assert b[i] == At(file, off + i);
    }
  }

  function Head(s: seq<byte>, n: nat): seq<byte> {
    if n < |s| then s[..n] else s
  }

  /** The first loop of s_write: takes `size` bytes from the connection, fewer only at its end. */
  method TakeInput(input: seq<byte>, size: nat, fails: nat -> bool)
    returns (ok: bool, data: seq<byte>, calls: nat)
    ensures 0 < calls <= size + 1
    ensures ok <==> NoneFailed(fails, calls)
    ensures !ok ==> fails(calls - 1) && NoneFailed(fails, calls - 1)
    ensures ok ==> data == Head(input, size)
  {
    data, calls := [], 1;
    var s: nat := size;
    var result := Transfer(s, |input|, fails(0));
    while result > 0
      invariant result == -1 || 0 <= result <= s
      invariant |data| + s == size && |data| <= |input| && data == input[..|data|]
      invariant result >= 0 ==> result <= |input| - |data| && (result == 0 <==> s == 0 || |data| == |input|)
      invariant 0 < calls <= |data| + 1 && NoneFailed(fails, calls - 1) && (result < 0 <==> fails(calls - 1))
      decreases s, result
    {
      assert input[..|data| + result] == input[..|data|] + input[|data|..|data| + result];
      data := data + input[|data|..|data| + result];
      s := s - result;
      result := Transfer(s, |input| - |data|, fails(calls));
      calls := calls + 1;
    }
    ok := result >= 0;
  }

  /** s_write: however short the single writes are, the file ends up overlaid by the data unless a
      call fails, and then by its first `wrote` bytes. */
  method ServeWrite(file: seq<byte>, off: nat, input: seq<byte>, size: nat, fails: nat -> bool)
    returns (ok: bool, file': seq<byte>, wrote: nat, calls: nat)
    ensures calls > 0 && (ok <==> NoneFailed(fails, calls))
    ensures !ok ==> fails(calls - 1) && NoneFailed(fails, calls - 1)
    ensures wrote <= |Head(input, size)| && file' == Overlay(file, off, Head(input, size)[..wrote])
    ensures ok ==> wrote == |Head(input, size)| && file' == Overlay(file, off, Head(input, size))
  {
    var data;
    ok, data, calls := TakeInput(input, size, fails);
    file', wrote := file, 0;
    if !ok {
      return;
    }
    assert data[..0] == [] && Overlay(file, off, []) == file;
    ghost var received := calls;
    var o: nat, s: nat := 0, size;
    var result;
    result, file' := WriteSome(file, file, off, data, 0, s, fails(calls));
    calls := calls + 1;
    while result > 0 && o + result < size
      invariant o + s == size && o <= |data| && -1 <= result <= Min(s, |data| - o)
      invariant result == 0 ==> s == 0 || o == |data|
      invariant file' == Overlay(file, off, data[..o + Max(result, 0)])
      invariant calls > received && NoneFailed(fails, calls - 1) && (result < 0 <==> fails(calls - 1))
      decreases s, result
    {
      o, s := o + result, s - result;
      result, file' := WriteSome(file, file', off, data, o, s, fails(calls));
      calls := calls + 1;
    }
    ok, wrote := result >= 0, o + Max(result, 0);
    assert ok ==> data[..wrote] == data;
  }

  /** One syswrite of at most `most` characters of `data` from `o` on. */
  method WriteSome(ghost file: seq<byte>, now: seq<byte>, off: nat, data: seq<byte>, o: nat, most: nat, failed: bool)
    returns (k: int, file': seq<byte>)
    requires o <= |data| && now == Overlay(file, off, data[..o])
    ensures if failed then k == -1 else 0 <= k <= Min(most, |data| - o) && (k == 0 <==> most == 0 || o == |data|)
    ensures file' == Overlay(file, off, data[..o + Max(k, 0)])
  {
    k := Transfer(most, |data| - o, failed);
    file' := now;
    if k > 0 {
      file' := Overlay(now, off + o, data[o..o + k]);
      OverlaySplit(file, off, data[..o + k], o);
      assert data[..o + k][..o] == data[..o] && data[..o + k][o..] == data[o..o + k];
    }
  }

  // ---- block sizes sent with a request

  /** The block size, block offset and block count of a read request. */
  function ReadBlocks(offset: nat, count: nat): (nat, nat, nat) {
    if count > 0 && offset % count == 0 then (count, offset / count, 1) else (1, offset, count)
  }

  /** The block size and block offset of a write request. */
  function WriteBlocks(offset: nat, size: nat): (nat, nat)
    requires size > 0
  {
    if offset % size == 0 then (size, offset / size) else (1, offset)
  }

  /** In both branches the blocks denote the requested byte range. */
  lemma BlocksDenoteRange(offset: nat, count: nat, size: nat)
    requires size > 0
    ensures var (bs, skip, n) := ReadBlocks(offset, count);
            bs > 0 && bs * skip == offset && bs * n == count
    ensures var (bs, seek) := WriteBlocks(offset, size);
            bs > 0 && bs * seek == offset
  {
  }

  /** Every remote read of the file cache is one single block, and so is every flush of a
      sequential write. */
  lemma CacheCallsAreBlocks(w: Win, pos: nat, n: nat, size: nat, k: nat)
    requires Sized(size) && n > 0 && w.Fits(size)
    ensures var f := PlanFetch(w, pos, n, size);
            f.len > 0 && ReadBlocks(f.at, f.len).0 == f.len && ReadBlocks(f.at, f.len).2 == 1
    ensures WriteBlocks(k * size, size) == (size, k)
  {
    FetchAligned(w, pos, n, size);
    DivisionIs(k * size, size, k, 0);
    hide PlanFetch, PageFloor;
  }

  // ---- the cachesize option

  /** The buffer gets the least power of two of pages that holds the wanted number. */
  method CacheSize(pages: nat) returns (size: nat, ghost k: nat)
    requires 1 <= pages <= 99999
    ensures size == Pow2(k) * PAGE && Sized(size)
    ensures pages <= Pow2(k) && forall m: nat :: pages <= Pow2(m) ==> k <= m
    ensures size <= 0x7fff_ffff
  {
    hide Pow2, Divides;
    PowStart();
    var i: nat, j: nat, p: nat := pages - 1, 0, 1;
    while i > 0
      invariant p == Pow2(j) && i * p <= pages - 1 < (i + 1) * p
      invariant j > 0 ==> Pow2(j - 1) < pages
      decreases i
    {
      Halve(i, p, pages - 1);
      PowStep(j);
      i := i / 2;
      j := j + 1;
      p := 2 * p;
    }
    k := j;
    size := p * PAGE;
    PowerSized(j);
    Pow2Bound(j);
    LeastPower(pages, j);
  }

  lemma LeastPower(pages: nat, j: nat)
    requires pages <= Pow2(j) && (j > 0 ==> Pow2(j - 1) < pages)
    ensures forall m: nat :: pages <= Pow2(m) ==> j <= m
  {
    forall m: nat | pages <= Pow2(m) ensures j <= m {
      if j > 0 {
        Pow2Grows(m, j - 1);
      }
    }
  }

  lemma PowStart()
    ensures Pow2(0) == 1
  {
  }

  lemma PowStep(j: nat)
    ensures Pow2(j + 1) == 2 * Pow2(j)
  {
  }

  /** Halving keeps the wanted number between i and i + 1 units. */
  lemma Halve(i: nat, p: nat, x: nat)
    requires i > 0 && p > 0 && i * p <= x < (i + 1) * p
    ensures i / 2 * (2 * p) <= x < (i / 2 + 1) * (2 * p) && p <= x
  {
    var h := i / 2;
    assert h * (2 * p) == (2 * h) * p && (h + 1) * (2 * p) == (2 * h + 2) * p;
    MulOrder(p, 2 * h, i);
    MulOrder(p, i + 1, 2 * h + 2);
    MulOrder(p, 1, i);
  }

  /** 2^17 is the largest power that can come out. */
  lemma Pow2Bound(j: nat)
    requires j > 0 ==> Pow2(j - 1) < 99999
    ensures Pow2(j) <= 0x2_0000
  {
    Pow2Is17();
    if j > 0 {
      Pow2Grows(17, j - 1);
    }
    Pow2Grows(j, 17);
  }

  lemma Pow2Is17()
    ensures Pow2(17) == 0x2_0000
  {
    assert Pow2(4) == 16;
    assert Pow2(8) == 256;
    assert Pow2(12) == 4096;
    assert Pow2(16) == 65536;
  }
}
