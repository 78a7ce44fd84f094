/** How few remote calls sequential reading and writing make. */
module SequentialAccess {
  import opened ByteFile
  import opened Divisors
  import opened Window
  import opened WindowLaws

  function Pow2(k: nat): (p: nat)
    ensures p >= 1
  {
    if k == 0 then 1 else 2 * Pow2(k - 1)
  }

  lemma {:induction false} Pow2Grows(a: nat, b: nat)
    ensures a < b ==> 2 * Pow2(a) <= Pow2(b)
    ensures a <= b ==> Pow2(a) <= Pow2(b)
    decreases b
  {
    if a < b {
      Pow2Grows(a, b - 1);
    }
  }

  /** The least number of blocks of `d` that hold `n`. */
  function CeilDiv(n: nat, d: nat): nat
    requires d > 0
  {
    (n + d - 1) / d
  }

  // ---- reading page after page

  /** The window and the number of remote calls after reading the first `pages` pages one by one. */
  function PageReads(pages: nat, size: nat): (r: (Win, nat))
    requires Sized(size)
    ensures r.0.Fits(size)
  {
    if pages == 0 then (DividesEnds(PAGE); (Win(false, 0, 0), 0))
    else
      var before := PageReads(pages - 1, size);
      var plan := ReadPlan(before.0, (pages - 1) * PAGE, PAGE, size);
      (plan.0, before.1 + |plan.1|)
  }

  /** The window after `pages` reads: it starts at block `q` of the buffer size and has doubled
      to `2^b` pages; it grows only in the first block. */
  ghost predicate Grown(w: Win, calls: nat, pages: nat, k: nat, b: nat, q: nat) {
    && w == Win(false, q * (PAGE * Pow2(k)), PAGE * Pow2(b))
    && b <= k && (q > 0 ==> b == k)
    && q * Pow2(k) < pages <= q * Pow2(k) + Pow2(b)
    && calls == 1 + b + q
  }

  /** A fetch that continues a window which starts at a multiple of its own length, or at zero,
      reads exactly one more window length. */
  lemma NextFetch(off: nat, cnt: nat, size: nat)
    requires Sized(size) && 0 < cnt <= size && Divides(PAGE, cnt) && Divides(cnt, off + cnt)
    ensures PlanFetch(Win(false, off, cnt), off + cnt, PAGE, size)
         == Fetch(off + cnt, cnt, if cnt + cnt > size then Win(false, off + cnt, 0) else Win(false, off, cnt))
  {
    var pos := off + cnt;
    hide Divides, PageFloor, PageCeil, Euclid;
    DividesTrans(PAGE, cnt, pos);
    FloorOfPaged(pos);
    FloorOfPaged(cnt);
    DividesLe(PAGE, cnt);
    CeilOfPaged(cnt);
    EuclidOfMultiple(pos, cnt);
  }

  lemma CeilOfPaged(n: nat)
    requires Divides(PAGE, n)
    ensures PageCeil(n) == n
  {
  }

  lemma CeilIs(n: nat, len: nat)
    requires n <= len < n + PAGE && Divides(PAGE, len)
    ensures PageCeil(n) == len
  {
  }

  /** What a miss wants is fetched at once, rounded up to pages, when that fits the buffer and
      divides the position. */
  lemma FetchedAtOnce(w: Win, pos: nat, n: nat, len: nat, size: nat)
    requires Sized(size) && w.Fits(size) && !w.dirty && n > 0 && (w.cnt == 0 || w.off + w.cnt != pos)
    requires n <= len < n + PAGE && Divides(PAGE, len) && len <= size && Divides(len, pos)
    ensures ReadLoop(w, pos, n, size).1 == [Fetched(pos, len)]
  {
    DividesTrans(PAGE, len, pos);
    FloorOfPaged(pos);
    CeilIs(n, len);
    EuclidOfMultiple(pos, len);
    assert Kept(w, pos).cnt == 0;
    hide Divides, PageFloor, PageCeil, Euclid, ReadLoop;
    assert PlanFetch(w, pos, n, size).at == pos && PlanFetch(w, pos, n, size).len == len;
    hide PlanFetch;
    FetchOffset(w, pos, n, size);
    ReadLoopStep(w, pos, n, size);
    var (w', c) := AfterFetch(w, pos, n, size);
    LoopDone(w', pos + c, size);
    assert [Fetched(pos, len)] + [] == [Fetched(pos, len)];
  }

  /** A one-page read at a page boundary whose first fetch is `f` is that one fetch. */
  lemma OneFetch(w: Win, pos: nat, size: nat, f: Fetch)
    requires Sized(size) && w.Fits(size) && !w.dirty && Divides(PAGE, pos) && w.Hit(pos, PAGE) == 0
    requires f == PlanFetch(w, pos, PAGE, size) && f.at == pos && f.len >= PAGE
    ensures ReadPlan(w, pos, PAGE, size) == (Win(false, f.base.off, f.base.cnt + f.len), [Fetched(pos, f.len)])
  {
    FloorOfPaged(pos);
    hide PlanFetch, Divides, PageFloor, ReadLoop;
    ReadLoopStep(w, pos, PAGE, size);
    var (w', c) := AfterFetch(w, pos, PAGE, size);
    LoopDone(w', pos + PAGE, size);
    assert [Fetched(pos, f.len)] + [] == [Fetched(pos, f.len)];
  }

  /** A one-page read that is right behind such a window is a single fetch. */
  lemma MissPlan(off: nat, cnt: nat, size: nat)
    requires Sized(size) && 0 < cnt <= size && Divides(PAGE, cnt) && Divides(cnt, off + cnt)
    ensures var w := if cnt + cnt > size then Win(false, off + cnt, cnt) else Win(false, off, cnt + cnt);
            ReadPlan(Win(false, off, cnt), off + cnt, PAGE, size) == (w, [Fetched(off + cnt, cnt)])
  {
    hide PlanFetch, Divides, PageFloor, ReadLoop, ReadPlan;
    NextFetch(off, cnt, size);
    DividesTrans(PAGE, cnt, off + cnt);
    DividesLe(PAGE, cnt);
    OneFetch(Win(false, off, cnt), off + cnt, size, PlanFetch(Win(false, off, cnt), off + cnt, PAGE, size));
  }

  lemma FirstPlan(size: nat)
    requires Sized(size)
    ensures Win(false, 0, 0).Fits(size)
    ensures ReadPlan(Win(false, 0, 0), 0, PAGE, size) == (Win(false, 0, PAGE), [Fetched(0, PAGE)])
  {
    DividesEnds(PAGE);
    FloorOfPaged(0);
    CeilOfPaged(PAGE);
    DividesLe(PAGE, size);
    var f := Fetch(0, PAGE, Win(false, 0, 0));
    assert PlanFetch(Win(false, 0, 0), 0, PAGE, size) == f;
    OneFetch(Win(false, 0, 0), 0, size, f);
  }

  lemma PowerSized(k: nat)
    ensures Sized(PAGE * Pow2(k)) && Divides(PAGE, PAGE * Pow2(k))
  {
    DividesMul(PAGE, Pow2(k));
  }

  /** Scaling the page counts by the page size. */
  lemma Scale(q: nat, k: nat, b: nat)
    ensures q * (PAGE * Pow2(k)) == PAGE * (q * Pow2(k))
    ensures q * (PAGE * Pow2(k)) + PAGE * Pow2(b) == PAGE * (q * Pow2(k) + Pow2(b))
  {
  }

  lemma {:induction false} PageReadsGrow(pages: nat, k: nat) returns (b: nat, q: nat)
    requires pages >= 1
    ensures Sized(PAGE * Pow2(k))
    ensures Grown(PageReads(pages, PAGE * Pow2(k)).0, PageReads(pages, PAGE * Pow2(k)).1, pages, k, b, q)
  {
    hide Divides, ReadPlan;
    var size := PAGE * Pow2(k);
    PowerSized(k);
    if pages == 1 {
      FirstPlan(size);
      b, q := 0, 0;
    } else {
      b, q := PageReadsGrow(pages - 1, k);
      var w, pos := PageReads(pages - 1, size).0, (pages - 1) * PAGE;
      Scale(q, k, b);
      if pages - 1 < q * Pow2(k) + Pow2(b) {
        InsideHit(w, pages - 1, q * Pow2(k), Pow2(b), size);
      } else {
        PowerSized(b);
        Pow2Grows(b, k);
        var m := if q == 0 then 1 else q + 1;
        if q > 0 { assert q * size + size == size * (q + 1); }
        assert w.off + w.cnt == w.cnt * m && w.off + w.cnt == pos;
        DividesMul(w.cnt, m);
        MissPlan(w.off, w.cnt, size);
        if b < k {
          assert PAGE * Pow2(b + 1) == PAGE * Pow2(b) + PAGE * Pow2(b);
          b := b + 1;
        } else {
          assert (q + 1) * size == q * size + size && (q + 1) * Pow2(k) == q * Pow2(k) + Pow2(k);
          q := q + 1;
        }
      }
    }
  }

  lemma InsideHit(w: Win, page: nat, first: nat, len: nat, size: nat)
    requires Sized(size) && w == Win(false, PAGE * first, PAGE * len) && w.Fits(size) && first <= page < first + len
    ensures ReadPlan(w, page * PAGE, PAGE, size) == (w, [])
  {
    assert page * PAGE + PAGE <= PAGE * first + PAGE * len;
  }

  /** Reading N >= 1 consecutive pages one at a time from a fresh cache of 2^k pages makes at
      most k + ceil(N / 2^k) remote reads. */
  lemma SequentialReadBound(pages: nat, k: nat)
    requires pages >= 1
    ensures Sized(PAGE * Pow2(k))
    ensures PageReads(pages, PAGE * Pow2(k)).1 <= k + CeilDiv(pages, Pow2(k))
  {
    var b, q := PageReadsGrow(pages, k);
    CeilAbove(pages, Pow2(k), q);
  }

  lemma CeilAbove(n: nat, d: nat, q: nat)
    requires d > 0 && q * d < n
    ensures CeilDiv(n, d) >= q + 1
  {
    var c := CeilDiv(n, d);
    var r := (n + d - 1) % d;
    assert n + d - 1 == d * c + r;
    if c <= q {
      assert d * c <= d * q by { MulOrder(d, c, q); }
    }
  }

  // ---- writing one byte range in any pieces

  function Sum(pieces: seq<nat>): nat {
    if pieces == [] then 0 else Sum(pieces[..|pieces| - 1]) + pieces[|pieces| - 1]
  }

  datatype Progress = Progress(w: Win, isNew: bool, calls: seq<Call>)

  /** Writing from position 0 on, call after call, `pieces[i]` bytes each. */
  function PieceWrites(pieces: seq<nat>, size: nat): (r: Progress)
    requires Sized(size)
    ensures r.w.Fits(size)
  {
    if pieces == [] then (DividesEnds(PAGE); Progress(Win(false, 0, 0), true, []))
    else
      var last := |pieces| - 1;
      var before := PieceWrites(pieces[..last], size);
      var n := pieces[last];
      var plan := WritePlan(before.w, before.isNew, Sum(pieces[..last]), n, size);
      Progress(plan.0, before.isNew && n == 0, before.calls + plan.1)
  }

  /** The flushes of whole buffers number `a` to `b - 1`. */
  function Blocks(a: nat, b: nat, size: nat): (r: seq<Call>)
    requires a <= b
    ensures |r| == b - a
  {
    seq(b - a, i requires 0 <= i < b - a => Stored((a + i) * size, size))
  }

  /** The calls that are not one-byte probes. */
  function Flushes(calls: seq<Call>): (r: seq<Call>)
    ensures |r| <= |calls|
  {
    if calls == [] then []
    else (if calls[0].len != 1 then [calls[0]] else []) + Flushes(calls[1..])
  }

  lemma {:induction false} FlushesAppend(a: seq<Call>, b: seq<Call>)
    ensures Flushes(a + b) == Flushes(a) + Flushes(b)
  {
    if a == [] {
      assert a + b == b;
      assert Flushes(a) + Flushes(b) == Flushes(b);
    } else {
      var head: seq<Call> := if a[0].len != 1 then [a[0]] else [];
      FlushesAppend(a[1..], b);
      assert (a + b)[0] == a[0] && (a + b)[1..] == a[1..] + b;
      assert head + (Flushes(a[1..]) + Flushes(b)) == head + Flushes(a[1..]) + Flushes(b);
    }
  }

  lemma {:induction false} FlushesOfBlocks(a: nat, b: nat, size: nat)
    requires a <= b && size > 1
    ensures Flushes(Blocks(a, b, size)) == Blocks(a, b, size)
    decreases b - a
  {
    var s := Blocks(a, b, size);
    if a < b {
      FlushesOfBlocks(a + 1, b, size);
      assert s[1..] == Blocks(a + 1, b, size);
      assert s[0] == Stored(a * size, size);
    }
  }

  /** The dirty window that holds the last part of the first `total` bytes; `m` buffers went out. */
  ghost predicate Tail(w: Win, total: nat, m: nat, size: nat) {
    w.dirty && w.off == m * size && w.off + w.cnt == total && w.cnt <= size && (w.cnt == 0 ==> m == 0)
  }

  /** The flush loop stores one full buffer after the other. */
  lemma {:induction false} FlushesWholeBuffers(w: Win, m: nat, n: nat, size: nat) returns (m': nat)
    requires Sized(size) && Tail(w, (m + 1) * size, m, size)
    ensures m <= m' && Tail(WriteLoop(w, (m + 1) * size, n, size).0, (m + 1) * size + n, m', size)
    ensures WriteLoop(w, (m + 1) * size, n, size).1 == Blocks(m, m', size)
    decreases n
  {
    hide Divides;
    m' := m;
    assert (m + 1) * size == m * size + size;
    if n > 0 {
      var c := Min(n, size);
      var w' := Win(true, (m + 1) * size, c);
      if c < n {
        assert (m + 2) * size == (m + 1) * size + size;
        m' := FlushesWholeBuffers(w', m + 1, n - c, size);
      } else {
        m' := m + 1;
        assert WriteLoop(w', (m + 1) * size + c, 0, size) == (w', []);
      }
      assert [Stored(m * size, size)] + Blocks(m + 1, m', size) == Blocks(m, m', size);
    }
  }

  /** One more piece keeps the shape; only full buffers go out, and the probe once. */
  lemma PieceStep(w: Win, isNew: bool, total: nat, m: nat, n: nat, size: nat) returns (m': nat)
    requires Sized(size) && (Tail(w, total, m, size) || (w == Win(false, 0, 0) && total == 0 && m == 0))
    ensures m <= m' && Tail(WritePlan(w, isNew, total, n, size).0, total + n, m', size)
    ensures WritePlan(w, isNew, total, n, size).1
         == Blocks(m, m', size) + if isNew && n > 0 then [Stored(m' * size, 1)] else []
  {
    hide Divides;
    var (filled, c) := Absorb(w, total, n, size);
    assert filled.off == m * size && filled.off + filled.cnt == total + c && filled.cnt <= size;
    if c == n {
      m' := m;
      assert Blocks(m, m, size) == [];
      assert WriteLoop(filled, total + c, 0, size) == (filled, []);
    } else {
      assert (m + 1) * size == m * size + size;
      m' := FlushesWholeBuffers(filled, m, n - c, size);
    }
  }

  lemma {:induction false} PieceWritesShape(pieces: seq<nat>, size: nat) returns (m: nat)
    requires Sized(size) && size > 1 && pieces != []
    ensures var r := PieceWrites(pieces, size);
            && Tail(r.w, Sum(pieces), m, size)
            && r.isNew == (Sum(pieces) == 0)
            && Flushes(r.calls) == Blocks(0, m, size)
            && |r.calls| == m + if Sum(pieces) > 0 then 1 else 0
    decreases |pieces|
  {
    hide WritePlan, Divides, Flushes, Blocks;
    var last := |pieces| - 1;
    var before := PieceWrites(pieces[..last], size);
    var total, n, m0 := Sum(pieces[..last]), pieces[last], 0;
    if last > 0 {
      m0 := PieceWritesShape(pieces[..last], size);
    } else {
      assert pieces[..last] == [];
      NoCalls(size);
    }
    m := PieceStep(before.w, before.isNew, total, m0, n, size);
    FlushesStep(before.calls, m0, m, if before.isNew && n > 0 then [Stored(m * size, 1)] else [], size);
  }

  lemma FlushesStep(calls: seq<Call>, m0: nat, m: nat, probe: seq<Call>, size: nat)
    requires m0 <= m && size > 1 && Flushes(calls) == Blocks(0, m0, size)
    requires probe == [] || (|probe| == 1 && probe[0].len == 1)
    ensures Flushes(calls + (Blocks(m0, m, size) + probe)) == Blocks(0, m, size)
  {
    FlushesAppend(calls, Blocks(m0, m, size) + probe);
    FlushesAppend(Blocks(m0, m, size), probe);
    FlushesOfBlocks(m0, m, size);
    assert Flushes(probe) == [] by {
      if probe != [] { assert probe[1..] == []; }
    }
    hide Flushes;
    BlocksJoin(m0, m, size);
    assert Blocks(m0, m, size) + [] == Blocks(m0, m, size);
  }

  lemma NoCalls(size: nat)
    ensures Flushes([]) == Blocks(0, 0, size) == []
  {
  }

  lemma BlocksJoin(m0: nat, m: nat, size: nat)
    requires m0 <= m
    ensures Blocks(0, m0, size) + Blocks(m0, m, size) == Blocks(0, m, size)
  {
  }

  function FloorDiv(n: nat, d: nat): nat
    requires d > 0
  {
    n / d
  }

  lemma FloorDivIs(n: nat, d: nat, q: nat, r: nat)
    requires r < d && n == q * d + r
    ensures FloorDiv(n, d) == q
  {
    DivisionIs(n, d, q, r);
  }

  /** N >= 1 bytes written from position 0 on, in any pieces: exactly floor((N - 1) / size)
      flushes, each a whole buffer at a multiple of the buffer size, and one probe. */
  lemma SequentialWriteBound(pieces: seq<nat>, size: nat)
    requires Sized(size) && Sum(pieces) >= 1
    ensures var m := FloorDiv(Sum(pieces) - 1, size);
            var calls := PieceWrites(pieces, size).calls;
            Flushes(calls) == Blocks(0, m, size) && |calls| == m + 1
  {
    DividesLe(PAGE, size);
    hide Divides, Flushes, Blocks, PieceWrites, FloorDiv;
    var m := PieceWritesShape(pieces, size);
    var w := PieceWrites(pieces, size).w;
    assert w.cnt > 0;
    FloorDivIs(Sum(pieces) - 1, size, m, w.cnt - 1);
  }
}
