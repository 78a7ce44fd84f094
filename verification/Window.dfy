/** The window of one cached file, as positions only: which remote calls a read or
    a write makes and where the window ends up. Data never decides any of this. */
module Window {
  import opened ByteFile
  import opened Divisors

  const PAGE: nat := 4096

  function PageFloor(n: nat): (f: nat)
    ensures f <= n < f + PAGE && Divides(PAGE, f)
  {
    n - n % PAGE
  }

  function PageCeil(n: nat): (c: nat)
    ensures n <= c < n + PAGE && Divides(PAGE, c)
  {
    PageFloor(n + PAGE - 1)
  }

  lemma FloorOfPaged(n: nat)
    requires Divides(PAGE, n)
    ensures PageFloor(n) == n
  {
  }

  lemma FloorShift(n: nat, k: nat)
    requires Divides(PAGE, k)
    ensures PageFloor(n + k) == PageFloor(n) + k
  {
  }

  /** A cache buffer holds a positive whole number of pages. */
  predicate Sized(size: nat) {
    0 < size && Divides(PAGE, size)
  }

  /** `dirty` is the write type; `cnt` bytes are held, nominally for `off` on. */
  datatype Win = Win(dirty: bool, off: nat, cnt: nat) {
    /** How far the bytes of a clean window sit before the position they are nominally at. */
    function Skew(): (s: nat)
      ensures s <= off
    {
      if dirty || cnt == 0 then 0 else off - PageFloor(off)
    }

    /** How many of the `n` bytes from `pos` on are served from the window. */
    function Hit(pos: nat, n: nat): (h: nat)
      ensures h <= n
    {
      if off <= pos < off + cnt then Min(n, off + cnt - pos) else 0
    }

    predicate Fits(size: nat) {
      cnt <= size && (!dirty ==> Divides(PAGE, cnt))
    }
  }

  /** One call to the remote side. */
  datatype Call = Fetched(off: nat, len: nat) | Stored(off: nat, len: nat)

  // ---- one round of the read loop

  /** The remote read of one round: `len` bytes at `at`, appended to the window `base`. */
  datatype Fetch = Fetch(at: nat, len: nat, base: Win)

  /** What a round keeps of the window: all of it when the wanted bytes come next, else nothing. */
  function Kept(w: Win, pos: nat): Win {
    if w.off + w.cnt == pos then Win(false, w.off, w.cnt) else Win(false, PageFloor(pos), 0)
  }

  /** The read-ahead of a round: as much again as the window holds, at least what is
      wanted, in whole pages, at most the buffer. */
  function Ahead(kept: nat, need: nat, size: nat): nat {
    Min(PageCeil(Max(kept, need)), size)
  }

  function PlanFetch(w: Win, pos: nat, n: nat, size: nat): Fetch {
    var o := PageFloor(pos);
    var kept := Kept(w, pos);
    var len := Euclid(o, Ahead(kept.cnt, pos - o + n, size));
    Fetch(o, len, if kept.cnt + len > size then Win(false, o, 0) else kept)
  }

  /** Every remote read is aligned to its own length, is a whole number of pages, fits
      behind what the window keeps, and reaches past the requested position. */
  lemma FetchAligned(w: Win, pos: nat, n: nat, size: nat)
    requires Sized(size) && n > 0 && w.Fits(size)
    ensures var f := PlanFetch(w, pos, n, size);
            && f.at == PageFloor(pos)
            && Divides(f.len, f.at) && Divides(PAGE, f.len) && PAGE <= f.len <= size
            && f.base.cnt + f.len <= size
            && pos - f.at < f.len
            && !f.base.dirty
  {
    hide Divides, PageFloor, PageCeil, Euclid;
    var o := PageFloor(pos);
    var ahead := Ahead(Kept(w, pos).cnt, pos - o + n, size);
    DividesLe(PAGE, size);
    DividesLe(PAGE, PageCeil(Max(Kept(w, pos).cnt, pos - o + n)));
    EuclidIsGcd(o, ahead);
    var g := Euclid(o, ahead);
    assert Divides(PAGE, g) && g > 0 by { DividesPositive(g, ahead); }
    DividesLe(g, ahead);
    DividesLe(PAGE, g);
  }

  lemma DividesPositive(d: nat, a: nat)
    requires Divides(d, a)
    ensures d > 0
  {
  }

  /** The bytes a clean window holds start at the page floor of its offset; the next
      fetch continues them without a gap. */
  lemma FetchContinues(w: Win, pos: nat, n: nat, size: nat)
    requires w.Fits(size) && !w.dirty
    ensures var f := PlanFetch(w, pos, n, size);
            && PageFloor(f.base.off) + f.base.cnt == f.at
            && Divides(PAGE, f.base.cnt)
            && (f.base == w || f.base == Win(false, f.at, 0))
  {
    hide Divides, PageFloor, Euclid, Ahead;
    DividesEnds(PAGE);
    FloorOfPaged(PageFloor(pos));
    FloorShift(w.off, w.cnt);
  }

  /** The window after the fetch, and how many of the wanted bytes it supplied. */
  function AfterFetch(w: Win, pos: nat, n: nat, size: nat): (r: (Win, nat))
    requires Sized(size) && n > 0 && w.Fits(size) && !w.dirty
    ensures !r.0.dirty && r.0.Fits(size) && 0 < r.1 <= n
  {
    FetchFits(w, pos, n, size);
    var f := PlanFetch(w, pos, n, size);
    (Win(false, f.base.off, f.base.cnt + f.len), Min(f.len - (pos - f.at), n))
  }

  lemma FetchFits(w: Win, pos: nat, n: nat, size: nat)
    requires Sized(size) && n > 0 && w.Fits(size) && !w.dirty
    ensures var f := PlanFetch(w, pos, n, size);
            && Win(false, f.base.off, f.base.cnt + f.len).Fits(size)
            && f.at <= pos < f.at + f.len
  {
    hide PlanFetch, Divides, PageFloor;
    FetchAligned(w, pos, n, size);
    FetchContinues(w, pos, n, size);
    var f := PlanFetch(w, pos, n, size);
    DividesAdd(PAGE, f.base.cnt, f.len);
  }

  /** The whole read loop: the final window and the remote reads it issues. */
  function ReadLoop(w: Win, pos: nat, n: nat, size: nat): (r: (Win, seq<Call>))
    requires Sized(size) && w.Fits(size) && !w.dirty
    ensures r.0.Fits(size) && !r.0.dirty
    decreases n
  {
    if n == 0 then (w, [])
    else
      hide PlanFetch, AfterFetch, Divides;
      var f := PlanFetch(w, pos, n, size);
      var (w', c) := AfterFetch(w, pos, n, size);
      var r := ReadLoop(w', pos + c, n - c, size);
      (r.0, [Fetched(f.at, f.len)] + r.1)
  }

  /** After the calls `done` the loop stands at `pos` with `n` bytes to go and will end as planned. */
  ghost predicate OnPlan(plan: (Win, seq<Call>), done: seq<Call>, w: Win, pos: nat, n: nat, size: nat) {
    && Sized(size) && w.Fits(size) && !w.dirty
    && plan == (ReadLoop(w, pos, n, size).0, done + ReadLoop(w, pos, n, size).1)
  }

  lemma OnPlanEnds(plan: (Win, seq<Call>), done: seq<Call>, w: Win, pos: nat, n: nat, size: nat)
    requires Sized(size) && w.Fits(size) && !w.dirty
    ensures OnPlan(ReadLoop(w, pos, n, size), [], w, pos, n, size)
    ensures n == 0 && OnPlan(plan, done, w, pos, n, size) ==> plan == (w, done)
  {
    assert [] + ReadLoop(w, pos, n, size).1 == ReadLoop(w, pos, n, size).1;
    assert done + [] == done;
  }

  lemma OnPlanStep(plan: (Win, seq<Call>), done: seq<Call>, w: Win, pos: nat, n: nat, size: nat)
    requires n > 0 && OnPlan(plan, done, w, pos, n, size)
    ensures var (w', c) := AfterFetch(w, pos, n, size);
            var f := PlanFetch(w, pos, n, size);
            OnPlan(plan, done + [Fetched(f.at, f.len)], w', pos + c, n - c, size)
  {
    hide PlanFetch, AfterFetch, Divides;
    var (w', c) := AfterFetch(w, pos, n, size);
    var f := PlanFetch(w, pos, n, size);
    assert done + ([Fetched(f.at, f.len)] + ReadLoop(w', pos + c, n - c, size).1)
        == done + [Fetched(f.at, f.len)] + ReadLoop(w', pos + c, n - c, size).1;
  }

  /** A whole read whose remote calls succeed. */
  function ReadPlan(w: Win, pos: nat, n: nat, size: nat): (r: (Win, seq<Call>))
    requires Sized(size) && w.Fits(size)
    ensures r.0.Fits(size) && (!w.dirty ==> !r.0.dirty)
  {
    var hit := w.Hit(pos, n);
    if hit == n then (w, [])
    else if w.dirty then
      DividesEnds(PAGE);
      var r := ReadLoop(Win(false, pos + hit, 0), pos + hit, n - hit, size);
      (r.0, [Stored(w.off, w.cnt)] + r.1)
    else ReadLoop(w, pos + hit, n - hit, size)
  }

  // ---- writing

  /** The flush loop of a write: each round stores the window and starts a new one. */
  function WriteLoop(w: Win, pos: nat, n: nat, size: nat): (r: (Win, seq<Call>))
    requires Sized(size) && w.dirty && w.cnt <= size
    ensures r.0.dirty && r.0.cnt <= size
    ensures n > 0 ==> r.0.cnt > 0
    ensures n == 0 ==> r.0 == w
    decreases n
  {
    if n == 0 then (w, [])
    else
      var c := Min(n, size);
      var r := WriteLoop(Win(true, pos, c), pos + c, n - c, size);
      (r.0, [Stored(w.off, w.cnt)] + r.1)
  }

  /** After the calls `done` the flush loop has `n` bytes to go and will end as planned. */
  ghost predicate OnWritePlan(plan: (Win, seq<Call>), done: seq<Call>, w: Win, pos: nat, n: nat, size: nat) {
    && Sized(size) && w.dirty && w.cnt <= size
    && plan == (WriteLoop(w, pos, n, size).0, done + WriteLoop(w, pos, n, size).1)
  }

  lemma OnWritePlanEnds(plan: (Win, seq<Call>), done: seq<Call>, w: Win, pos: nat, n: nat, size: nat)
    requires Sized(size) && w.dirty && w.cnt <= size
    ensures OnWritePlan(WriteLoop(w, pos, n, size), [], w, pos, n, size)
    ensures n == 0 && OnWritePlan(plan, done, w, pos, n, size) ==> plan == (w, done)
  {
    assert [] + WriteLoop(w, pos, n, size).1 == WriteLoop(w, pos, n, size).1;
    assert done + [] == done;
  }

  lemma OnWritePlanStep(plan: (Win, seq<Call>), done: seq<Call>, w: Win, pos: nat, n: nat, size: nat)
    requires n > 0 && OnWritePlan(plan, done, w, pos, n, size)
    ensures var c := Min(n, size);
            OnWritePlan(plan, done + [Stored(w.off, w.cnt)], Win(true, pos, c), pos + c, n - c, size)
  {
    var c := Min(n, size);
    var rest := WriteLoop(Win(true, pos, c), pos + c, n - c, size).1;
    assert done + ([Stored(w.off, w.cnt)] + rest) == done + [Stored(w.off, w.cnt)] + rest;
  }

  /** The dirty window after it took what fits of a write at or behind its end, and how much that was. */
  function Absorb(w: Win, pos: nat, n: nat, size: nat): (r: (Win, nat))
    requires w.cnt <= size
    ensures r.0.dirty && r.0.cnt <= size && r.1 <= n
    ensures r.1 > 0 ==> r.0.cnt > 0
  {
    var start := if w.dirty then w else Win(true, pos, 0);
    if start.off <= pos <= start.off + start.cnt then
      var c := Min(n, size - (pos - start.off));
      (start.(cnt := Max(start.cnt, pos - start.off + c)), c)
    else (start, 0)
  }

  /** A whole write whose remote calls succeed. */
  function WritePlan(w: Win, isNew: bool, pos: nat, n: nat, size: nat): (r: (Win, seq<Call>))
    requires Sized(size) && w.cnt <= size
    ensures r.0.dirty && r.0.cnt <= size
  {
    var (filled, c) := Absorb(w, pos, n, size);
    var r := WriteLoop(filled, pos + c, n - c, size);
    (r.0, r.1 + if isNew && n > 0 then [Stored(r.0.off, 1)] else [])
  }

  /** Where the dirty window starts and how much it holds when a write at `pos` begins: a clean
      window is dropped for an empty one at `pos`. */
  function WriteStart(w: Win, pos: nat): (nat, nat) {
    if w.dirty then (w.off, w.cnt) else (pos, 0)
  }

  /** The write begins inside the dirty window or right behind it, and the buffer has room for it. */
  predicate WriteFits(w: Win, pos: nat, n: nat, size: nat) {
    var (off, cnt) := WriteStart(w, pos);
    off <= pos <= off + cnt && pos - off + n <= size
  }

  /** Such a write is absorbed: nothing is stored but the probe of a new cache. */
  lemma WriteInside(w: Win, isNew: bool, pos: nat, n: nat, size: nat)
    requires Sized(size) && w.cnt <= size && WriteFits(w, pos, n, size)
    ensures var (off, cnt) := WriteStart(w, pos);
            WritePlan(w, isNew, pos, n, size)
              == (Win(true, off, Max(cnt, pos - off + n)), if isNew && n > 0 then [Stored(off, 1)] else [])
    ensures Absorb(w, pos, n, size).1 == n
  {
    hide Divides;
    var probe := if isNew && n > 0 then [Stored(WriteStart(w, pos).0, 1)] else [];
    assert [] + probe == probe;
  }

  /** A write that touches nothing of the dirty window stores it first. */
  lemma WriteOutside(w: Win, isNew: bool, pos: nat, n: nat, size: nat)
    requires Sized(size) && w.cnt <= size && w.dirty && !(w.off <= pos <= w.off + w.cnt) && n > 0
    ensures [Stored(w.off, w.cnt)] <= WritePlan(w, isNew, pos, n, size).1
    ensures Absorb(w, pos, n, size).1 == 0
  {
    hide Divides;
  }
}
