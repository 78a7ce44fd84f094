/** What the window plans promise: when reads are exact, and how few remote calls
    sequential access makes. */
module WindowLaws {
  import opened ByteFile
  import opened Divisors
  import opened Window
  import opened FileCache

  // ---- exactness of one read

  /** A file that is 1 at `at` and 0 elsewhere. */
  function Marked(at: nat): seq<byte> {
    seq(at + 1, i => if i == at then 1 else 0)
  }

  /** A read is exact for every file content if and only if it does not hit a skewed window. */
  lemma ExactIff(w: Win, from: nat, total: nat)
    ensures (forall f: seq<byte> :: Delivered(f, f, w, from, total) == Slice(f, from, total))
       <==> (w.Skew() == 0 || w.Hit(from, total) == 0)
  {
    var hit, s := w.Hit(from, total), w.Skew();
    if hit == 0 || s == 0 {
      forall f: seq<byte> ensures Delivered(f, f, w, from, total) == Slice(f, from, total) {
        SliceJoin(f, from, hit, total - hit);
      }
    } else {
      var f := Marked(from);
      assert Delivered(f, f, w, from, total)[0] == At(f, from - s) == 0;
      assert Slice(f, from, total)[0] == At(f, from) == 1;
    }
  }

  /** The window a read loop starts from. */
  function LoopStart(w: Win, from: nat, total: nat): Win {
    if w.dirty then Win(false, from + w.Hit(from, total), 0) else w
  }

  /** The read loop starts on an empty window standing at an unaligned position that is the
      one wanted, and its first remote read already suffices. */
  predicate SkewsRead(w: Win, from: nat, total: nat, size: nat) {
    var hit := w.Hit(from, total);
    var pos, n, start := from + hit, total - hit, LoopStart(w, from, total);
    && n > 0
    && start.cnt == 0 && start.off == pos
    && !Divides(PAGE, pos)
    && n <= PlanFetch(start, pos, n, size).len - (pos - PageFloor(pos))
  }

  lemma {:induction false} LoopKeepsAligned(w: Win, pos: nat, n: nat, size: nat)
    requires Sized(size) && w.Fits(size) && !w.dirty && Divides(PAGE, w.off)
    ensures Divides(PAGE, ReadLoop(w, pos, n, size).0.off)
    decreases n
  {
    hide PlanFetch, AfterFetch, Divides, PageFloor;
    if n > 0 {
      FetchOffset(w, pos, n, size);
      var (w', c) := AfterFetch(w, pos, n, size);
      LoopKeepsAligned(w', pos + c, n - c, size);
    }
  }

  /** A fetch leaves the window where it was or moves it to a page boundary. */
  lemma FetchOffset(w: Win, pos: nat, n: nat, size: nat)
    requires Sized(size) && n > 0 && w.Fits(size) && !w.dirty
    ensures var (w', c) := AfterFetch(w, pos, n, size);
            var f := PlanFetch(w, pos, n, size);
            && w'.cnt > 0 && f.len > pos - PageFloor(pos)
            && c == Min(f.len - (pos - PageFloor(pos)), n)
            && (w'.off == w.off || w'.off == PageFloor(pos))
            && (w.off + w.cnt != pos ==> w'.off == PageFloor(pos))
            && (w.cnt == 0 && w.off == pos ==> w' == Win(false, pos, f.len))
  {
    FetchAligned(w, pos, n, size);
    hide Divides, PageFloor;
  }

  lemma ReadLoopStep(w: Win, pos: nat, n: nat, size: nat)
    requires Sized(size) && n > 0 && w.Fits(size) && !w.dirty
    ensures var (w', c) := AfterFetch(w, pos, n, size);
            var f := PlanFetch(w, pos, n, size);
            var rest := ReadLoop(w', pos + c, n - c, size);
            ReadLoop(w, pos, n, size) == (rest.0, [Fetched(f.at, f.len)] + rest.1)
  {
  }

  /** From an empty window at the wanted unaligned position, the loop ends skewed exactly when
      one remote read suffices. */
  lemma LoopFromEmpty(pos: nat, n: nat, size: nat)
    requires Sized(size) && n > 0 && !Divides(PAGE, pos)
    ensures var w := Win(false, pos, 0);
            var one := n <= PlanFetch(w, pos, n, size).len - (pos - PageFloor(pos));
            && (one ==> ReadLoop(w, pos, n, size).0.Skew() != 0)
            && (!one ==> Divides(PAGE, ReadLoop(w, pos, n, size).0.off))
  {
    hide PlanFetch, AfterFetch, Divides, PageFloor, ReadLoop;
    var w := Win(false, pos, 0);
    DividesEnds(PAGE);
    FetchOffset(w, pos, n, size);
    ReadLoopStep(w, pos, n, size);
    var (w', c) := AfterFetch(w, pos, n, size);
    var pos', n' := pos + c, n - c;
    assert PageFloor(pos) != pos;
    if n' == 0 {
      LoopDone(w', pos', size);
      assert w'.Skew() == pos - PageFloor(pos);
    } else {
      FetchOffset(w', pos', n', size);
      ReadLoopStep(w', pos', n', size);
      var (w2, c2) := AfterFetch(w', pos', n', size);
      LoopKeepsAligned(w2, pos' + c2, n' - c2, size);
    }
  }

  lemma LoopDone(w: Win, pos: nat, size: nat)
    requires Sized(size) && w.Fits(size) && !w.dirty
    ensures ReadLoop(w, pos, 0, size) == (w, [])
  {
  }

  lemma SkewAligned(w: Win)
    ensures w.Skew() == 0 <==> w.dirty || w.cnt == 0 || Divides(PAGE, w.off)
  {
  }

  /** From an unskewed window a read whose remote calls succeed leaves a skewed one exactly in
      the unaligned empty case. */
  lemma ReadSkewsIff(w: Win, from: nat, total: nat, size: nat)
    requires Sized(size) && w.Fits(size) && w.Skew() == 0
    ensures ReadPlan(w, from, total, size).0.Skew() != 0 <==> SkewsRead(w, from, total, size)
  {
    hide PlanFetch, Divides, PageFloor, ReadLoop;
    var hit := w.Hit(from, total);
    var pos, n, start := from + hit, total - hit, LoopStart(w, from, total);
    DividesEnds(PAGE);
    SkewAligned(w);
    SkewAligned(ReadPlan(w, from, total, size).0);
    if n > 0 {
      if start.cnt == 0 && start.off == pos && !Divides(PAGE, pos) {
        assert start == Win(false, pos, 0);
        LoopFromEmpty(pos, n, size);
      } else if Divides(PAGE, start.off) {
        LoopKeepsAligned(start, pos, n, size);
      } else {
        FetchOffset(start, pos, n, size);
        ReadLoopStep(start, pos, n, size);
        var (w2, c2) := AfterFetch(start, pos, n, size);
        LoopKeepsAligned(w2, pos + c2, n - c2, size);
      }
    }
  }
}
