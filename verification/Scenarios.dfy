/** Runs of one cached file: sequential reading, sequential writing, and the run in which a
    read returns the wrong bytes. */
module Scenarios {
  import opened ByteFile
  import opened Divisors
  import opened Window
  import opened FileCache
  import opened WindowLaws
  import opened SequentialAccess
  import opened Mount
  import opened Session

  /** Reads the first `pages` pages one at a time through a fresh cache of 2^k pages. */
  method ReadPages(content: seq<byte>, k: nat, pages: nat) returns (bytes: seq<byte>, calls: nat)
    ensures bytes == Slice(content, 0, pages * PAGE)
    ensures pages >= 1 ==> calls <= k + CeilDiv(pages, Pow2(k))
  {
    var size := PAGE * Pow2(k);
    PowerSized(k);
    hide Divides, Slice, ReadPlan, Pow2, Splice;
    var r := new RemoteFile(content, (n: nat) => false);
    var cache := new ShfsFile(size);
    bytes := [];
    calls := 0;
    NoBytes(content);
    for j := 0 to pages
      invariant fresh(r) && fresh(cache) && fresh(cache.data)
      invariant cache.Valid(r) && cache.data.Length == size && r.bytes == content
      invariant (forall n: nat :: !r.fails(n)) && !cache.dirty && Divides(PAGE, cache.offset)
      invariant |r.log| == calls && (cache.Window(), calls) == PageReads(j, size)
      invariant bytes == Slice(content, 0, j * PAGE)
    {
      var buffer := new byte[PAGE];
      ghost var w, blank := cache.Window(), buffer[..];
      AlignedIsExact(content, w, j * PAGE);
      var _ := cache.Read(r, j * PAGE, PAGE, buffer);
      SpliceWhole(blank, Slice(content, j * PAGE, PAGE));
      SliceJoin(content, 0, j * PAGE, PAGE);
      bytes := bytes + buffer[..];
      calls := |r.log|;
    }
    if pages >= 1 {
      SequentialReadBound(pages, k);
    }
  }

  lemma NoBytes(f: seq<byte>)
    ensures Slice(f, 0, 0) == []
    ensures Divides(PAGE, 0)
  {
  }

  lemma AlignedIsExact(f: seq<byte>, w: Win, from: nat)
    requires !w.dirty && Divides(PAGE, w.off)
    ensures Delivered(f, f, w, from, PAGE) == Slice(f, from, PAGE)
  {
    FloorOfPaged(w.off);
    ExactIff(w, from, PAGE);
  }

  function Lengths(pieces: seq<seq<byte>>): (r: seq<nat>)
    ensures |r| == |pieces|
  {
    seq(|pieces|, i requires 0 <= i < |pieces| => |pieces[i]|)
  }

  function Joined(pieces: seq<seq<byte>>): seq<byte> {
    if pieces == [] then [] else Joined(pieces[..|pieces| - 1]) + pieces[|pieces| - 1]
  }

  lemma PiecesStep(pieces: seq<seq<byte>>, j: nat, size: nat)
    requires Sized(size) && j < |pieces|
    ensures Sum(Lengths(pieces[..j + 1])) == Sum(Lengths(pieces[..j])) + |pieces[j]|
    ensures Joined(pieces[..j + 1]) == Joined(pieces[..j]) + pieces[j]
    ensures var before := PieceWrites(Lengths(pieces[..j]), size);
            var plan := WritePlan(before.w, before.isNew, Sum(Lengths(pieces[..j])), |pieces[j]|, size);
            PieceWrites(Lengths(pieces[..j + 1]), size)
              == Progress(plan.0, before.isNew && |pieces[j]| == 0, before.calls + plan.1)
  {
    hide WritePlan, Divides;
    assert pieces[..j + 1][..j] == pieces[..j];
    assert Lengths(pieces[..j + 1])[..j] == Lengths(pieces[..j]);
  }

  lemma {:induction false} JoinedLength(pieces: seq<seq<byte>>)
    ensures |Joined(pieces)| == Sum(Lengths(pieces))
  {
    if pieces != [] {
      JoinedLength(pieces[..|pieces| - 1]);
      assert Lengths(pieces)[..|pieces| - 1] == Lengths(pieces[..|pieces| - 1]);
    }
  }

  /** Writes `pieces` one after the other from position 0 on through a fresh cache, then syncs. */
  method WritePieces(content: seq<byte>, size: nat, pieces: seq<seq<byte>>)
    returns (remote: seq<byte>, calls: seq<Call>)
    requires Sized(size)
    ensures remote == Overlay(content, 0, Joined(pieces))
    ensures |Joined(pieces)| >= 1 ==>
              var m := FloorDiv(|Joined(pieces)| - 1, size);
              Flushes(calls) == Blocks(0, m, size) && |calls| == m + 1
  {
    hide Divides, Slice, Overlay, WritePlan, Flushes, Blocks, FloorDiv, PieceWrites, Joined, Sum;
    var r := new RemoteFile(content, (n: nat) => false);
    var cache := new ShfsFile(size);
    NoPieces(content, size);
    assert pieces[..0] == [];
    for j := 0 to |pieces|
      invariant fresh(r) && fresh(cache) && fresh(cache.data)
      invariant cache.Valid(r) && cache.data.Length == size && (forall n: nat :: !r.fails(n))
      invariant Progress(cache.Window(), cache.isNew, r.log) == PieceWrites(Lengths(pieces[..j]), size)
      invariant cache.Logical(r) == Overlay(content, 0, Joined(pieces[..j]))
    {
      PiecesStep(pieces, j, size);
      JoinedLength(pieces[..j]);
      OverlaySplit(content, 0, Joined(pieces[..j + 1]), |Joined(pieces[..j])|);
      var result, wrote := cache.Write(r, |Joined(pieces[..j])|, pieces[j]);
      assert pieces[j][..wrote] == pieces[j];
    }
    assert pieces[..|pieces|] == pieces;
    calls := r.log;
    var _ := cache.Sync(r);
    remote := r.bytes;
    JoinedLength(pieces);
    if |Joined(pieces)| >= 1 {
      SequentialWriteBound(Lengths(pieces), size);
    }
  }

  lemma NoPieces(content: seq<byte>, size: nat)
    requires Sized(size)
    ensures PieceWrites(Lengths([]), size) == Progress(Win(false, 0, 0), true, [])
    ensures Overlay(content, 0, Joined([])) == content
  {
  }

  // ---- the run that goes wrong

  /** The window after the two first steps of the run: it claims to start at 10 but holds page 0. */
  lemma SkewedPlan()
    ensures Sized(2 * PAGE)
    ensures ReadPlan(Win(true, 0, 10), 0, PAGE, 2 * PAGE).0 == Win(false, 10, PAGE)
  {
    DividesEnds(PAGE);
    DividesMul(PAGE, 2);
    CeilOfPaged(PAGE);
    var w := Win(false, 10, 0);
    assert PageFloor(10) == 0;
    assert Ahead(0, PAGE, 2 * PAGE) == PAGE;
    assert PlanFetch(w, 10, PAGE - 10, 2 * PAGE) == Fetch(0, PAGE, w);
    hide PlanFetch, Divides, PageFloor, ReadLoop;
    ReadLoopStep(w, 10, PAGE - 10, 2 * PAGE);
    LoopDone(Win(false, 10, PAGE), PAGE, 2 * PAGE);
  }

  /** A write that ends off a page boundary, then a read of the page it is in. */
  function Before(): seq<Op> {
    [Op.Write(0, true, 0, Zeros(10)), Op.Read(0, true, 0, PAGE)]
  }

  /** The run is one of a mount with a single file: after the two steps the next read hits a skewed
      window, and what it delivers differs from the file's bytes. */
  lemma RefinementFails()
    ensures Sized(2 * PAGE)
    ensures After(Unopened(1, 1), Before(), 2 * PAGE) == Positions([Held(Win(false, 10, PAGE), false)], 0)
    ensures Skews(After(Unopened(1, 1), Before(), 2 * PAGE), Op.Read(0, true, PAGE, 10))
    ensures var f := Marked(PAGE - 10);
            && Final([f], Before()) == [f]
            && Delivered(f, f, Win(false, 10, PAGE), PAGE, 10) != Slice(f, PAGE, 10)
  {
    SkewedPlan();
    WrittenTen();
    LateBytes();
    TenZeros(PAGE - 10);
    var size, f := 2 * PAGE, Marked(PAGE - 10);
    var p, ops := Unopened(1, 1), Before();
    hide ReadPlan, WritePlan, Overlay, Divides, Delivered, Slice, Marked, After, Move, Final;
    AfterNone(p, size);
    AfterStep(p, ops, size, 0);
    AfterStep(p, ops, size, 1);
    assert ops[..0] == [] && ops[..2] == ops;
    FinalNone([f]);
    FinalStep([f], ops, 0);
    FinalStep([f], ops, 1);
    TwoMoves();
  }

  lemma TwoMoves()
    ensures Sized(2 * PAGE)
    ensures var p := Positions([Held(Win(true, 0, 10), false)], 0);
            && AllFit(p, 2 * PAGE)
            && Move(Unopened(1, 1), Before()[0], 2 * PAGE) == p
            && Move(p, Before()[1], 2 * PAGE) == Positions([Held(Win(false, 10, PAGE), false)], 0)
  {
    SkewedPlan();
    WrittenTen();
    hide ReadPlan, WritePlan, Divides;
    DividesEnds(PAGE);
    assert |Zeros(10)| == 10;
    assert Unopened(1, 1).slots == [Empty];
  }

  /** Write ten bytes at 0, read page 0, read ten bytes of page 1: all remote calls succeed
      and the last read delivers bytes ten positions too early. */
  method WriteThenRead() returns (got: seq<byte>, want: seq<byte>)
    ensures var f := Marked(PAGE - 10);
            && got == Delivered(f, f, Win(false, 10, PAGE), PAGE, 10)
            && want == Slice(Final([f], Before())[0], PAGE, 10)
    ensures got != want
  {
    RefinementFails();
    SkewedPlan();
    var r := new RemoteFile(Marked(PAGE - 10), (n: nat) => false);
    var cache := new ShfsFile(2 * PAGE);
    var page := new byte[PAGE];
    var ten := new byte[10];
    TenZeros(PAGE - 10);
    FloorOfPaged(0);
    WrittenTen();
    hide Divides, Overlay, Splice, ReadPlan, WritePlan, Slice, PageFloor, Marked;
    ghost var content := Marked(PAGE - 10);
    var zeros := Zeros(10);
    assert zeros[..10] == zeros;
    var result, wrote := cache.Write(r, 0, zeros);
    var _ := cache.Read(r, 0, PAGE, page);
    ghost var w, blank := cache.Window(), ten[..];
    assert w == Win(false, 10, PAGE);
    var _ := cache.Read(r, PAGE, 10, ten);
    got := ten[..];
    want := Slice(Marked(PAGE - 10), PAGE, 10);
    SpliceWhole(blank, Delivered(content, content, w, PAGE, 10));
    LateBytes();
  }

  lemma TenZeros(at: nat)
    requires at >= 10
    ensures Overlay(Marked(at), 0, Zeros(10)) == Marked(at)
  {
  }

  lemma WrittenTen()
    ensures Sized(2 * PAGE) && WritePlan(Win(false, 0, 0), true, 0, 10, 2 * PAGE).0 == Win(true, 0, 10)
  {
    DividesMul(PAGE, 2);
  }

  lemma LateBytes()
    ensures var f := Marked(PAGE - 10);
            Delivered(f, f, Win(false, 10, PAGE), PAGE, 10) != Slice(f, PAGE, 10)
  {
    var f := Marked(PAGE - 10);
    assert PageFloor(10) == 0;
    assert Delivered(f, f, Win(false, 10, PAGE), PAGE, 10)[0] == At(f, PAGE - 10);
    assert Slice(f, PAGE, 10)[0] == At(f, PAGE);
  }
}
