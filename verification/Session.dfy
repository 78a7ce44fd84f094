/** Whole runs: any sequence of file operations on a mount gives what plain byte arrays give. */
module Session {
  import opened ByteFile
  import opened Divisors
  import opened Window
  import opened FileCache
  import opened Mount

  /** An operation on file number `f`; `memory` says whether a buffer could be allocated. */
  datatype Op =
    | Open(f: nat, memory: bool)
    | Read(f: nat, memory: bool, from: nat, n: nat)
    | Write(f: nat, memory: bool, from: nat, src: seq<byte>)
    | Sync(f: nat)
    | Clear(f: nat)
    | Close(f: nat)

  /** What the caller sees. After a sync or a close that is the remote file. */
  datatype Out = Done | Bytes(bytes: seq<byte>) | Wrote(n: int) | Remote(bytes: seq<byte>)

  // ---- the specification: files are byte arrays and nothing else exists

  function StepOne(content: seq<byte>, op: Op): seq<byte> {
    if op.Write? then Overlay(content, op.from, op.src) else content
  }

  function AnswerOne(content: seq<byte>, op: Op): Out {
    match op
    case Read(_, _, from, n) => Bytes(Slice(content, from, n))
    case Write(_, _, _, src) => Wrote(|src|)
    case Sync(_) => Remote(content)
    case Close(_) => Remote(content)
    case _ => Done
  }

  function Step(files: seq<seq<byte>>, op: Op): (r: seq<seq<byte>>)
    requires op.f < |files|
    ensures |r| == |files|
  {
    files[op.f := StepOne(files[op.f], op)]
  }

  function Answer(files: seq<seq<byte>>, op: Op): Out
    requires op.f < |files|
  {
    AnswerOne(files[op.f], op)
  }

  predicate OpsFor(ops: seq<Op>, files: nat) {
    forall k :: 0 <= k < |ops| ==> ops[k].f < files
  }

  function Final(files: seq<seq<byte>>, ops: seq<Op>): (r: seq<seq<byte>>)
    requires OpsFor(ops, |files|)
    ensures |r| == |files|
  {
    if ops == [] then files
    else Step(Final(files, ops[..|ops| - 1]), ops[|ops| - 1])
  }

  // ---- positions: where the windows stand, from the operations alone

  /** The slots of all files and the number of free ones. */
  datatype Positions = Positions(slots: seq<Slot>, free: int)

  predicate AllFit(p: Positions, size: nat) {
    forall i :: 0 <= i < |p.slots| ==> p.slots[i].Fits(size)
  }

  function MoveOne(slot: Slot, free: int, op: Op, size: nat): (r: (Slot, int))
    requires Sized(size) && slot.Fits(size)
    ensures r.0.Fits(size)
  {
    DividesEnds(PAGE);
    match op
    case Open(_, memory) => Alloc(slot, free, memory)
    case Read(_, memory, from, n) =>
      AllocFits(slot, free, memory, size);
      var (s, left) := Alloc(slot, free, memory);
      (AfterRead(s, from, n, size), left)
    case Write(_, memory, from, src) =>
      AllocFits(slot, free, memory, size);
      var (s, left) := Alloc(slot, free, memory);
      (AfterWrite(s, from, |src|, size), left)
    case Sync(_) => (AfterSync(slot), free)
    case Clear(_) => (AfterClear(slot), free)
    case Close(_) => (Empty, if slot.Held? then free + 1 else free)
  }

  function Move(p: Positions, op: Op, size: nat): (r: Positions)
    requires Sized(size) && AllFit(p, size) && op.f < |p.slots|
    ensures AllFit(r, size) && |r.slots| == |p.slots|
  {
    var (slot, free) := MoveOne(p.slots[op.f], p.free, op, size);
    Positions(p.slots[op.f := slot], free)
  }

  function After(p: Positions, ops: seq<Op>, size: nat): (r: Positions)
    requires Sized(size) && AllFit(p, size) && OpsFor(ops, |p.slots|)
    ensures AllFit(r, size) && |r.slots| == |p.slots|
  {
    if ops == [] then p
    else Move(After(p, ops[..|ops| - 1], size), ops[|ops| - 1], size)
  }

  /** The operation is a read that hits a skewed window. */
  predicate Skews(p: Positions, op: Op)
    requires op.f < |p.slots|
  {
    op.Read? && p.slots[op.f].SkewedHit(op.from, op.n)
  }

  /** No file has a cache yet. */
  function Unopened(files: nat, max: nat): (p: Positions)
    ensures |p.slots| == files && forall size :: AllFit(p, size)
  {
    Positions(seq(files, _ => Empty), max)
  }

  function HeldCount(slots: seq<Slot>): nat {
    if slots == [] then 0 else (if slots[0].Held? then 1 else 0) + HeldCount(slots[1..])
  }

  lemma {:induction false} HeldUpdate(s: seq<Slot>, i: nat, x: Slot)
    requires i < |s|
    ensures HeldCount(s[i := x]) + (if s[i].Held? then 1 else 0) == HeldCount(s) + (if x.Held? then 1 else 0)
  {
    if i == 0 {
      assert s[0 := x][1..] == s[1..];
    } else {
      HeldUpdate(s[1..], i - 1, x);
      assert s[i := x][1..] == s[1..][i - 1 := x];
    }
  }

  lemma {:induction false} NoneHeld(s: seq<Slot>)
    requires forall i :: 0 <= i < |s| ==> s[i].Empty?
    ensures HeldCount(s) == 0
  {
    if s != [] {
      NoneHeld(s[1..]);
    }
  }

  // ---- the mounted files

  class System {
    const slots: Slots
    const files: seq<Inode>
    const max: nat

    ghost function Footprint(): set<object>
      reads files
    {
      set i: int, o: object | 0 <= i < |files| && o in files[i].Repr() :: o
    }

    ghost predicate Sound(i: nat)
      requires i < |files|
      reads files, Footprint()
    {
      files[i].Valid() && files[i].size == slots.size && files[i].Reliable()
    }

    ghost predicate Apart()
      reads files, Footprint()
    {
      forall i, j :: 0 <= i < j < |files| ==> files[i].Repr() !! files[j].Repr()
    }

    ghost predicate Valid()
      reads slots, files, Footprint()
    {
      && (forall i :: 0 <= i < |files| ==> Sound(i))
      && Apart()
    }

    ghost predicate Holds(contents: seq<seq<byte>>)
      reads files, Footprint()
    {
      && |contents| == |files|
      && forall i :: 0 <= i < |files| ==> Sound(i) && files[i].Logical() == contents[i]
    }

    /** The windows stand as `p` says, and free slots, live windows and slots lost to failed
        allocations add up to the maximum. */
    ghost predicate Accounts(p: Positions)
      reads slots, files, Footprint()
    {
      && |p.slots| == |files| && AllFit(p, slots.size)
      && (forall i :: 0 <= i < |files| ==> p.slots[i] == files[i].Slot())
      && p.free == slots.free >= 0
      && p.free + slots.lost + HeldCount(p.slots) == max
    }

    ghost predicate Tame()
      reads files, Footprint()
    {
      forall i :: 0 <= i < |files| ==> files[i].Tame()
    }

    constructor (slots: Slots, files: seq<Inode>, max: nat)
      requires slots.free == max && slots.lost == 0
      requires forall i :: 0 <= i < |files| ==>
                 files[i].Valid() && files[i].size == slots.size && files[i].Reliable() && files[i].cache == null
      requires forall i, j :: 0 <= i < j < |files| ==> files[i].Repr() !! files[j].Repr()
      ensures this.slots == slots && this.files == files && this.max == max
      ensures Valid() && Tame() && Accounts(Unopened(|files|, max))
    {
      this.slots, this.files, this.max := slots, files, max;
      new;
      NoneHeld(Unopened(|files|, max).slots);
    }

    /** The operation itself; nothing of any other file moves. */
    method Touch(op: Op) returns (out: Out, skewed: bool)
      requires op.f < |files| && Apart() && Sound(op.f) && files[op.f].Slot().Fits(slots.size)
      modifies slots, Footprint()
      ensures Apart() && Sound(op.f)
      ensures fresh(Footprint() - old(Footprint()))
      ensures files[op.f].Logical() == StepOne(old(files[op.f].Logical()), op)
      ensures !skewed ==> out == AnswerOne(old(files[op.f].Logical()), op)
      ensures old(files[op.f].Tame()) && !op.Write? ==> files[op.f].Tame() && !skewed
      ensures skewed == (op.Read? && old(files[op.f].SkewedHit(op.from, op.n)))
      ensures (files[op.f].Slot(), slots.free) == MoveOne(old(files[op.f].Slot()), old(slots.free), op, slots.size)
      ensures slots.free + slots.lost + files[op.f].Live() == old(slots.free + slots.lost + files[op.f].Live())
      ensures old(slots.free) >= 0 ==> slots.free >= 0
      ensures forall j :: 0 <= j < |files| && j != op.f ==>
                && (old(Sound(j)) ==> Sound(j) && files[j].Logical() == old(files[j].Logical()))
                && files[j].Slot() == old(files[j].Slot())
                && files[j].Tame() == old(files[j].Tame())
    {
      hide StepOne, AnswerOne, Inode.Logical, Inode.Tame, Inode.Live, MoveOne;
      var f := op.f;
      out, skewed := DoOne(slots, files[f], op);
      forall j | 0 <= j < |files| && j != f
        ensures files[j].Repr() == old(files[j].Repr())
        ensures old(Sound(j)) ==> Sound(j) && files[j].Logical() == old(files[j].Logical())
        ensures files[j].Slot() == old(files[j].Slot()) && files[j].Tame() == old(files[j].Tame())
      {
        if j < f { assert old(files[j].Repr() !! files[f].Repr()); }
        assert old(files[j].Repr() !! files[f].Repr());
      }
    }

    method Do(op: Op, ghost contents: seq<seq<byte>>, ghost p: Positions) returns (out: Out, skewed: bool)
      requires Valid() && Holds(contents) && Accounts(p) && op.f < |files| && Sized(slots.size)
      modifies slots, Footprint()
      ensures Valid() && Holds(Step(contents, op)) && Accounts(Move(p, op, slots.size))
      ensures fresh(Footprint() - old(Footprint()))
      ensures skewed == Skews(p, op)
      ensures !skewed ==> out == Answer(contents, op)
      ensures old(Tame()) && !op.Write? ==> Tame() && !skewed
    {
      hide HeldCount, StepOne, AnswerOne, Inode.Logical, Inode.Tame, Inode.Live, Apart, Sound, Footprint, Inode.Repr,
           MoveOne, Inode.Slot, Slot.SkewedHit, Slot.Fits;
      HeldUpdate(p.slots, op.f, MoveOne(p.slots[op.f], p.free, op, slots.size).0);
      LiveIsHeld(files[op.f]);
      out, skewed := Touch(op);
      LiveIsHeld(files[op.f]);
    }
  }

  lemma LiveIsHeld(file: Inode)
    ensures file.Live() == if file.Slot().Held? then 1 else 0
  {
  }

  // ---- one operation on one file

  method DoOne(slots: Slots, file: Inode, op: Op) returns (out: Out, skewed: bool)
    requires file.Valid() && file.size == slots.size && file.Reliable() && file.Slot().Fits(slots.size)
    modifies file.Repr(), slots
    ensures file.Valid() && fresh(file.Repr() - old(file.Repr()))
    ensures (file.Slot(), slots.free) == MoveOne(old(file.Slot()), old(slots.free), op, slots.size)
    ensures file.Logical() == StepOne(old(file.Logical()), op)
    ensures !skewed ==> out == AnswerOne(old(file.Logical()), op)
    ensures old(file.Tame()) && !op.Write? ==> file.Tame() && !skewed
    ensures skewed == (op.Read? && old(file.SkewedHit(op.from, op.n)))
    ensures slots.free + slots.lost + file.Live() == old(slots.free + slots.lost + file.Live())
    ensures old(slots.free) >= 0 ==> slots.free >= 0
  {
    hide Overlay, Slice, Divides, PageFloor, Splice, AfterRead, AfterWrite, AfterSync, AfterClear, Alloc;
    hide Slot.Fits, Slot.SkewedHit;
    skewed := false;
    out := Done;
    match op {
      case Open(_, memory) =>
        file.Open(slots, memory);
      case Read(_, memory, from, n) =>
        out, skewed := ReadOne(slots, file, memory, from, n);
      case Write(_, memory, from, src) =>
        var result, _ := file.Write(slots, memory, from, src);
        out := Wrote(result);
      case Sync(_) =>
        var _ := file.Sync();
        out := Remote(file.remote.bytes);
      case Clear(_) =>
        file.Clear();
      case Close(_) =>
        var _ := file.Close(slots);
        out := Remote(file.remote.bytes);
    }
  }

  method ReadOne(slots: Slots, file: Inode, memory: bool, from: nat, n: nat) returns (out: Out, skewed: bool)
    requires file.Valid() && file.size == slots.size && file.Reliable()
    modifies file.Repr(), slots
    ensures file.Valid() && fresh(file.Repr() - old(file.Repr()))
    ensures file.Logical() == old(file.Logical())
    ensures !skewed ==> out == Bytes(Slice(old(file.Logical()), from, n))
    ensures old(file.Tame()) ==> file.Tame() && !skewed
    ensures skewed == old(file.SkewedHit(from, n))
    ensures var (s, left) := Alloc(old(file.Slot()), old(slots.free), memory);
            s.Fits(slots.size) && file.Slot() == AfterRead(s, from, n, slots.size) && slots.free == left
    ensures slots.free + slots.lost + file.Live() == old(slots.free + slots.lost + file.Live())
    ensures old(slots.free) >= 0 ==> slots.free >= 0
  {
    TameIsUnskewed(file);
    hide Overlay, Slice, Divides, PageFloor, Splice, AfterRead, Alloc;
    skewed := file.SkewedHit(from, n);
    var buffer := new byte[n];
    ghost var blank := buffer[..];
    var _ := file.Read(slots, memory, from, n, buffer);
    out := Bytes(buffer[..]);
    SpliceWhole(blank, Slice(old(file.Logical()), from, n));
  }

  lemma TameIsUnskewed(file: Inode)
    ensures file.Tame() ==> file.cache == null || file.cache.Window().Skew() == 0
  {
    if file.cache != null && file.Tame() {
      FloorOfPaged(file.cache.offset);
    }
  }

  // ---- whole runs

  predicate ReadOnly(ops: seq<Op>) {
    forall k :: 0 <= k < |ops| ==> !ops[k].Write?
  }

  lemma FinalStep(contents: seq<seq<byte>>, ops: seq<Op>, k: nat)
    requires OpsFor(ops, |contents|) && k < |ops|
    ensures Final(contents, ops[..k + 1]) == Step(Final(contents, ops[..k]), ops[k])
  {
    assert ops[..k + 1][..k] == ops[..k];
  }

  lemma AfterStep(p: Positions, ops: seq<Op>, size: nat, k: nat)
    requires Sized(size) && AllFit(p, size) && OpsFor(ops, |p.slots|) && k < |ops|
    ensures After(p, ops[..k + 1], size) == Move(After(p, ops[..k], size), ops[k], size)
  {
    assert ops[..k + 1][..k] == ops[..k];
  }

  /** Runs `ops` one after the other; `contents` is what the files hold at the start. */
  method Run(sys: System, ops: seq<Op>, ghost contents: seq<seq<byte>>, ghost p: Positions)
    returns (outs: seq<Out>, skewed: seq<bool>)
    requires sys.Valid() && sys.Holds(contents) && sys.Accounts(p) && Sized(sys.slots.size)
    requires OpsFor(ops, |contents|) && |p.slots| == |contents| && AllFit(p, sys.slots.size)
    modifies sys.slots, sys.Footprint()
    ensures sys.Valid() && sys.Holds(Final(contents, ops)) && sys.Accounts(After(p, ops, sys.slots.size))
    ensures fresh(sys.Footprint() - old(sys.Footprint()))
    ensures |outs| == |skewed| == |ops|
    ensures forall k :: 0 <= k < |ops| ==> skewed[k] == Skews(After(p, ops[..k], sys.slots.size), ops[k])
    ensures forall k :: 0 <= k < |ops| && !skewed[k] ==> outs[k] == Answer(Final(contents, ops[..k]), ops[k])
    ensures old(sys.Tame()) && ReadOnly(ops) ==> forall k :: 0 <= k < |ops| ==> !skewed[k]
  {
    hide System.Valid, System.Holds, System.Accounts, System.Tame, System.Footprint, Final, Answer, Step;
    hide After, Move, AllFit, Skews;
    outs, skewed := [], [];
    FinalNone(contents);
    AfterNone(p, sys.slots.size);
    assert ops[..0] == [];
    for k := 0 to |ops|
      invariant sys.Valid() && sys.Holds(Final(contents, ops[..k]))
      invariant sys.Accounts(After(p, ops[..k], sys.slots.size))
      invariant forall o: object :: o in sys.Footprint() && o !in old(sys.Footprint()) ==> fresh(o)
      invariant |outs| == |skewed| == k
      invariant forall i :: 0 <= i < k ==> skewed[i] == Skews(After(p, ops[..i], sys.slots.size), ops[i])
      invariant forall i :: 0 <= i < k && !skewed[i] ==> outs[i] == Answer(Final(contents, ops[..i]), ops[i])
      invariant old(sys.Tame()) && ReadOnly(ops[..k]) ==> sys.Tame() && forall i :: 0 <= i < k ==> !skewed[i]
    {
      ReadOnlyPrefix(ops, k);
      FinalStep(contents, ops, k);
      AfterStep(p, ops, sys.slots.size, k);
      SameNumber(sys, Final(contents, ops[..k]));
      ghost var before := sys.Footprint();
      var out, skew := sys.Do(ops[k], Final(contents, ops[..k]), After(p, ops[..k], sys.slots.size));
      forall o: object | o in sys.Footprint() && o !in old(sys.Footprint()) ensures fresh(o) {
        assert o in before || o in sys.Footprint() - before;
        assert !old(allocated(o));
      }
      outs, skewed := outs + [out], skewed + [skew];
    }
    assert ops[..|ops|] == ops;
  }

  lemma AfterNone(p: Positions, size: nat)
    requires Sized(size) && AllFit(p, size)
    ensures After(p, [], size) == p
  {
  }

  lemma FinalNone(contents: seq<seq<byte>>)
    ensures Final(contents, []) == contents
  {
  }

  lemma ReadOnlyPrefix(ops: seq<Op>, k: nat)
    requires k < |ops|
    ensures ReadOnly(ops[..k + 1]) ==> ReadOnly(ops[..k]) && !ops[k].Write?
  {
    if ReadOnly(ops[..k + 1]) {
      assert ops[..k + 1][k] == ops[k];
      forall i | 0 <= i < k ensures !ops[..k][i].Write? {
        assert ops[..k + 1][i] == ops[..k][i];
      }
    }
  }

  lemma SameNumber(sys: System, contents: seq<seq<byte>>)
    requires sys.Holds(contents)
    ensures |sys.files| == |contents|
  {
  }

  // ---- from mounting to the last close

  /** Mounts files with the given remote contents, runs `ops` and closes every file. Each
      answer is the specification's unless it comes from a skewed window; which answers do is
      decided by the operations' positions alone, and none of a run without writes does. The
      remote files end as specified. */
  method MountAndRun(size: nat, max: nat, contents: seq<seq<byte>>, ops: seq<Op>)
    returns (outs: seq<Out>, skewed: seq<bool>, remotes: seq<seq<byte>>)
    requires Sized(size) && OpsFor(ops, |contents|)
    ensures |outs| == |skewed| == |ops|
    ensures forall k :: 0 <= k < |ops| ==> skewed[k] == Skews(After(Unopened(|contents|, max), ops[..k], size), ops[k])
    ensures forall k :: 0 <= k < |ops| && !skewed[k] ==> outs[k] == Answer(Final(contents, ops[..k]), ops[k])
    ensures ReadOnly(ops) ==> forall k :: 0 <= k < |ops| ==> !skewed[k]
    ensures remotes == Final(contents, ops)
  {
    hide System.Valid, System.Holds, System.Accounts, System.Tame, System.Footprint, Final, Answer, Step, ReadOnly;
    hide After, Move, AllFit, Skews;
    var sys := Mounted(size, max, contents);
    SameNumber(sys, contents);
    ghost var p := Unopened(|sys.files|, max);
    outs, skewed := Run(sys, ops, contents, p);
    remotes := CloseAll(sys, Final(contents, ops), After(p, ops, size));
  }

  method Mounted(size: nat, max: nat, contents: seq<seq<byte>>) returns (sys: System)
    requires Sized(size)
    ensures fresh(sys.slots) && fresh(sys.Footprint()) && sys.max == max && sys.slots.size == size
    ensures sys.Valid() && sys.Holds(contents) && sys.Tame()
    ensures sys.Accounts(Unopened(|sys.files|, max))
  {
    var slots := new Slots(size, max);
    var files := MakeFiles(size, contents);
    sys := new System(slots, files, max);
  }

  method CloseAll(sys: System, ghost contents: seq<seq<byte>>, ghost p0: Positions)
    returns (remotes: seq<seq<byte>>)
    requires sys.Valid() && sys.Holds(contents) && sys.Accounts(p0) && Sized(sys.slots.size)
    modifies sys.slots, sys.Footprint()
    ensures remotes == contents
  {
    hide System.Valid, System.Holds, System.Accounts, System.Tame, System.Footprint, Move, AllFit;
    ghost var p := p0;
    SameNumber(sys, contents);
    remotes := [];
    for f := 0 to |sys.files|
      invariant sys.Valid() && sys.Holds(contents) && sys.Accounts(p)
      invariant forall o: object :: o in sys.Footprint() && o !in old(sys.Footprint()) ==> fresh(o)
      invariant remotes == contents[..f]
    {
      ghost var before := sys.Footprint();
      assert Step(contents, Close(f)) == contents;
      AccountsFit(sys, p);
      var out, skew := sys.Do(Close(f), contents, p);
      p := Move(p, Close(f), sys.slots.size);
      forall o: object | o in sys.Footprint() && o !in old(sys.Footprint()) ensures fresh(o) {
        assert o in before || o in sys.Footprint() - before;
        assert !old(allocated(o));
      }
      remotes := remotes + [out.bytes];
    }
  }

  lemma AccountsFit(sys: System, p: Positions)
    requires sys.Accounts(p)
    ensures AllFit(p, sys.slots.size) && |p.slots| == |sys.files| && HeldCount(p.slots) <= sys.max
  {
  }

  method MakeFiles(size: nat, contents: seq<seq<byte>>) returns (files: seq<Inode>)
    requires Sized(size)
    ensures |files| == |contents|
    ensures forall i :: 0 <= i < |files| ==>
              && files[i].Valid() && files[i].size == size && files[i].Reliable() && files[i].cache == null
              && fresh(files[i].Repr()) && files[i].Logical() == contents[i]
    ensures forall i, j :: 0 <= i < j < |files| ==> files[i].Repr() !! files[j].Repr()
  {
    files := [];
    for k := 0 to |contents|
      invariant |files| == k
      invariant forall i :: 0 <= i < k ==>
                  && files[i].Valid() && files[i].size == size && files[i].Reliable() && files[i].cache == null
                  && fresh(files[i].Repr()) && files[i].Logical() == contents[i]
      invariant forall i, j :: 0 <= i < j < k ==> files[i].Repr() !! files[j].Repr()
    {
      var remote := new RemoteFile(contents[k], (n: nat) => false);
      var file := new Inode(size, remote);
      files := files + [file];
    }
  }
}
