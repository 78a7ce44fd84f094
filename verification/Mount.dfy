/** Many files sharing a fixed number of cache slots, and runs over them. */
module Mount {
  import opened ByteFile
  import opened Divisors
  import opened Window
  import opened FileCache
  import opened WindowLaws

  // ---- positions only: what each operation does to a file's slot

  /** A file without a cache, or one with its window and its `new` flag. */
  datatype Slot = Empty | Held(w: Win, isNew: bool) {
    predicate Fits(size: nat) {
      Held? ==> w.Fits(size)
    }

    /** The window a read meets; a file without a cache answers like an empty one. */
    function Window(): Win {
      if Held? then w else Win(false, 0, 0)
    }

    /** There are bytes that a sync would store. */
    predicate Unsaved() {
      Held? && w.dirty && w.cnt > 0
    }

    /** A read would be served from a skewed window. */
    predicate SkewedHit(from: nat, n: nat) {
      Held? && w.Skew() != 0 && w.Hit(from, n) != 0
    }
  }

  /** A file without a cache takes a free slot; it stays without when memory runs out. */
  function Alloc(slot: Slot, free: int, memory: bool): (Slot, int) {
    if slot.Held? || free <= 0 then (slot, free)
    else (if memory then Held(Win(false, 0, 0), true) else Empty, free - 1)
  }

  function AfterRead(slot: Slot, from: nat, n: nat, size: nat): Slot
    requires Sized(size) && slot.Fits(size)
  {
    if slot.Empty? then Empty else slot.(w := ReadPlan(slot.w, from, n, size).0)
  }

  function AfterWrite(slot: Slot, from: nat, n: nat, size: nat): Slot
    requires Sized(size) && slot.Fits(size)
  {
    if slot.Empty? then Empty
    else Held(WritePlan(slot.w, slot.isNew, from, n, size).0, slot.isNew && n == 0)
  }

  function AfterSync(slot: Slot): Slot {
    if slot.Unsaved() then slot.(w := Win(false, slot.w.off, 0)) else slot
  }

  function AfterClear(slot: Slot): Slot {
    if slot.Held? && !slot.w.dirty then slot.(w := slot.w.(cnt := 0)) else slot
  }

  lemma AllocFits(slot: Slot, free: int, memory: bool, size: nat)
    requires Sized(size) && slot.Fits(size)
    ensures Alloc(slot, free, memory).0.Fits(size)
  {
    DividesEnds(PAGE);
  }

  /** The superblock's share of the file cache: buffer size and free slots. */
  class Slots {
    const size: nat
    var free: int
    ghost var lost: nat    // slots taken by allocations that then failed

    constructor (size: nat, max: int)
      ensures this.size == size && free == max && lost == 0
    {
      this.size, free, lost := size, max, 0;
    }

    /** Takes a slot; when memory runs out afterwards the slot is not given back. */
    method Alloc(memory: bool) returns (cache: ShfsFile?)
      requires Sized(size)
      modifies this
      ensures cache == null <==> old(free) <= 0 || !memory
      ensures free == if old(free) <= 0 then old(free) else old(free) - 1
      ensures lost == old(lost) + if old(free) > 0 && !memory then 1 else 0
      ensures cache != null ==>
                && fresh(cache) && fresh(cache.data) && cache.data.Length == size
                && cache.Window() == Win(false, 0, 0) && cache.isNew
    {
      if free <= 0 {
        return null;
      }
      free := free - 1;
      if !memory {
        lost := lost + 1;
        return null;
      }
      cache := new ShfsFile(size);
    }

    method Free()
      modifies this`free
      ensures free == old(free) + 1
    {
      free := free + 1;
    }
  }

  /** A regular file of the mount: its remote side and, while it holds a slot, its cache. */
  class Inode {
    const size: nat
    const remote: RemoteFile
    var cache: ShfsFile?

    ghost function Repr(): set<object>
      reads this
    {
      {this, remote} + if cache == null then {} else {cache, cache.data}
    }

    ghost predicate Valid()
      reads this, Repr()
    {
      && Sized(size)
      && (cache != null ==> cache.data.Length == size && cache.Valid(remote))
    }

    ghost function Logical(): seq<byte>
      requires Valid()
      reads this, Repr()
    {
      if cache == null then remote.bytes else cache.Logical(remote)
    }

    /** What a read leaves of the file: all of it, unless it flushes a dirty window and that fails. */
    ghost function Surviving(from: nat, n: nat): seq<byte>
      requires Valid()
      reads this, Repr()
    {
      var w := Slot().Window();
      if w.dirty && w.Hit(from, n) < n && remote.fails(|remote.log|) then remote.bytes else Logical()
    }

    /** The cache has all of the `n` bytes at `from`. */
    predicate CacheHolds(from: nat, n: nat)
      reads this, Repr()
    {
      cache != null && cache.Inside(from, n)
    }

    ghost function Live(): nat
      reads this
    {
      if cache == null then 0 else 1
    }

    /** Every remote call of this file succeeds. */
    ghost predicate Reliable() {
      forall k: nat :: !remote.fails(k)
    }

    function Slot(): Slot
      reads this, Repr()
    {
      if cache == null then Empty else Held(cache.Window(), cache.isNew)
    }

    /** A read now would be served from a skewed window. */
    predicate SkewedHit(from: nat, n: nat)
      reads this, Repr()
    {
      Slot().SkewedHit(from, n)
    }

    /** The window, if there is one, is clean and starts on a page. */
    ghost predicate Tame()
      reads this, Repr()
    {
      cache != null ==> !cache.dirty && Divides(PAGE, cache.offset)
    }

    constructor (size: nat, remote: RemoteFile)
      requires Sized(size)
      ensures this.size == size && this.remote == remote && cache == null
      ensures Valid() && Repr() == {this, remote} && Logical() == remote.bytes
    {
      this.size, this.remote := size, remote;
      cache := null;
    }

    method Open(slots: Slots, memory: bool)
      requires slots.size == size && Valid()
      modifies this`cache, slots
      ensures Valid() && fresh(Repr() - old(Repr()))
      ensures Logical() == old(Logical())
      ensures slots.free + slots.lost + Live() == old(slots.free + slots.lost + Live())
      ensures old(slots.free) >= 0 ==> slots.free >= 0
      ensures old(Tame()) ==> Tame()
      ensures (Slot(), slots.free) == Alloc(old(Slot()), old(slots.free), memory)
      ensures old(cache) != null ==> cache == old(cache)
    {
      if cache == null {
        DividesEnds(PAGE);
        hide Divides;
        cache := slots.Alloc(memory);
      }
    }

    method ReadCached(from: nat, n: nat, buffer: array<byte>) returns (result: int)
      requires cache != null && Valid() && buffer !in Repr() && n <= buffer.Length
      modifies Repr(), buffer
      ensures Valid() && cache == old(cache)
      ensures Logical() == old(Surviving(from, n))
      ensures result >= 0 ==>
                && result == n
                && buffer[..] == Splice(old(buffer[..]), 0,
                                        Delivered(old(Logical()), Logical(), old(Slot()).Window(), from, n))
      ensures result < 0 ==> |remote.log| > |old(remote.log)| && remote.fails(|remote.log| - 1)
      ensures old(Tame()) ==> Tame()
      ensures old(CacheHolds(from, n)) ==>
                && result == n && remote.log == old(remote.log) && remote.bytes == old(remote.bytes)
                && Slot() == old(Slot()) && Logical() == old(Logical())
                && buffer[..n] == old(cache.data[from - cache.offset..from - cache.offset + n])
      ensures old(CacheHolds(from, 0)) && !old(CacheHolds(from, n)) ==>
                var k := old(cache.offset + cache.count) - from;
                k < n && buffer[..k] == old(cache.data[from - cache.offset..cache.count])
      ensures result >= 0 ==> Slot() == AfterRead(old(Slot()), from, n, size)
    {
      hide Divides, Splice, Slice, Delivered, ReadPlan, Overlay;
      result := cache.Read(remote, from, n, buffer);
    }

    /** The read itself: through the cache, or straight from the remote side. */
    method ReadThrough(slots: Slots, memory: bool, from: nat, n: nat, buffer: array<byte>) returns (result: int)
      requires slots.size == size && Valid() && buffer !in Repr() && n <= buffer.Length
      modifies Repr(), slots, buffer
      ensures Valid() && fresh(Repr() - old(Repr()))
      ensures slots.free + slots.lost + Live() == old(slots.free + slots.lost + Live())
      ensures old(slots.free) >= 0 ==> slots.free >= 0
      ensures old(Tame()) ==> Tame()
      ensures Logical() == old(Surviving(from, n))
      ensures result >= 0 ==>
                && result == n
                && buffer[..] == Splice(old(buffer[..]), 0,
                                        Delivered(old(Logical()), Logical(), old(Slot()).Window(), from, n))
      ensures result < 0 ==> |remote.log| > |old(remote.log)| && remote.fails(|remote.log| - 1)
      ensures old(CacheHolds(from, n)) ==>
                && result == n && remote.log == old(remote.log) && remote.bytes == old(remote.bytes)
                && Slot() == old(Slot()) && Logical() == old(Logical())
                && buffer[..n] == old(cache.data[from - cache.offset..from - cache.offset + n])
      ensures old(CacheHolds(from, 0)) && !old(CacheHolds(from, n)) ==>
                var k := old(cache.offset + cache.count) - from;
                k < n && buffer[..k] == old(cache.data[from - cache.offset..cache.count])
      ensures Reliable() ==> Logical() == old(Logical()) && result == n
      ensures Reliable() ==>
                && Alloc(old(Slot()), old(slots.free), memory).0.Fits(size)
                && Slot() == AfterRead(Alloc(old(Slot()), old(slots.free), memory).0, from, n, size)
                && slots.free == Alloc(old(Slot()), old(slots.free), memory).1
    {
      assert cache == null ==> !CacheHolds(from, n) && !CacheHolds(from, 0);
      hide Divides, Splice, Slice, Delivered, ReadPlan, CacheHolds;
      if cache == null {
        Open(slots, memory);
        if cache == null {
          result := remote.Read(from, n, buffer, 0);
          return;
        }
      }
      result := ReadCached(from, n, buffer);
    }

    /** Reads through the cache, or straight from the remote side when no slot is to be had. */
    method Read(slots: Slots, memory: bool, from: nat, n: nat, buffer: array<byte>) returns (result: int)
      requires slots.size == size && Valid() && buffer !in Repr() && n <= buffer.Length
      modifies Repr(), slots, buffer
      ensures Valid() && fresh(Repr() - old(Repr()))
      ensures slots.free + slots.lost + Live() == old(slots.free + slots.lost + Live())
      ensures old(slots.free) >= 0 ==> slots.free >= 0
      ensures old(Tame()) ==> Tame()
      ensures Logical() == old(Surviving(from, n))
      ensures result >= 0 ==>
                && result == n
                && buffer[..] == Splice(old(buffer[..]), 0,
                                        Delivered(old(Logical()), Logical(), old(Slot()).Window(), from, n))
      ensures result < 0 ==> |remote.log| > |old(remote.log)| && remote.fails(|remote.log| - 1)
      ensures old(CacheHolds(from, n)) ==>
                && result == n && remote.log == old(remote.log) && remote.bytes == old(remote.bytes)
                && Slot() == old(Slot()) && Logical() == old(Logical())
                && buffer[..n] == old(cache.data[from - cache.offset..from - cache.offset + n])
      ensures old(CacheHolds(from, 0)) && !old(CacheHolds(from, n)) ==>
                var k := old(cache.offset + cache.count) - from;
                k < n && buffer[..k] == old(cache.data[from - cache.offset..cache.count])
      ensures Reliable() ==> Logical() == old(Logical()) && result == n
      ensures Reliable() ==>
                && Alloc(old(Slot()), old(slots.free), memory).0.Fits(size)
                && Slot() == AfterRead(Alloc(old(Slot()), old(slots.free), memory).0, from, n, size)
                && slots.free == Alloc(old(Slot()), old(slots.free), memory).1
      ensures Reliable() && !old(SkewedHit(from, n)) ==>
                buffer[..] == Splice(old(buffer[..]), 0, Slice(old(Logical()), from, n))
    {
      ExactIff(Slot().Window(), from, n);
      hide Divides, Splice, Slice, Delivered, CacheHolds, Valid, Logical, Surviving, Live, AfterRead, Alloc;
      result := ReadThrough(slots, memory, from, n, buffer);
    }

    /** A read into the middle of a buffer. */
    method ReadAt(slots: Slots, memory: bool, from: nat, n: nat, page: array<byte>, at: nat) returns (result: int)
      requires slots.size == size && Valid() && page !in Repr() && at + n <= page.Length
      modifies Repr(), slots, page
      ensures Valid() && fresh(Repr() - old(Repr())) && page !in Repr()
      ensures result < 0 ==> |remote.log| > |old(remote.log)| && remote.fails(|remote.log| - 1)
      ensures Logical() == old(Surviving(from, n))
      ensures result >= 0 ==>
                && result == n
                && page[..] == Splice(old(page[..]), at,
                                      Delivered(old(Logical()), Logical(), old(Slot()).Window(), from, n))
      ensures Reliable() ==> Logical() == old(Logical()) && result == n
    {
      hide Divides, Splice, Slice, Overlay, PageFloor, Delivered, Win.Skew, Win.Hit;
      var part := new byte[n];
      ghost var blank, before, w := part[..], Logical(), Slot().Window();
      result := Read(slots, memory, from, n, part);
      if result >= 0 {
        SpliceWhole(blank, Delivered(before, Logical(), w, from, n));
        Put(page, at, part[..]);
      }
    }

    /** Reads until a page is full or nothing comes; the rest is zeros. */
    method FillPage(slots: Slots, memory: bool, index: nat, page: array<byte>) returns (result: int)
      requires slots.size == size && Valid() && page !in Repr() && page.Length == PAGE
      modifies Repr(), slots, page
      ensures Valid() && fresh(Repr() - old(Repr()))
      ensures result <= 0
      ensures Logical() == old(Surviving(index * PAGE, PAGE))
      ensures result == 0 ==> page[..] == Delivered(old(Logical()), Logical(), old(Slot()).Window(), index * PAGE, PAGE)
      ensures result < 0 ==> |remote.log| > |old(remote.log)| && remote.fails(|remote.log| - 1)
      ensures Reliable() ==> result == 0 && Logical() == old(Logical())
    {
      hide Divides, Splice, Slice, Overlay, PageFloor, Delivered, Win.Skew, Win.Hit, Reliable, Surviving;
      ghost var w, before := Slot().Window(), Logical();
      var offset: nat, count: nat, done: nat := index * PAGE, PAGE, 0;
      while count > 0
        invariant Valid() && fresh(Repr() - old(Repr())) && page !in Repr()
        invariant offset == index * PAGE + done && done + count == PAGE && (count == PAGE || count == 0)
        invariant Reliable() ==> Logical() == before
        invariant count == 0 ==> Logical() == old(Surviving(index * PAGE, PAGE))
        invariant count == PAGE ==> Surviving(offset, count) == old(Surviving(index * PAGE, PAGE))
        invariant count == PAGE ==> Slot() == old(Slot()) && remote.log == old(remote.log) && Logical() == before
        invariant count == 0 ==> page[..] == Delivered(before, Logical(), w, index * PAGE, PAGE)
        decreases count
      {
        ghost var b := page[..];
        result := ReadAt(slots, memory, offset, count, page, done);
        if result < 0 {
          return;
        }
        SpliceWhole(b, Delivered(before, Logical(), w, offset, PAGE));
        count := count - result;
        offset := offset + result;
        done := done + result;
        if result == 0 {
          break;
        }
      }
      ZeroFill(page, done);
      result := 0;
    }

    /** Fills a page of the page cache: with the file's bytes, unless a skewed window is hit or the
        flush of a dirty window fails. */
    method ReadPage(slots: Slots, memory: bool, index: nat, page: array<byte>) returns (result: int)
      requires slots.size == size && Valid() && page !in Repr() && page.Length == PAGE
      modifies Repr(), slots, page
      ensures Valid() && fresh(Repr() - old(Repr()))
      ensures result <= 0
      ensures Logical() == old(Surviving(index * PAGE, PAGE))
      ensures result == 0 ==> page[..] == Delivered(old(Logical()), Logical(), old(Slot()).Window(), index * PAGE, PAGE)
      ensures result < 0 ==> |remote.log| > |old(remote.log)| && remote.fails(|remote.log| - 1)
      ensures Reliable() ==> result == 0 && Logical() == old(Logical())
      ensures Reliable() && !old(SkewedHit(index * PAGE, PAGE)) ==>
                page[..] == Slice(old(Logical()), index * PAGE, PAGE)
    {
      hide Divides, Splice, Slice, Overlay, PageFloor, Delivered, Inode.Valid, Inode.Logical, Surviving;
      ExactIff(Slot().Window(), index * PAGE, PAGE);
      result := FillPage(slots, memory, index, page);
    }

    /** Writes through the cache, or straight to the remote side. */
    method Write(slots: Slots, memory: bool, from: nat, src: seq<byte>) returns (result: int, ghost wrote: nat)
      requires slots.size == size && Valid()
      modifies Repr(), slots
      ensures Valid() && fresh(Repr() - old(Repr()))
      ensures slots.free + slots.lost + Live() == old(slots.free + slots.lost + Live())
      ensures old(slots.free) >= 0 ==> slots.free >= 0
      ensures wrote <= |src| && Logical() == Overlay(old(Logical()), from, src[..wrote])
      ensures result == if |remote.log| > |old(remote.log)| && remote.fails(|remote.log| - 1) then -1 else wrote
      ensures wrote < |src| ==> exists k :: |old(remote.log)| <= k < |remote.log| && remote.fails(k)
      ensures Reliable() ==> result == |src| && Logical() == Overlay(old(Logical()), from, src)
      ensures Reliable() ==>
                && Alloc(old(Slot()), old(slots.free), memory).0.Fits(size)
                && Slot() == AfterWrite(Alloc(old(Slot()), old(slots.free), memory).0, from, |src|, size)
                && slots.free == Alloc(old(Slot()), old(slots.free), memory).1
    {
      hide Divides, Splice, Slice, Overlay, WritePlan, PageFloor;
      if cache == null {
        Open(slots, memory);
        if cache == null {
          OverlayNone(remote.bytes, from, remote.bytes, from);
          result := remote.Write(from, src);
          wrote := if result < 0 then 0 else |src|;
          assert src[..|src|] == src && src[..0] == [];
          return;
        }
      }
      result, wrote := cache.Write(remote, from, src);
      assert src[..|src|] == src;
    }

    /** Brings the remote file up to date; if that fails the dirty bytes are lost. */
    method Sync() returns (result: int)
      requires Valid()
      modifies Repr()
      ensures Valid() && cache == old(cache) && Slot() == AfterSync(old(Slot()))
      ensures Logical() == remote.bytes == if result == 0 then old(Logical()) else old(remote.bytes)
      ensures result == if old(Slot().Unsaved()) && remote.fails(|old(remote.log)|) then -1 else 0
      ensures old(Tame()) ==> Tame()
    {
      hide Divides, Slice, Overlay, PageFloor;
      if cache == null {
        return 0;
      }
      result := cache.Sync(remote);
    }

    /** Syncs and, if that worked, gives the slot back. A close that fails keeps the slot, but its
        dirty bytes are lost already, so closing again succeeds without them. */
    method Close(slots: Slots) returns (result: int)
      requires slots.size == size && Valid()
      modifies Repr(), slots
      ensures Valid() && fresh(Repr() - old(Repr()))
      ensures slots.free + slots.lost + Live() == old(slots.free + slots.lost + Live())
      ensures old(slots.free) >= 0 ==> slots.free >= 0
      ensures result == 0 ==> slots.free == old(slots.free) + old(Live())
      ensures result == 0 ==> cache == null
      ensures result != 0 ==> cache == old(cache) && slots.free == old(slots.free) && !Slot().Unsaved()
      ensures Logical() == remote.bytes == if result == 0 then old(Logical()) else old(remote.bytes)
      ensures result == if old(Slot().Unsaved()) && remote.fails(|old(remote.log)|) then -1 else 0
      ensures old(Tame()) ==> Tame()
    {
      hide Divides, Slice, Overlay, PageFloor;
      result := Sync();
      if result == 0 {
        if cache == null {
          return;
        }
        slots.Free();
        cache := null;
      }
    }

    /** Forgets what was read ahead. */
    method Clear()
      requires Valid()
      modifies Repr()
      ensures Valid() && cache == old(cache) && Slot() == AfterClear(old(Slot()))
      ensures Logical() == old(Logical())
      ensures old(Tame()) ==> Tame()
    {
      hide Divides, Slice, Overlay, PageFloor;
      if cache != null {
        cache.Clear(remote);
      }
    }
  }

  /** memset of the end of a buffer. */
  method ZeroFill(dst: array<byte>, at: nat)
    requires at <= dst.Length
    modifies dst
    ensures dst[..] == old(dst[..at]) + Zeros(dst.Length - at)
    ensures at == dst.Length ==> dst[..] == old(dst[..])
  {
    forall k | at <= k < dst.Length {
      dst[k] := 0;
    }
  }
}
