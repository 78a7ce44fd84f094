/** Directory entries cached in pages behind a header, and readdir over that cache. */
module DirCache {
  import opened Divisors

  // ---- layout of the pages

  /** How many entry pointers fit in a page that starts with a header. */
  function FirstSize(slots: nat, pointer: nat, header: nat): nat
    requires pointer > 0 && header <= slots * pointer
  {
    (slots * pointer - header) / pointer
  }

  const PTR: nat := 8
  const HEADER: nat := 24
  const SIZE: nat := 4096 / PTR
  const START: nat := SIZE - FirstSize(SIZE, PTR, HEADER)

  /** The first slot used in page 0 lies behind the header, and no later than it must. */
  lemma StartClearsHeader(slots: nat, pointer: nat, header: nat)
    requires pointer > 0 && header <= slots * pointer
    ensures var start := slots - FirstSize(slots, pointer, header);
            0 <= start && header <= start * pointer < header + pointer
  {
    var first := FirstSize(slots, pointer, header);
    var r := (slots * pointer - header) % pointer;
    assert slots * pointer - header == pointer * first + r;
    assert (slots - first) * pointer == slots * pointer - first * pointer;
    MulOrder(pointer, slots + 1, first);
  }

  // ---- what is cached

  datatype Head = Head(end: nat, eof: bool)

  /** A page of the directory's page cache; a slot holds a dentry pointer that may be stale. */
  datatype Page = Page(uptodate: bool, head: Head, slots: seq<nat>)

  /** A dentry below the directory; `fpos` is its d_fsdata. */
  datatype Dentry = Dentry(name: string, fpos: nat, inode: bool)

  datatype Item = Item(name: string, off: nat)

  /** The complete directory, with the two entries that are not listed. */
  function Full(listing: seq<string>): (r: seq<string>)
    ensures |r| == |listing| + 2
  {
    [".", ".."] + listing
  }

  /** What a caller must get for positions `a` to `b - 1`. */
  function Items(listing: seq<string>, a: nat, b: nat): (r: seq<Item>)
    requires a <= b <= |listing| + 2
    ensures |r| == b - a
  {
    seq(b - a, i requires 0 <= i < b - a => Item(Full(listing)[a + i], a + i))
  }

  /** Position 0 is ".", position 1 "..", and from 2 on come the listed names. */
  lemma ItemsAre(listing: seq<string>, a: nat, b: nat)
    requires a <= b <= |listing| + 2
    ensures forall i :: 0 <= i < b - a ==>
              var p := a + i;
              Items(listing, a, b)[i] == Item(if p == 0 then "." else if p == 1 then ".." else listing[p - 2], p)
  {
    forall i | 0 <= i < b - a
      ensures Items(listing, a, b)[i].name
           == if a + i == 0 then "." else if a + i == 1 then ".." else listing[a + i - 2]
    {
      assert Full(listing)[a + i] == if a + i < 2 then [".", ".."][a + i] else listing[a + i - 2];
    }
  }

  lemma ItemsMore(listing: seq<string>, a: nat, b: nat)
    requires a <= b < |listing| + 2
    ensures Items(listing, a, b) + [Item(Full(listing)[b], b)] == Items(listing, a, b + 1)
  {
  }

  lemma ItemsJoin(listing: seq<string>, a: nat, b: nat, c: nat)
    requires a <= b <= c <= |listing| + 2
    ensures Items(listing, a, b) + Items(listing, b, c) == Items(listing, a, c)
  {
  }

  /** The caller's buffer: takes `room` more entries, then refuses. */
  class User {
    var room: nat
    var items: seq<Item>

    constructor (room: nat)
      ensures this.room == room && items == []
    {
      this.room, items := room, [];
    }

    method Filldir(name: string, off: nat) returns (full: bool)
      modifies this
      ensures full <==> old(room) == 0
      ensures room == if full then 0 else old(room) - 1
      ensures items == if full then old(items) else old(items) + [Item(name, off)]
    {
      full := room == 0;
      if !full {
        room := room - 1;
        items := items + [Item(name, off)];
      }
    }
  }

  /** An open directory. */
  class OpenDir {
    var pos: nat

    constructor ()
      ensures pos == 0
    {
      pos := 0;
    }
  }

  /** The state of a refill. */
  class Control {
    var fpos: nat
    var ofs: nat
    var idx: nat
    var filled: bool
    var valid: bool
    var mapped: bool    // a page is mapped to write to

    constructor ()
      ensures fpos == 2 && ofs == 0 && idx == START && !filled && valid && mapped
    {
      fpos, ofs, idx, filled, valid, mapped := 2, 0, START, false, true, true;
    }

    /** The writer's page and index denote the slot of the current position. */
    ghost predicate OnSlot()
      reads this
    {
      fpos >= 2 && ofs * SIZE + idx == fpos + START - 2 && idx <= SIZE && (ofs == 0 ==> idx >= START)
    }
  }

  /** The slot of position `p`: page number and index. */
  function PageOf(p: nat): nat
    requires p >= 2
  {
    (p + START - 2) / SIZE
  }

  function IndexOf(p: nat): (i: nat)
    requires p >= 2
    ensures i < SIZE
  {
    (p + START - 2) % SIZE
  }

  /** Counting pages and indices up, as the writer does, and dividing the position, as the
      reader does, name the same slot; no slot of an entry lies in the header. */
  lemma SlotAgrees(p: nat, ofs: nat, idx: nat)
    requires p >= 2 && idx < SIZE
    ensures ofs * SIZE + idx == p + START - 2 <==> ofs == PageOf(p) && idx == IndexOf(p)
    ensures PageOf(p) == 0 ==> IndexOf(p) >= START
  {
  }

  /** Position `p` can be served from these pages and dentries. */
  ghost predicate Stored(pages: map<nat, Page>, dentries: map<nat, Dentry>, p: nat)
    requires p >= 2
  {
    && PageOf(p) in pages && |pages[PageOf(p)].slots| == SIZE
    && var d := pages[PageOf(p)].slots[IndexOf(p)];
       d in dentries && dentries[d].fpos == p && dentries[d].inode
  }

  /** All positions below `upto` can, and all pages the writer left are complete. */
  ghost predicate Written(pages: map<nat, Page>, dentries: map<nat, Dentry>, upto: nat, ofs: nat) {
    && (forall p :: 2 <= p < upto ==> Stored(pages, dentries, p))
    && (forall g :: 0 < g < ofs ==> g in pages && pages[g].uptodate)
  }

  /** Entries that carry a position carry the right name. */
  ghost predicate Named(listing: seq<string>, dentries: map<nat, Dentry>) {
    forall d :: d in dentries && dentries[d].fpos >= 2 ==>
      dentries[d].fpos - 2 < |listing| && dentries[d].name == listing[dentries[d].fpos - 2]
  }

  /** No two entries of a directory have one name. */
  ghost predicate Distinct(listing: seq<string>) {
    forall i, j :: 0 <= i < j < |listing| ==> listing[i] != listing[j]
  }

  /** Writing the next entry keeps the earlier ones findable: their slots are others and, names
      being distinct, so are their dentries. */
  lemma WrittenStep(listing: seq<string>, pages: map<nat, Page>, dentries: map<nat, Dentry>,
                    pages': map<nat, Page>, dentries': map<nat, Dentry>,
                    fpos: nat, ofs: nat, ofs': nat, idx: nat, d: nat)
    requires Distinct(listing) && Named(listing, dentries) && Written(pages, dentries, fpos, ofs)
    requires 2 <= fpos < |listing| + 2 && idx < SIZE && ofs' * SIZE + idx == fpos + START - 2
    requires Grows(pages, pages') && ofs' in pages' && |pages'[ofs'].slots| == SIZE
    requires ofs' == ofs || (ofs' == ofs + 1 && (ofs > 0 ==> ofs in pages' && pages'[ofs].uptodate))
    requires d in dentries ==> dentries[d].name == listing[fpos - 2]
    requires d in dentries' && dentries'[d].fpos == fpos && dentries'[d].inode
    requires forall e :: e in dentries && e != d ==> e in dentries' && dentries'[e] == dentries[e]
    ensures Written(SetSlot(pages', ofs', idx, d), dentries', fpos + 1, ofs')
  {
    var after := SetSlot(pages', ofs', idx, d);
    SlotAgrees(fpos, ofs', idx);
    forall p | 2 <= p < fpos + 1 ensures Stored(after, dentries', p) {
      if p < fpos {
        KeptStored(listing, pages, dentries, pages', dentries', fpos, ofs', idx, d, p);
      }
    }
  }

  lemma KeptStored(listing: seq<string>, pages: map<nat, Page>, dentries: map<nat, Dentry>,
                   pages': map<nat, Page>, dentries': map<nat, Dentry>,
                   fpos: nat, ofs': nat, idx: nat, d: nat, p: nat)
    requires Distinct(listing) && Named(listing, dentries)
    requires 2 <= p < fpos < |listing| + 2 && Stored(pages, dentries, p)
    requires idx < SIZE && ofs' * SIZE + idx == fpos + START - 2
    requires Grows(pages, pages') && ofs' in pages' && |pages'[ofs'].slots| == SIZE
    requires d in dentries ==> dentries[d].name == listing[fpos - 2]
    requires forall e :: e in dentries && e != d ==> e in dentries' && dentries'[e] == dentries[e]
    ensures Stored(SetSlot(pages', ofs', idx, d), dentries', p)
  {
    SlotAgrees(p, ofs', idx);
    var e := pages[PageOf(p)].slots[IndexOf(p)];
    hide PageOf, IndexOf;
    assert dentries[e].name == listing[p - 2];
    assert e != d;
  }

  /** A directory inode: the remote listing behind it, its pages and its cached children. */
  class Dir {
    const listing: seq<string>
    const quiet: bool    // nothing is evicted and every entry gets an inode
    const roomy: bool    // no page allocation fails
    var pages: map<nat, Page>
    var dentries: map<nat, Dentry>
    var listings: nat    // listing commands sent so far

    constructor (listing: seq<string>, quiet: bool, roomy: bool)
      ensures this.listing == listing && this.quiet == quiet && this.roomy == roomy && Valid() && listings == 0
    {
      this.listing, this.quiet, this.roomy := listing, quiet, roomy;
      pages, dentries, listings := map[], map[], 0;
    }

    /** A dentry that carries a position is the entry of that position, and a complete header
        counts all entries. */
    ghost predicate Valid()
      reads this
    {
      && Named(listing, dentries)
      && (forall p :: p in pages ==> |pages[p].slots| == SIZE)
      && (0 in pages && pages[0].uptodate && pages[0].head.eof ==> pages[0].head.end == |listing| + 1)
    }

    /** Every position is found in its slot, on a complete page. */
    ghost predicate AllStored()
      reads this
    {
      forall p :: 2 <= p <= |listing| + 1 ==> Stored(pages, dentries, p) && pages[PageOf(p)].uptodate
    }

    /** The whole directory can be served from the cache. */
    ghost predicate Cached()
      reads this
    {
      Complete() && AllStored()
    }

    /** The header claims that the whole directory is cached. */
    predicate Complete()
      reads this
    {
      0 in pages && pages[0].uptodate && pages[0].head.eof
    }

    /** Memory pressure: any pages but the pinned ones and any dentries may go. */
    method Reclaim(pinned: set<nat>)
      requires Valid()
      modifies this`pages, this`dentries
      ensures Valid()
      ensures pages.Keys <= old(pages).Keys && (forall p :: p in pages ==> pages[p] == old(pages)[p])
      ensures dentries.Keys <= old(dentries).Keys && (forall d :: d in dentries ==> dentries[d] == old(dentries)[d])
      ensures forall p :: p in old(pages) && p in pinned ==> p in pages
      ensures quiet ==> pages == old(pages) && dentries == old(dentries) && Cached() == old(Cached())
    {
      if !quiet {
        var keepPages: set<nat>, keepDentries: set<nat> := *, *;
        pages := map p | p in pages && (p in keepPages || p in pinned) :: pages[p];
        dentries := map d | d in dentries && d in keepDentries :: dentries[d];
      }
    }

    /** The dentry a slot points to, if it still is a child of this directory at `fpos`. */
    method DgetFpos(dentry: nat, fpos: nat) returns (found: bool, name: string)
      requires Valid() && fpos >= 2
      ensures found <==> dentry in dentries && dentries[dentry].fpos == fpos && dentries[dentry].inode
      ensures found ==> fpos - 2 < |listing| && name == listing[fpos - 2]
    {
      found, name := false, "";
      if dentry in dentries && dentries[dentry].fpos == fpos && dentries[dentry].inode {
        found, name := true, dentries[dentry].name;
      }
    }

    /** Forgets the positions of all children. */
    method InvalidateEntries()
      requires Valid()
      modifies this`dentries
      ensures Valid() && dentries.Keys == old(dentries).Keys
      ensures forall d :: d in dentries ==> dentries[d].fpos == 0
    {
      dentries := map d | d in dentries :: dentries[d].(fpos := 0);
    }

    /** The child named `name`, allocated if there is none; it gets position `fpos` unless it
        has no inode and none can be made. */
    method Instantiate(name: string, fpos: nat) returns (d: nat)
      requires Valid() && fpos >= 2 && fpos - 2 < |listing| && name == listing[fpos - 2]
      modifies this`dentries
      ensures Valid()
      ensures d in dentries && dentries[d].name == name
      ensures dentries.Keys == old(dentries).Keys + {d}
      ensures forall e :: e in dentries && e != d ==> dentries[e] == old(dentries)[e]
      ensures d in old(dentries) ==> old(dentries)[d].name == name
      ensures quiet ==> dentries[d].fpos == fpos && dentries[d].inode
    {
      if e :| e in dentries && dentries[e].name == name {
        d := e;
      } else {
        d := NewPointer();
        dentries := dentries[d := Dentry(name, 0, false)];
      }
      var inode := *;
      if dentries[d].inode || inode || quiet {
        dentries := dentries[d := Dentry(name, fpos, true)];
      }
    }

    method NewPointer() returns (d: nat)
      ensures d !in dentries
    {
      SomePointerIsFree(dentries.Keys);
      d :| d !in dentries;
    }
  
    /** Locks page `ofs`, creating it with arbitrary contents when it is not cached. */
    method GrabPage(ofs: nat) returns (ok: bool)
      requires Valid() && ofs > 0
      modifies this`pages
      ensures Valid() && (roomy ==> ok)
      ensures ok <==> ofs in pages
      ensures pages.Keys == if ok then old(pages).Keys + {ofs} else old(pages).Keys
      ensures forall p :: p in old(pages) ==> p in pages && pages[p] == old(pages)[p]
    {
      var memory, garbage: nat, end: nat, eof := *, *, *, *;
      ok := ofs in pages || memory || roomy;
      if ok && ofs !in pages {
        pages := pages[ofs := Page(false, Head(end, eof), seq(SIZE, _ => garbage))];
      }
    }

    /** The writer does not go back, and no page it has been at appears. */
    ghost predicate NoneNew(ofs: nat, ofs0: nat, pages0: map<nat, Page>)
      reads this
    {
      ofs >= ofs0 && forall g :: g <= ofs0 && g in pages ==> g in pages0
    }

    /** Goes on to the next page when the current one is full. */
    method TurnPage(ctl: Control)
      requires Valid() && ctl.OnSlot() && 0 in pages && (ctl.mapped <==> ctl.ofs in pages)
      modifies this`pages, ctl`ofs, ctl`idx, ctl`mapped
      ensures Valid() && ctl.OnSlot() && ctl.idx < SIZE && (ctl.mapped <==> ctl.ofs in pages)
      ensures Grows(old(pages), pages)
      ensures NoneNew(ctl.ofs, old(ctl.ofs), old(pages))
      ensures roomy && old(ctl.mapped) ==> ctl.mapped
      ensures ctl.ofs == old(ctl.ofs) || (ctl.ofs == old(ctl.ofs) + 1 && old(ctl.idx) == SIZE)
      ensures ctl.ofs != old(ctl.ofs) && old(ctl.mapped) && old(ctl.ofs) > 0 ==> pages[old(ctl.ofs)].uptodate
    {
      if ctl.idx >= SIZE {
        if ctl.ofs > 0 && ctl.mapped {
          pages := pages[ctl.ofs := pages[ctl.ofs].(uptodate := true)];
        }
        ctl.mapped := false;
        ctl.idx := ctl.idx - SIZE;
        ctl.ofs := ctl.ofs + 1;
        ctl.mapped := GrabPage(ctl.ofs);
      }
    }

    /** Puts the dentry of the current position in its slot. */
    method StoreSlot(ctl: Control, d: nat) returns (stored: bool)
      requires Valid() && ctl.OnSlot() && ctl.idx < SIZE && (ctl.mapped <==> ctl.ofs in pages)
      modifies this`pages
      ensures Valid()
      ensures stored == ctl.mapped
      ensures pages == if stored then SetSlot(old(pages), ctl.ofs, ctl.idx, d) else old(pages)
    {
      if ctl.mapped {
        var page := pages[ctl.ofs];
        pages := pages[ctl.ofs := page.(slots := page.slots[ctl.idx := d])];
      }
      stored := ctl.mapped;
    }
  
    /** Makes the entry's dentry and writes it to its slot, unless the page for it is missing. */
    method Place(ctl: Control, name: string) returns (stored: bool)
      requires Valid() && ctl.OnSlot() && 0 in pages && (ctl.mapped <==> ctl.ofs in pages)
      requires ctl.fpos - 2 < |listing| && name == listing[ctl.fpos - 2]
      modifies this`pages, this`dentries, ctl`ofs, ctl`idx, ctl`mapped
      ensures Valid() && ctl.OnSlot() && ctl.idx < SIZE && (ctl.mapped <==> ctl.ofs in pages)
      ensures NoneNew(ctl.ofs, old(ctl.ofs), old(pages))
      ensures stored == ctl.mapped && (roomy && old(ctl.mapped) ==> stored)
      ensures 0 in pages && pages[0].head == old(pages)[0].head && pages[0].uptodate == old(pages)[0].uptodate
      ensures quiet && stored && Distinct(listing) && old(ctl.mapped && Written(pages, dentries, ctl.fpos, ctl.ofs)) ==>
                Written(pages, dentries, ctl.fpos + 1, ctl.ofs)
    {
      hide Written, Distinct, Stored;
      var d := Instantiate(name, ctl.fpos);
      ghost var dentries' := dentries;
      TurnPage(ctl);
      ghost var pages' := pages;
      stored := StoreSlot(ctl, d);
      if quiet && old(ctl.mapped) && stored && Distinct(listing) && old(Written(pages, dentries, ctl.fpos, ctl.ofs)) {
        WrittenStep(listing, old(pages), old(dentries), pages', dentries, ctl.fpos, old(ctl.ofs), ctl.ofs, ctl.idx, d);
      }
    }

    /** The caller got the entry if and only if it had refused none, waited for this one and had
        room. */
    ghost predicate Handed(ctl: Control, file: OpenDir, user: User, entry: Item,
                           filled: bool, pos: nat, room: nat, items: seq<Item>)
      reads ctl, file, user
    {
      if filled || entry.off != pos then
        ctl.filled == filled && file.pos == pos && user.room == room && user.items == items
      else if room == 0 then
        ctl.filled && file.pos == pos && user.room == 0 && user.items == items
      else
        !ctl.filled && file.pos == pos + 1 && user.room == room - 1 && user.items == items + [entry]
    }

    /** Hands the entry to the caller when it is the one the caller waits for. */
    method Deliver(ctl: Control, file: OpenDir, user: User, name: string)
      modifies ctl`filled, file, user
      ensures Handed(ctl, file, user, Item(name, ctl.fpos),
                     old(ctl.filled), old(file.pos), old(user.room), old(user.items))
    {
      if !ctl.filled && ctl.fpos == file.pos {
        ctl.filled := user.Filldir(name, file.pos);
        if !ctl.filled {
          file.pos := file.pos + 1;
        }
      }
    }

    /** Takes over one line of the listing: caches its entry, and delivers it when it is the
        one the caller waits for. */
    method FillCache(ctl: Control, file: OpenDir, user: User, name: string) returns (goOn: bool)
      requires Valid() && ctl.OnSlot() && 0 in pages && (ctl.mapped <==> ctl.ofs in pages)
      requires ctl.fpos - 2 < |listing| && name == listing[ctl.fpos - 2]
      modifies this`pages, this`dentries, ctl, file, user
      ensures Valid() && ctl.OnSlot() && ctl.fpos == old(ctl.fpos) + 1 && (ctl.mapped <==> ctl.ofs in pages)
      ensures 0 in pages
      ensures goOn <==> ctl.valid || !ctl.filled
      ensures ctl.valid <==> old(ctl.valid) && PageOf(old(ctl.fpos)) in pages
      ensures NoneNew(ctl.ofs, old(ctl.ofs), old(pages)) && PageOf(old(ctl.fpos)) == ctl.ofs
      ensures roomy && old(ctl.mapped) ==> ctl.mapped
      ensures Handed(ctl, file, user, Item(name, old(ctl.fpos)),
                     old(ctl.filled), old(file.pos), old(user.room), old(user.items))
      ensures quiet && ctl.mapped && Distinct(listing)
              && old(ctl.mapped && Written(pages, dentries, ctl.fpos, ctl.ofs)) ==>
                Written(pages, dentries, ctl.fpos, ctl.ofs)
    {
      hide PageOf, IndexOf, Written, Named, Distinct;
      var stored := Place(ctl, name);
      SlotAgrees(ctl.fpos, ctl.ofs, ctl.idx);
      if !stored {
        ctl.valid := false;
      }
      Deliver(ctl, file, user, name);
      ctl.fpos := ctl.fpos + 1;
      ctl.idx := ctl.idx + 1;
      goOn := ctl.valid || !ctl.filled;
    }

    /** Takes over the next line, whatever was evicted meanwhile. */
    method FillNext(ctl: Control, file: OpenDir, user: User, name: string, ghost lost: nat)
      returns (goOn: bool, ghost lost': nat)
      requires Valid() && ctl.OnSlot() && 0 in pages && (ctl.mapped <==> ctl.ofs in pages)
      requires ctl.fpos - 2 < |listing| && name == listing[ctl.fpos - 2] && FlagRight(ctl, lost)
      modifies this`pages, this`dentries, ctl, file, user
      ensures Valid() && ctl.OnSlot() && ctl.fpos == old(ctl.fpos) + 1 && (ctl.mapped <==> ctl.ofs in pages)
      ensures 0 in pages
      ensures goOn <==> ctl.valid || !ctl.filled
      ensures Handed(ctl, file, user, Item(name, old(ctl.fpos)),
                     old(ctl.filled), old(file.pos), old(user.room), old(user.items))
      ensures FlagRight(ctl, lost')
    {
      hide Stored, Written, PageOf, Distinct, Named, Handed;
      Reclaim(if ctl.mapped then {0, ctl.ofs} else {0});
      lost' := if ctl.valid then ctl.fpos else lost;
      goOn := FillCache(ctl, file, user, name);
    }

    /** Lists the remote directory, rebuilding the cache and delivering from the caller's
        position on until its buffer is full. If nothing is evicted meanwhile and every entry gets
        an inode, the header claims completeness exactly when every entry is in its slot, which
        only a missing page can prevent. */
    method Refill(file: OpenDir, user: User)
      requires Valid() && 0 in pages && 2 <= file.pos <= |listing| + 2
      modifies this`pages, this`dentries, this`listings, file, user
      ensures Valid() && 0 in pages && listings == old(listings) + 1
      ensures Delivered(old(file.pos), old(user.room), old(user.items), file, user)
      ensures quiet && Distinct(listing) && Complete() ==> AllStored()
      ensures AllStored() ==> Complete()
      ensures roomy ==> Complete()
    {
      hide Stored, Written, PageOf, Distinct, Named, Delivered;
      InvalidateEntries();
      var ctl := new Control();
      listings := listings + 1;
      StartWritten(pages, dentries);
      ghost var lost := ReadListing(ctl, file, user);
      Finish(ctl, Head(ctl.fpos - 1, ctl.valid), lost);
    }

    /** Reads the lines of a new listing, each into the cache and to the caller. */
    method ReadListing(ctl: Control, file: OpenDir, user: User) returns (ghost lost: nat)
      requires Valid() && 0 in pages && 2 <= file.pos <= |listing| + 2
      requires ctl.OnSlot() && ctl.fpos == 2 && ctl.ofs == 0 && ctl.mapped && ctl.valid && !ctl.filled
      requires Written(pages, dentries, 2, 0)
      modifies this`pages, this`dentries, ctl, file, user
      ensures Valid() && ctl.OnSlot() && 0 in pages && (ctl.mapped ==> ctl.ofs in pages)
      ensures ctl.fpos <= |listing| + 2 && (ctl.valid ==> ctl.fpos == |listing| + 2)
      ensures Delivered(old(file.pos), old(user.room), old(user.items), file, user)
      ensures FlagRight(ctl, lost)
    {
      hide Stored, Written, PageOf, Distinct, Named;
      NoItems(listing, file.pos, user.items);
      ghost var pos, room, items := file.pos, user.room, user.items;
      lost := 2;
      assert FlagRight(ctl, lost);
      hide FlagRight;
      var i := 0;
      while i < |listing|
        invariant Valid() && ctl.OnSlot() && 0 in pages && (ctl.mapped <==> ctl.ofs in pages)
        invariant i <= |listing| && ctl.fpos == i + 2
        invariant Partly(pos, room, items, file, user)
        invariant if ctl.filled then user.room == 0 else file.pos == if pos < ctl.fpos then ctl.fpos else pos
        invariant FlagRight(ctl, lost)
      {
        ItemsStep(listing, pos, file.pos, items);
        var goOn;
        goOn, lost := FillNext(ctl, file, user, listing[i], lost);
        if !goOn {
          break;
        }
        i := i + 1;
      }
    }

    /** The flag of a refill tells whether all entries so far are in their slots. */
    ghost predicate FlagRight(ctl: Control, lost: nat)
      reads this, ctl
    {
      && (roomy ==> ctl.valid)
      && (ctl.valid ==> ctl.mapped)
      && (quiet && Distinct(listing) && ctl.valid ==> Written(pages, dentries, ctl.fpos, ctl.ofs))
      && (!ctl.valid ==> Lost(lost, ctl.fpos, ctl.ofs))
    }

    /** The page of the listed position `p` is missing and will not come back. */
    ghost predicate Lost(p: nat, fpos: nat, ofs: nat)
      reads this
    {
      2 <= p < fpos && PageOf(p) <= ofs && PageOf(p) !in pages
    }

    /** Stores the header and marks the last pages complete. */
    method Finish(ctl: Control, head: Head, ghost lost: nat)
      requires 0 in pages && (ctl.mapped ==> ctl.ofs in pages) && (forall p :: p in pages ==> |pages[p].slots| == SIZE)
      requires Named(listing, dentries)
      requires head.eof ==> head.end == |listing| + 1
      requires !head.eof ==> Lost(lost, |listing| + 2, ctl.ofs)
      modifies this`pages
      ensures Valid() && 0 in pages && (Complete() <==> head.eof)
      ensures Grown(ctl, head, old(pages)) ==> AllStored()
      ensures !head.eof ==> !AllStored()
    {
      var pages0 := pages[0 := pages[0].(head := head, uptodate := true)];
      var pages1 := if ctl.mapped then pages0[ctl.ofs := pages0[ctl.ofs].(uptodate := true)] else pages0;
      if Grown(ctl, head, pages) {
        forall p | 2 <= p <= |listing| + 1 ensures Stored(pages1, dentries, p) && pages1[PageOf(p)].uptodate {
          assert Stored(pages, dentries, p);
          PageBound(p, ctl.fpos, ctl.ofs, ctl.idx);
        }
      }
      pages := pages1;
      assert !head.eof ==> !Stored(pages, dentries, lost);
    }

    /** The refill wrote every entry and its header says so. */
    ghost predicate Grown(ctl: Control, head: Head, pages: map<nat, Page>)
      reads this, ctl
    {
      && head.eof && ctl.mapped && ctl.OnSlot() && ctl.fpos == |listing| + 2
      && Written(pages, dentries, |listing| + 2, ctl.ofs)
    }

    /** From where the caller stood, it got the next entries in order, as many as its buffer
        took or all that were left. */
    ghost predicate Delivered(pos: nat, room: nat, items: seq<Item>, file: OpenDir, user: User)
      reads file, user
    {
      && pos <= file.pos <= |listing| + 2
      && file.pos == (if pos + room < |listing| + 2 then pos + room else |listing| + 2)
      && user.room == pos + room - file.pos
      && user.items == items + Items(listing, pos, file.pos)
    }
  
    /** So far the caller got entries in order and none was refused. */
    ghost predicate Partly(pos: nat, room: nat, items: seq<Item>, file: OpenDir, user: User)
      reads file, user
    {
      && pos <= file.pos <= |listing| + 2
      && user.room + file.pos == pos + room
      && user.items == items + Items(listing, pos, file.pos)
    }

    /** Serves the entry of one slot of a locked page. */
    method ServeSlot(ofs: nat, idx: nat, file: OpenDir, user: User) returns (status: Status)
      requires Valid() && 0 in pages && ofs in pages && idx < SIZE
      requires 2 <= file.pos <= |listing| + 1
      requires quiet && Cached() ==> ofs == PageOf(file.pos) && idx == IndexOf(file.pos)
      modifies this`pages, this`dentries, file, user
      ensures Valid() && 0 in pages && ofs in pages && (quiet ==> pages == old(pages) && dentries == old(dentries))
      ensures match status
              case Next => file.pos == old(file.pos) + 1 && user.room == old(user.room) - 1
                           && user.items == old(user.items) + [Item(listing[old(file.pos) - 2], old(file.pos))]
              case Finished => file.pos == old(file.pos) && old(user.room) == 0 && user.room == 0
                               && user.items == old(user.items)
              case Invalid => file.pos == old(file.pos) && user.room == old(user.room) && user.items == old(user.items)
      ensures quiet && old(Cached()) ==> status != Invalid
    {
      hide Named;
      assert Cached() ==> Stored(pages, dentries, file.pos);
      Reclaim({0, ofs});
      var found, name := DgetFpos(pages[ofs].slots[idx], file.pos);
      if !found {
        return Invalid;
      }
      var full := user.Filldir(name, file.pos);
      if full {
        return Finished;
      }
      file.pos := file.pos + 1;
      status := Next;
    }

    /** Serves entries from one locked page, from `start` on. */
    method ServePage(ofs: nat, start: nat, end: nat, file: OpenDir, user: User) returns (status: Status)
      requires Valid() && 0 in pages && ofs in pages && start < SIZE
      requires 2 <= file.pos <= end == |listing| + 1 && ofs * SIZE + start == file.pos + START - 2
      modifies this`pages, this`dentries, file, user
      ensures Valid() && 0 in pages && (quiet ==> pages == old(pages) && dentries == old(dentries))
      ensures Partly(old(file.pos), old(user.room), old(user.items), file, user)
      ensures status == Finished ==> user.room == 0 || file.pos == end + 1
      ensures status != Finished ==> file.pos <= end
      ensures status == Next ==> file.pos > old(file.pos) && (ofs + 1) * SIZE == file.pos + START - 2
      ensures quiet && old(Cached()) ==> status != Invalid
    {
      hide Named, Stored, Cached, PageOf, IndexOf;
      ghost var pos, room, items := file.pos, user.room, user.items;
      NoItems(listing, pos, items);
      var idx := start;
      while idx < SIZE
        invariant start <= idx <= SIZE && ofs * SIZE + idx == file.pos + START - 2
        invariant Valid() && 0 in pages && ofs in pages
        invariant quiet ==> pages == old(pages) && dentries == old(dentries)
        invariant quiet && old(Cached()) ==> Cached()
        invariant Partly(pos, room, items, file, user) && file.pos <= end
        invariant idx > start ==> file.pos > pos
      {
        SlotAgrees(file.pos, ofs, idx);
        ItemsStep(listing, pos, file.pos, items);
        status := ServeSlot(ofs, idx, file, user);
        if status != Next {
          return;
        }
        idx := idx + 1;
        if file.pos > end {
          return Finished;
        }
      }
      status := Next;
    }

    /** Serves from the cache, page after page, until the caller is done or the cache fails. */
    method ServeCached(end: nat, file: OpenDir, user: User) returns (valid: bool)
      requires Valid() && 0 in pages && 2 <= file.pos <= end == |listing| + 1
      modifies this`pages, this`dentries, file, user
      ensures Valid() && 0 in pages && (quiet ==> pages == old(pages) && dentries == old(dentries))
      ensures Partly(old(file.pos), old(user.room), old(user.items), file, user)
      ensures valid ==> user.room == 0 || file.pos == end + 1
      ensures quiet && old(Cached()) ==> valid
    {
      hide Named, Stored, Cached;
      ghost var pos, room, items := file.pos, user.room, user.items;
      NoItems(listing, pos, items);
      var ofs: nat := PageOf(file.pos);
      var idx: nat := IndexOf(file.pos);
      SlotAgrees(file.pos, ofs, idx);
      hide PageOf, IndexOf;
      while true
        invariant Valid() && 0 in pages && idx < SIZE && ofs * SIZE + idx == file.pos + START - 2
        invariant quiet ==> pages == old(pages) && dentries == old(dentries)
        invariant quiet && old(Cached()) ==> Cached()
        invariant Partly(pos, room, items, file, user) && file.pos <= end
        decreases end - file.pos
      {
        if ofs != 0 {
          Reclaim({0});
          CachedPage(this, file.pos, ofs, idx);
          if ofs !in pages || !pages[ofs].uptodate {
            return false;
          }
        }
        ghost var now, room', items' := file.pos, user.room, user.items;
        var status := ServePage(ofs, idx, end, file, user);
        PartlyJoin(listing, pos, now, file.pos, items);
        match status {
          case Finished => return true;
          case Invalid => return false;
          case Next =>
            idx, ofs := 0, ofs + 1;
        }
      }
    }
  
    /** A directory whose header claims completeness is completely cached, if nothing is ever
        evicted, every entry gets an inode and names are distinct. */
    ghost predicate Settled()
      reads this
    {
      quiet && Distinct(listing) && Complete() ==> AllStored()
    }

    /** The caller gets past the two entries that are not listed, and the cache is incomplete, or
        expired with the caller at the first listed entry. */
    ghost predicate ListsAnew(pos: nat, room: nat, expired: bool)
      reads this
    {
      pos + room >= 2 && (!Complete() || (pos <= 2 && expired))
    }

    /** The two entries that are not listed; `full` when the caller refused one. */
    method DotEntries(file: OpenDir, user: User) returns (full: bool)
      requires file.pos <= |listing| + 2
      modifies file, user
      ensures Partly(old(file.pos), old(user.room), old(user.items), file, user)
      ensures full ==> user.room == 0 && file.pos < 2
      ensures !full ==> file.pos >= 2 && (old(file.pos) <= 2 ==> file.pos == 2)
    {
      ghost var pos, room, items := file.pos, user.room, user.items;
      NoItems(listing, pos, items);
      FirstItems(listing, pos, items);
      full := false;
      if file.pos == 0 {
        full := user.Filldir(".", 0);
        if full {
          return;
        }
        file.pos := 1;
      }
      if file.pos == 1 {
        full := user.Filldir("..", 1);
        if full {
          return;
        }
        file.pos := 2;
      }
    }

    /** The listed entries: from the cache while it is complete, young and intact, else from a
        new listing. */
    method ListedEntries(file: OpenDir, user: User, expired: bool)
      requires Valid() && 2 <= file.pos <= |listing| + 2
      modifies this`pages, this`dentries, this`listings, file, user
      ensures Valid()
      ensures Delivered(old(file.pos), old(user.room), old(user.items), file, user)
      ensures listings <= old(listings) + 1
      ensures old(ListsAnew(file.pos, user.room, expired)) ==> listings == old(listings) + 1
      ensures old(Settled()) ==> Settled()
      ensures quiet && Distinct(listing) && listings > old(listings) ==> Settled()
      ensures quiet && roomy && Distinct(listing) && listings > old(listings) ==> Cached()
      ensures quiet && old(Cached()) && (!expired || old(file.pos) > 2) ==> listings == old(listings) && Cached()
    {
      hide Named, Stored, PageOf, AllStored, Distinct;
      ghost var pos, items := file.pos, user.items;
      CachedHead(this);
      GrabHeader();
      var head := pages[0].head;
      NoItems(listing, pos, items);
      if pages[0].uptodate && head.eof && !(file.pos == 2 && expired) {
        if file.pos > head.end {
          return;
        }
        var valid := ServeCached(head.end, file, user);
        if valid {
          return;
        }
      }
      ghost var mid := file.pos;
      Refill(file, user);
      PartlyJoin(listing, pos, mid, file.pos, items);
    }

    /** One readdir call. */
    method Readdir(file: OpenDir, user: User, expired: bool)
      requires Valid() && file.pos <= |listing| + 2
      modifies this`pages, this`dentries, this`listings, file, user
      ensures Valid()
      ensures Delivered(old(file.pos), old(user.room), old(user.items), file, user)
      ensures listings <= old(listings) + 1
      ensures old(ListsAnew(file.pos, user.room, expired)) ==> listings == old(listings) + 1
      ensures old(Settled()) ==> Settled()
      ensures quiet && Distinct(listing) && listings > old(listings) ==> Settled()
      ensures quiet && roomy && Distinct(listing) && listings > old(listings) ==> Cached()
      ensures quiet && old(Cached()) && (!expired || old(file.pos) > 2) ==> listings == old(listings) && Cached()
    {
      hide Named, Stored, PageOf, AllStored, Distinct;
      ghost var pos, items := file.pos, user.items;
      var full := DotEntries(file, user);
      if full {
        return;
      }
      ghost var mid := file.pos;
      ListedEntries(file, user, expired);
      PartlyJoin(listing, pos, mid, file.pos, items);
    }

    /** Locks page 0, creating it with arbitrary contents when it is not cached. */
    method GrabHeader()
      requires Valid()
      modifies this`pages
      ensures Valid() && 0 in pages
      ensures pages == if 0 in old(pages) then old(pages) else old(pages)[0 := pages[0]]
      ensures 0 !in old(pages) ==> !pages[0].uptodate
    {
      if 0 !in pages {
        var garbage: nat, end: nat, eof := *, *, *;
        pages := pages[0 := Page(false, Head(end, eof), seq(SIZE, _ => garbage))];
      }
    }
  }

  lemma FirstItems(listing: seq<string>, pos: nat, items: seq<Item>)
    requires pos <= |listing| + 2
    ensures pos == 0 ==> items + [Item(".", 0)] == items + Items(listing, 0, 1)
    ensures pos == 0 ==> items + [Item(".", 0)] + [Item("..", 1)] == items + Items(listing, 0, 2)
    ensures pos == 1 ==> items + [Item("..", 1)] == items + Items(listing, 1, 2)
  {
    assert Full(listing)[0] == "." && Full(listing)[1] == "..";
    assert Items(listing, 0, 1) == [Item(".", 0)];
    assert Items(listing, 1, 2) == [Item("..", 1)];
    ItemsJoin(listing, 0, 1, 2);
  }

  lemma CachedHead(dir: Dir)
    ensures dir.Cached() ==> 0 in dir.pages && dir.pages[0].uptodate && dir.pages[0].head.eof
  {
  }

  datatype Status = Finished | Invalid | Next

  lemma PartlyJoin(listing: seq<string>, a: nat, b: nat, c: nat, items: seq<Item>)
    requires a <= b <= c <= |listing| + 2
    ensures items + Items(listing, a, b) + Items(listing, b, c) == items + Items(listing, a, c)
  {
    ItemsJoin(listing, a, b, c);
  }

  lemma CachedPage(dir: Dir, pos: nat, ofs: nat, idx: nat)
    requires 2 <= pos <= |dir.listing| + 1 && idx < SIZE && ofs * SIZE + idx == pos + START - 2
    ensures dir.Cached() ==> ofs in dir.pages && dir.pages[ofs].uptodate
  {
    SlotAgrees(pos, ofs, idx);
    if dir.Cached() {
      assert Stored(dir.pages, dir.dentries, pos);
    }
  }

  /** The writer never stands before the page of an earlier entry. */
  lemma PageBound(p: nat, fpos: nat, ofs: nat, idx: nat)
    requires 2 <= p < fpos && ofs * SIZE + idx == fpos + START - 2 && idx <= SIZE
    ensures PageOf(p) <= ofs
  {
  }

  lemma StartWritten(pages: map<nat, Page>, dentries: map<nat, Dentry>)
    ensures Written(pages, dentries, 2, 0)
  {
  }

  lemma NoItems(listing: seq<string>, pos: nat, items: seq<Item>)
    requires pos <= |listing| + 2
    ensures items + Items(listing, pos, pos) == items
  {
  }

  lemma ItemsStep(listing: seq<string>, a: nat, b: nat, items: seq<Item>)
    requires a <= b <= |listing| + 2
    ensures 2 <= b < |listing| + 2 ==>
              items + Items(listing, a, b) + [Item(listing[b - 2], b)] == items + Items(listing, a, b + 1)
  {
    if 2 <= b < |listing| + 2 {
      ItemsMore(listing, a, b);
      assert Full(listing)[b] == listing[b - 2];
    }
  }

  /** No slot or header moves and no page goes. */
  ghost predicate Grows(a: map<nat, Page>, b: map<nat, Page>) {
    && (forall p :: p in a ==>
          p in b && b[p].slots == a[p].slots && b[p].head == a[p].head && (a[p].uptodate ==> b[p].uptodate))
    && (0 in a ==> b[0] == a[0])
  }

  function SetSlot(pages: map<nat, Page>, ofs: nat, idx: nat, d: nat): map<nat, Page>
    requires ofs in pages && idx < |pages[ofs].slots|
  {
    pages[ofs := pages[ofs].(slots := pages[ofs].slots[idx := d])]
  }

  lemma SomePointerIsFree(used: set<nat>)
    ensures exists d: nat :: d !in used
  {
    var top := Bound(used);
    assert top !in used;
  }

  lemma {:induction false} Bound(used: set<nat>) returns (top: nat)
    ensures forall d :: d in used ==> d < top
  {
    if used == {} {
      top := 0;
    } else {
      var d :| d in used;
      top := Bound(used - {d});
      assert forall e :: e in used && e != d ==> e in used - {d};
      top := if top > d then top else d + 1;
    }
  }

  function TotalRoom(rooms: seq<nat>): nat {
    if rooms == [] then 0 else TotalRoom(rooms[..|rooms| - 1]) + rooms[|rooms| - 1]
  }

  /** Scans a directory from its start with one call per element of `rooms`, whatever is evicted
      between and during the calls: the caller gets the first entries of the directory, each
      once and in order, as many as its buffers take. When nothing is evicted, no allocation
      fails, names are distinct and the cache stays young, one listing serves the whole scan. */
  method Scan(listing: seq<string>, quiet: bool, roomy: bool, rooms: seq<nat>, expired: seq<bool>)
    returns (items: seq<Item>, listings: nat)
    requires |expired| == |rooms|
    ensures |items| == if TotalRoom(rooms) < |listing| + 2 then TotalRoom(rooms) else |listing| + 2
    ensures forall p :: 0 <= p < |items| ==>
              items[p] == Item(if p == 0 then "." else if p == 1 then ".." else listing[p - 2], p)
    ensures quiet && roomy && Distinct(listing) && true !in expired ==> listings <= 1
  {
    var dir := new Dir(listing, quiet, roomy);
    var file := new OpenDir();
    hide Dir.Valid, Dir.Cached, Distinct;
    items := [];
    NoItems(listing, 0, []);
    assert rooms[..0] == [];
    for k := 0 to |rooms|
      invariant fresh(dir) && fresh(file) && dir.Valid()
      invariant dir.listing == listing && dir.quiet == quiet && dir.roomy == roomy
      invariant file.pos == if TotalRoom(rooms[..k]) < |listing| + 2 then TotalRoom(rooms[..k]) else |listing| + 2
      invariant items == Items(listing, 0, file.pos)
      invariant quiet && roomy && Distinct(listing) && true !in expired ==>
                  dir.listings == 0 || (dir.listings == 1 && dir.Cached())
    {
      ghost var pos := file.pos;
      dir.Reclaim({});
      var user := new User(rooms[k]);
      dir.Readdir(file, user, expired[k]);
      ItemsJoin(listing, 0, pos, file.pos);
      items := items + user.items;
      assert rooms[..k + 1][..k] == rooms[..k];
    }
    assert rooms[..|rooms|] == rooms;
    ItemsAre(listing, 0, |items|);
    listings := dir.listings;
  }
}
