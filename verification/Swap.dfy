/**
 The swap area of Memory-Swap-xv6/pageswap.c on top of the page tables: pages go out to slots of
 eight disk blocks and come back, and all the while every page reads the same.
 */
module Swap {
  import opened PageTables
  import opened AddressSpaces
  import Blocks
  import Vm

  const SWAP_BLOCKS_PER_PAGE := 8
  const SWAP_BLOCK_START := 2
  const BLOCK_WORDS := 128        // words of a frame that fill one block

  // page_perm and is_free of a swap slot.
  datatype SwapSlot = SwapSlot(perm: int, free: bool)

  // ---- Pages as blocks -------------------------------------------------------------------

  function ByteOf(w: Word, j: nat): Blocks.byte
    requires j < 4
  {
    if j == 0 then w % 0x100
    else if j == 1 then w / 0x100 % 0x100
    else if j == 2 then w / 0x1_0000 % 0x100
    else w / 0x100_0000
  }

  // The i-th 512 bytes of a frame.
  function Image(page: Page, i: nat): Blocks.Block
    requires i < SWAP_BLOCKS_PER_PAGE
  {
    seq(512, k requires 0 <= k < 512 => ByteOf(page[BLOCK_WORDS * i + k / 4], k % 4))
  }

  lemma ImageWord(page: Page, i: nat, j: nat)
    requires i < SWAP_BLOCKS_PER_PAGE && j < BLOCK_WORDS
    ensures Blocks.GetWord(Image(page, i), j) == page[BLOCK_WORDS * i + j]
  {
    var w := page[BLOCK_WORDS * i + j];
    var b := Image(page, i);
    assert b[4 * j] == ByteOf(w, 0) && b[4 * j + 1] == ByteOf(w, 1);
    assert b[4 * j + 2] == ByteOf(w, 2) && b[4 * j + 3] == ByteOf(w, 3);
    Blocks.WordBytes(w);
  }

  function SlotBlock(s: int, i: int): int {
    SWAP_BLOCK_START + s * SWAP_BLOCKS_PER_PAGE + i
  }

  predicate DiskOk(disk: seq<Blocks.Block>, total: nat) {
    |disk| >= SWAP_BLOCK_START + total * SWAP_BLOCKS_PER_PAGE
  }

  // The page the eight blocks of slot s hold.
  function PageAt(disk: seq<Blocks.Block>, s: nat): Page
    requires DiskOk(disk, s + 1)
  {
    seq(ENTRIES, k requires 0 <= k < ENTRIES =>
      Blocks.GetWord(disk[SlotBlock(s, k / BLOCK_WORDS)], k % BLOCK_WORDS))
  }

  // ---- Which slot belongs to which page -----------------------------------------------------

  // Not present, but naming a slot.
  predicate IsSwapped(e: Word) {
    !Present(e) && e != 0
  }

  datatype Owned = Owned(dir: int, page: int)
  type Holders = map<int, Owned>

  // A swapped entry names a slot in use that it alone holds,
  predicate EntryOk(mem: Mem, owner: Owners, slots: seq<SwapSlot>, holder: Holders, d: int, v: int) {
    IsDir(owner, d) && 0 <= v < UPAGES && IsSwapped(Pte(mem, d, v)) ==>
      var s := Frame(Pte(mem, d, v));
      0 <= s < |slots| && !slots[s].free && s in holder && holder[s] == Owned(d, v)
  }

  // and a held slot is named by that entry. A leaked slot is in use without an entry.
  predicate SlotOk(mem: Mem, owner: Owners, slots: seq<SwapSlot>, holder: Holders, leaked: set<int>, s: int) {
    && (s in holder ==>
          var o := holder[s];
          && 0 <= s < |slots| && !slots[s].free && s !in leaked && IsDir(owner, o.dir) && 0 <= o.page < UPAGES
          && IsSwapped(Pte(mem, o.dir, o.page)) && Frame(Pte(mem, o.dir, o.page)) == s)
    && (s in leaked ==> 0 <= s < |slots| && !slots[s].free)
    && (0 <= s < |slots| && !slots[s].free ==> s in holder || s in leaked)
  }

  // Each slot in use, except the leaked ones, is named by exactly one swapped entry.
  ghost predicate Exclusive(mem: Mem, owner: Owners, slots: seq<SwapSlot>, holder: Holders, leaked: set<int>) {
    && (forall d, v :: EntryOk(mem, owner, slots, holder, d, v))
    && (forall s :: SlotOk(mem, owner, slots, holder, leaked, s))
  }

  // ---- What a page reads as, in memory or swapped out ---------------------------------------

  function WithP(perm: int): int {
    if perm % 2 == 1 then perm else perm + 1
  }

  datatype View = None | Some(look: Look)

  // Flags and contents of page v of space d, wherever it is.
  function Virtual(mem: Mem, slots: seq<SwapSlot>, disk: seq<Blocks.Block>, d: int, v: int): View
    requires DiskOk(disk, |slots|)
  {
    var e := Pte(mem, d, v);
    if Present(e) then
      if Frame(e) in mem then Some(Look(Flags(e), mem[Frame(e)])) else None
    else if e != 0 && Frame(e) < |slots| then
      Some(Look(WithP(slots[Frame(e)].perm), PageAt(disk, Frame(e))))
    else None
  }

  predicate SameView(mem: Mem, slots: seq<SwapSlot>, disk: seq<Blocks.Block>,
                     mem': Mem, slots': seq<SwapSlot>, disk': seq<Blocks.Block>, owner: Owners, d: int, v: int)
    requires DiskOk(disk, |slots|) && DiskOk(disk', |slots'|)
  {
    IsDir(owner, d) && 0 <= v < UPAGES ==> Virtual(mem', slots', disk', d, v) == Virtual(mem, slots, disk, d, v)
  }

  ghost predicate SameViews(mem: Mem, slots: seq<SwapSlot>, disk: seq<Blocks.Block>,
                            mem': Mem, slots': seq<SwapSlot>, disk': seq<Blocks.Block>, owner: Owners)
    requires DiskOk(disk, |slots|) && DiskOk(disk', |slots'|)
  {
    forall d, v :: SameView(mem, slots, disk, mem', slots', disk', owner, d, v)
  }

  // ---- Paging out -----------------------------------------------------------------------------

  // The entry that names slot s with the flags of e.
  function SwapEntry(s: int, e: Word): (w: Word)
    requires 0 <= s < PAGES && Present(e)
    ensures !Present(w) && Frame(w) == s && Flags(w) == Flags(e) - 1
  {
    s * PGSIZE + Flags(e) - 1
  }

  // Exactly the eight blocks of slot s may differ.
  predicate OnlySlot(disk: seq<Blocks.Block>, disk': seq<Blocks.Block>, s: int) {
    |disk'| == |disk|
    && forall b | 0 <= b < |disk| && !(SlotBlock(s, 0) <= b < SlotBlock(s + 1, 0)) :: disk'[b] == disk[b]
  }

  lemma OtherSlotKept(disk: seq<Blocks.Block>, disk': seq<Blocks.Block>, s: int, r: nat)
    requires OnlySlot(disk, disk', s) && r != s && DiskOk(disk, r + 1)
    ensures PageAt(disk', r) == PageAt(disk, r)
  {
    forall k | 0 <= k < ENTRIES
      ensures PageAt(disk', r)[k] == PageAt(disk, r)[k]
    {
      var b := SlotBlock(r, k / BLOCK_WORDS);
      assert !(SlotBlock(s, 0) <= b < SlotBlock(s + 1, 0));
    }
  }

  // The eight images of a page make up the page.
  lemma ImagesHold(disk: seq<Blocks.Block>, s: nat, page: Page)
    requires DiskOk(disk, s + 1)
    requires forall i | 0 <= i < SWAP_BLOCKS_PER_PAGE :: disk[SlotBlock(s, i)] == Image(page, i)
    ensures PageAt(disk, s) == page
  {
    forall k | 0 <= k < ENTRIES
      ensures PageAt(disk, s)[k] == page[k]
    {
      ImageWord(page, k / BLOCK_WORDS, k % BLOCK_WORDS);
    }
  }

  // Page v of d is written to free slot s; its frame is released.
  lemma OutMatched(mem: Mem, owner: Owners, d: int, v: int, t: int, w: Word)
    requires Matched(mem, owner) && PteAt(mem, owner, d, v, t) && v < UPAGES && Present(Pte(mem, d, v)) && !Present(w)
    ensures var f := Frame(Pte(mem, d, v)); f in owner && f in mem && f != t && Owns(owner, f, User(d, v))
    ensures var f := Frame(Pte(mem, d, v));
      Matched(WithPte(mem, t, v, w)[f := Junk()], owner - {f})
    ensures forall d', u | IsDir(owner, d') ::
              Pte(WithPte(mem, t, v, w)[Frame(Pte(mem, d, v)) := Junk()], d', u)
              == if d' == d && u == v then w else Pte(mem, d', u)
  {
    hide Pte, Junk;
    var f := Frame(Pte(mem, d, v));
    assert UserOwned(mem, owner, d, v);
    FillKeeps(mem, owner, f, Junk());
    var mem1 := mem[f := Junk()];
    assert DirEntry(mem1, d, v / ENTRIES) == DirEntry(mem, d, v / ENTRIES);
    UnmapUser(mem1, owner, d, v, t, w);
    assert WithPte(mem1, t, v, w) == WithPte(mem, t, v, w)[f := Junk()];
    forall d', u | IsDir(owner, d')
      ensures Pte(WithPte(mem1, t, v, w), d', u) == if d' == d && u == v then w else Pte(mem, d', u)
    {
      OnePteChanges(mem1, owner, d, v, t, w, d', u);
    }
  }

  // The entries of the live spaces after page v of d was given entry w.
  ghost predicate OnlyPte(mem: Mem, mem': Mem, owner: Owners, d: int, v: int, w: Word) {
    forall d', u | IsDir(owner, d') :: Pte(mem', d', u) == if d' == d && u == v then w else Pte(mem, d', u)
  }

  lemma OutExclusive(mem: Mem, owner: Owners, slots: seq<SwapSlot>, holder: Holders, leaked: set<int>,
                     mem': Mem, owner': Owners, d: int, v: int, s: int, w: Word, perm: int)
    requires Exclusive(mem, owner, slots, holder, leaked) && IsDir(owner, d) && 0 <= v < UPAGES
    requires 0 <= s < |slots| && slots[s].free && IsSwapped(w) && Frame(w) == s
    requires Present(Pte(mem, d, v)) && OnlyPte(mem, mem', owner, d, v, w)
    requires forall e :: IsDir(owner', e) <==> IsDir(owner, e)
    ensures Exclusive(mem', owner', slots[s := SwapSlot(perm, false)], holder[s := Owned(d, v)], leaked)
  {
    hide Pte, IsDir, Frame, Present;
    var slots', holder' := slots[s := SwapSlot(perm, false)], holder[s := Owned(d, v)];
    assert SlotOk(mem, owner, slots, holder, leaked, s);
    forall d', u
      ensures EntryOk(mem', owner', slots', holder', d', u)
    {
      assert EntryOk(mem, owner, slots, holder, d', u);
    }
    forall r
      ensures SlotOk(mem', owner', slots', holder', leaked, r)
    {
      assert SlotOk(mem, owner, slots, holder, leaked, r);
    }
  }

  // Nothing reads differently after page v of d went to slot s.
  lemma OutSameViews(mem: Mem, owner: Owners, slots: seq<SwapSlot>, holder: Holders, leaked: set<int>,
                     disk: seq<Blocks.Block>, mem': Mem, disk': seq<Blocks.Block>, d: int, v: int, s: int)
    requires Matched(mem, owner) && Exclusive(mem, owner, slots, holder, leaked)
    requires DiskOk(disk, |slots|) && OnlySlot(disk, disk', s) && 0 <= s < |slots| < PAGES && slots[s].free
    requires IsDir(owner, d) && 0 <= v < UPAGES
    requires Present(Pte(mem, d, v)) && OnlyPte(mem, mem', owner, d, v, SwapEntry(s, Pte(mem, d, v)))
    requires SwapEntry(s, Pte(mem, d, v)) != 0
    requires forall g | g in owner && owner[g].User? && owner[g] != User(d, v) ::
               g in mem' && g in mem && mem'[g] == mem[g]
    requires var f := Frame(Pte(mem, d, v)); f in mem && PageAt(disk', s) == mem[f]
    ensures SameViews(mem, slots, disk, mem', slots[s := SwapSlot(Flags(Pte(mem, d, v)), false)], disk', owner)
  {
    hide Pte, PageAt, Exclusive, Matched;
    var slots' := slots[s := SwapSlot(Flags(Pte(mem, d, v)), false)];
    forall d', u
      ensures SameView(mem, slots, disk, mem', slots', disk', owner, d', u)
    {
      if IsDir(owner, d') && 0 <= u < UPAGES && !(d' == d && u == v) {
        OtherPage(mem, owner, slots, holder, leaked, d', u);
        var e := Pte(mem, d', u);
        if IsSwapped(e) {
          OtherSlotKept(disk, disk', s, Frame(e));
        }
      }
    }
  }

  // What is known of a page of a live space: its frame is its own, its slot is in use.
  lemma OtherPage(mem: Mem, owner: Owners, slots: seq<SwapSlot>, holder: Holders, leaked: set<int>, d: int, v: int)
    requires Matched(mem, owner) && Exclusive(mem, owner, slots, holder, leaked) && IsDir(owner, d) && 0 <= v < UPAGES
    ensures var e := Pte(mem, d, v);
      && (Present(e) ==> Owns(owner, Frame(e), User(d, v)) && Frame(e) in mem)
      && (IsSwapped(e) ==> 0 <= Frame(e) < |slots| && !slots[Frame(e)].free
                           && Frame(e) in holder && holder[Frame(e)] == Owned(d, v))
  {
    assert UserOwned(mem, owner, d, v) && EntryOk(mem, owner, slots, holder, d, v);
  }

  // ---- Paging in ------------------------------------------------------------------------------

  // The slot that page v of d names, or seems to name, is given up and the page is mapped.
  lemma InExclusive(mem: Mem, owner: Owners, slots: seq<SwapSlot>, holder: Holders, leaked: set<int>,
                    slots': seq<SwapSlot>, mem': Mem, owner': Owners, d: int, v: int, s: int, w: Word)
    requires slots' == (if 0 <= s < |slots| then slots[s := SwapSlot(0, true)] else slots)
    requires Exclusive(mem, owner, slots, holder, leaked) && IsDir(owner, d) && 0 <= v < UPAGES
    requires 0 <= s < |slots| && !slots[s].free && Frame(Pte(mem, d, v)) == s && !Present(Pte(mem, d, v))
    requires Present(w) && OnlyPte(mem, mem', owner, d, v, w)
    requires forall e :: IsDir(owner', e) <==> IsDir(owner, e)
    ensures Exclusive(mem', owner', slots', holder - {s}, leaked - {s}) <==> !(Pte(mem, d, v) == 0 && s in holder)
    ensures Pte(mem, d, v) == 0 && s in holder ==> forall h, l ::
              !Exclusive(mem', owner', slots', h, l)
  {
    hide Pte, IsDir, Frame, Present;
    assert SlotOk(mem, owner, slots, holder, leaked, s) && EntryOk(mem, owner, slots, holder, d, v);
    if Pte(mem, d, v) == 0 && s in holder {
      var o := holder[s];
      forall h, l
        ensures !Exclusive(mem', owner', slots', h, l)
      {
        assert !EntryOk(mem', owner', slots', h, o.dir, o.page);
      }
    } else {
      forall d', u
        ensures EntryOk(mem', owner', slots', holder - {s}, d', u)
      {
        assert EntryOk(mem, owner, slots, holder, d', u);
      }
      forall r
        ensures SlotOk(mem', owner', slots', holder - {s}, leaked - {s}, r)
      {
        assert SlotOk(mem, owner, slots, holder, leaked, r);
      }
    }
  }

  // Every page but v of d reads as before, and so does that one if it was swapped out.
  lemma InSameViews(mem: Mem, owner: Owners, slots: seq<SwapSlot>, holder: Holders, leaked: set<int>,
                    disk: seq<Blocks.Block>, slots': seq<SwapSlot>, mem': Mem, d: int, v: int, s: int, f: int)
    requires slots' == (if 0 <= s < |slots| then slots[s := SwapSlot(0, true)] else slots)
    requires Matched(mem, owner) && Exclusive(mem, owner, slots, holder, leaked) && DiskOk(disk, |slots|)
    requires IsDir(owner, d) && 0 <= v < UPAGES && 0 <= s < |slots| && !slots[s].free && 0 <= f < PAGES
    requires Frame(Pte(mem, d, v)) == s && !Present(Pte(mem, d, v)) && 0 <= slots[s].perm < PGSIZE
    requires OnlyPte(mem, mem', owner, d, v, Entry(f, WithP(slots[s].perm)))
    requires forall g | g in owner && owner[g].User? :: g in mem' && g in mem && mem'[g] == mem[g]
    requires f in mem' && mem'[f] == PageAt(disk, s)
    ensures Pte(mem, d, v) != 0 || s !in holder ==> forall d', u | d' != d || u != v ::
              SameView(mem, slots, disk, mem', slots', disk, owner, d', u)
    ensures Pte(mem, d, v) != 0 ==> SameViews(mem, slots, disk, mem', slots', disk, owner)
    ensures At(mem', d, v) == Mapped(f, WithP(slots[s].perm), PageAt(disk, s))
  {
    hide Pte, PageAt, Exclusive, Matched, Entry;
    if Pte(mem, d, v) != 0 || s !in holder {
      forall d', u | d' != d || u != v
        ensures SameView(mem, slots, disk, mem', slots', disk, owner, d', u)
      {
        if IsDir(owner, d') && 0 <= u < UPAGES {
          OtherPage(mem, owner, slots, holder, leaked, d', u);
          OtherPage(mem, owner, slots, holder, leaked, d, v);
        }
      }
      if Pte(mem, d, v) != 0 {
        forall d', u
          ensures SameView(mem, slots, disk, mem', slots', disk, owner, d', u)
        {
        }
      }
    }
  }

  // ---- What paging out leaves alone ------------------------------------------------------------

  datatype Area = Area(mem: Mem, owner: Owners, slots: seq<SwapSlot>, disk: seq<Blocks.Block>, holder: Holders)

  predicate InUse(slots: seq<SwapSlot>, s: int) {
    0 <= s < |slots| && !slots[s].free
  }

  predicate HasTable(mem: Mem, d: int, v: int) {
    Present(DirEntry(mem, d, v / ENTRIES))
  }

  predicate AbsentKept(a: Area, b: Area, d: int, v: int) {
    IsDir(a.owner, d) && 0 <= v < UPAGES && !Present(Pte(a.mem, d, v)) ==>
      Pte(b.mem, d, v) == Pte(a.mem, d, v) && (HasTable(b.mem, d, v) <==> HasTable(a.mem, d, v))
  }

  predicate UsedKept(a: Area, b: Area, s: int)
    requires DiskOk(a.disk, |a.slots|) && DiskOk(b.disk, |a.slots|)
  {
    InUse(a.slots, s) ==>
      && s < |b.slots| && b.slots[s] == a.slots[s] && PageAt(b.disk, s) == PageAt(a.disk, s)
      && (s in b.holder <==> s in a.holder)
  }

  // From a to b some pages were paged out: all pages read the same, absent pages have the same
  // entries, and the slots that were in use hold the same pages.
  ghost predicate PagedOut(a: Area, b: Area) {
    && DiskOk(a.disk, |a.slots|) && DiskOk(b.disk, |b.slots|) && |b.slots| == |a.slots|
    && SameViews(a.mem, a.slots, a.disk, b.mem, b.slots, b.disk, a.owner)
    && (forall e :: IsDir(b.owner, e) <==> IsDir(a.owner, e))
    && (forall d, v :: AbsentKept(a, b, d, v))
    && (forall s :: UsedKept(a, b, s))
  }

  lemma PagedOutTrans(a: Area, b: Area, c: Area)
    requires PagedOut(a, b) && PagedOut(b, c)
    ensures PagedOut(a, c)
  {
    hide Virtual, Pte, HasTable, PageAt;
    forall d, v
      ensures SameView(a.mem, a.slots, a.disk, c.mem, c.slots, c.disk, a.owner, d, v) && AbsentKept(a, c, d, v)
    {
      assert SameView(a.mem, a.slots, a.disk, b.mem, b.slots, b.disk, a.owner, d, v);
      assert SameView(b.mem, b.slots, b.disk, c.mem, c.slots, c.disk, b.owner, d, v);
      assert AbsentKept(a, b, d, v) && AbsentKept(b, c, d, v);
    }
    forall s
      ensures UsedKept(a, c, s)
    {
      assert UsedKept(a, b, s) && UsedKept(b, c, s);
    }
  }

  lemma NothingOut(a: Area, b: Area)
    requires DiskOk(a.disk, |a.slots|) && b.mem == a.mem && b.disk == a.disk && b.holder == a.holder
    requires |b.slots| == |a.slots| && forall s | InUse(a.slots, s) :: b.slots[s] == a.slots[s]
    requires SameViews(a.mem, a.slots, a.disk, b.mem, b.slots, b.disk, a.owner)
    requires forall e :: IsDir(b.owner, e) <==> IsDir(a.owner, e)
    ensures PagedOut(a, b)
  {
    hide Pte, PageAt;
  }

  lemma OneOut(a: Area, b: Area, d: int, v: int, s: int, w: Word)
    requires DiskOk(a.disk, |a.slots|) && DiskOk(b.disk, |b.slots|) && |b.slots| == |a.slots|
    requires SameViews(a.mem, a.slots, a.disk, b.mem, b.slots, b.disk, a.owner)
    requires forall e :: IsDir(b.owner, e) <==> IsDir(a.owner, e)
    requires Present(Pte(a.mem, d, v)) && OnlyPte(a.mem, b.mem, a.owner, d, v, w)
    requires forall e, i | IsDir(a.owner, e) :: DirEntry(b.mem, e, i) == DirEntry(a.mem, e, i)
    requires 0 <= s < |a.slots| && a.slots[s].free && OnlySlot(a.disk, b.disk, s)
    requires forall i | 0 <= i < |a.slots| && i != s :: b.slots[i] == a.slots[i]
    requires forall i | i != s :: i in b.holder <==> i in a.holder
    ensures PagedOut(a, b)
  {
    hide Pte, PageAt, DirEntry, SameViews, OnlySlot;
    forall i
      ensures UsedKept(a, b, i)
    {
      if InUse(a.slots, i) {
        OtherSlotKept(a.disk, b.disk, s, i);
      }
    }
  }

  // A page that findVictimPage can pick: present, and the user's.
  predicate UserPage(mem: Mem, o: Owned) {
    Present(Pte(mem, o.dir, o.page)) && Flags(Pte(mem, o.dir, o.page)) / 4 % 2 == 1
  }

  function FreeSlots(slots: seq<SwapSlot>): set<int> {
    set i: int | 0 <= i < |slots| && slots[i].free
  }

  // Paging out these victims yields a frame: there is a slot, and a page to put in it.
  predicate Reclaimable(mem: Mem, slots: seq<SwapSlot>, victims: seq<Owned>) {
    FreeSlots(slots) != {} && exists k | 0 <= k < |victims| :: UserPage(mem, victims[k])
  }

  // The entry of page v of d is as it was, or a victim's that now names a slot free before.
  predicate KeptOrOut(a: Area, b: Area, victims: seq<Owned>, d: int, v: int) {
    IsDir(a.owner, d) && Pte(b.mem, d, v) != Pte(a.mem, d, v) ==>
      && Owned(d, v) in victims && UserPage(a.mem, Owned(d, v)) && IsSwapped(Pte(b.mem, d, v))
      && Frame(Pte(b.mem, d, v)) in FreeSlots(a.slots)
  }

  lemma SlotTaken(slots: seq<SwapSlot>, slots': seq<SwapSlot>, s: int)
    requires |slots'| == |slots| && 0 <= s < |slots| && slots[s].free && !slots'[s].free
    requires forall i | 0 <= i < |slots| && i != s :: slots'[i] == slots[i]
    ensures FreeSlots(slots') == FreeSlots(slots) - {s} && s in FreeSlots(slots)
    ensures |FreeSlots(slots')| + 1 == |FreeSlots(slots)|
  {
    assert FreeSlots(slots') == FreeSlots(slots) - {s};
  }

  lemma NoSlot(slots: seq<SwapSlot>)
    ensures FreeSlots(slots) == {} <==> forall i | 0 <= i < |slots| :: !slots[i].free
  {
    if i :| 0 <= i < |slots| && slots[i].free {
      assert i in FreeSlots(slots);
    }
  }

  lemma NoneOut(a: Area, victims: seq<Owned>)
    ensures forall d, v :: KeptOrOut(a, a, victims, d, v)
  {
  }

  // Page v of d came in after some went out.
  lemma OneIn(a: Area, b: Area, c: Area, victims: seq<Owned>, d: int, v: int, w: Word)
    requires forall e, u :: KeptOrOut(a, b, victims, e, u)
    requires (forall e | IsDir(a.owner, e) :: IsDir(b.owner, e)) && OnlyPte(b.mem, c.mem, b.owner, d, v, w)
    ensures forall e, u :: KeptOrOut(a, c, victims, e, u) || (e == d && u == v)
  {
    hide Pte, FreeSlots;
    forall e, u
      ensures KeptOrOut(a, c, victims, e, u) || (e == d && u == v)
    {
      assert KeptOrOut(a, b, victims, e, u);
    }
  }

  // One more page out, of those that are still in memory.
  lemma OneMoreOut(a: Area, b: Area, c: Area, victims: seq<Owned>, d: int, v: int, w: Word)
    requires forall e, u :: KeptOrOut(a, b, victims, e, u)
    requires (forall e | IsDir(a.owner, e) :: IsDir(b.owner, e)) && FreeSlots(b.slots) <= FreeSlots(a.slots)
    requires OnlyPte(b.mem, c.mem, b.owner, d, v, w) && IsSwapped(w) && Frame(w) in FreeSlots(b.slots)
    requires UserPage(b.mem, Owned(d, v))
    ensures forall e, u :: KeptOrOut(a, c, victims + [Owned(d, v)], e, u)
    ensures forall o: Owned | IsDir(b.owner, o.dir) && UserPage(c.mem, o) :: UserPage(b.mem, o) && o != Owned(d, v)
  {
    hide Pte, FreeSlots;
    var more := victims + [Owned(d, v)];
    forall e, u
      ensures KeptOrOut(a, c, more, e, u)
    {
      assert KeptOrOut(a, b, victims, e, u);
    }
  }

  lemma MoreVictims(a: Area, b: Area, victims: seq<Owned>, others: seq<Owned>)
    requires forall d, v :: KeptOrOut(a, b, victims, d, v)
    ensures forall d, v :: KeptOrOut(a, b, victims + others, d, v)
  {
    hide Pte, FreeSlots;
    var all := victims + others;
    forall d, v
      ensures KeptOrOut(a, b, all, d, v)
    {
      assert KeptOrOut(a, b, victims, d, v);
    }
  }

  // ---- The swap area ---------------------------------------------------------------------------

  class Swapper {
    const m: Vm.Machine
    var slots: seq<SwapSlot>
    var disk: seq<Blocks.Block>
    ghost var holder: Holders
    ghost var leaked: set<int>

    ghost predicate SlotsOk()
      reads this
    {
      |slots| < PAGES && DiskOk(disk, |slots|) && forall s | 0 <= s < |slots| :: 0 <= slots[s].perm < PGSIZE
    }

    ghost predicate Valid()
      reads this, m
    {
      m.Valid() && SlotsOk() && Exclusive(m.mem, m.owner, slots, holder, leaked)
    }

    ghost function Now(): Area
      reads this, m
    {
      Area(m.mem, m.owner, slots, disk, holder)
    }

    // swapInit: every slot is free; no entry of a live space names one.
    constructor (m: Vm.Machine, disk: seq<Blocks.Block>, total: nat)
      requires m.Valid() && total < PAGES && DiskOk(disk, total)
      requires forall d, v | IsDir(m.owner, d) && 0 <= v < UPAGES :: !IsSwapped(Pte(m.mem, d, v))
      ensures Valid() && this.m == m && this.disk == disk && slots == seq(total, _ => SwapSlot(0, true))
    {
      this.m := m;
      this.disk := disk;
      slots := seq(total, _ => SwapSlot(0, true));
      holder, leaked := map[], {};
    }

    // Takes the first free slot, -1 if there is none.
    method FindFreeSlot() returns (s: int)
      modifies `slots
      ensures -1 <= s < |old(slots)|
      ensures s == -1 ==> slots == old(slots) && forall i | 0 <= i < |slots| :: !slots[i].free
      ensures s != -1 ==> old(slots)[s].free && (forall i | 0 <= i < s :: !old(slots)[i].free)
      ensures s != -1 ==> slots == old(slots)[s := old(slots)[s].(free := false)]
    {
      var i := 0;
      while i < |slots|
        invariant 0 <= i <= |slots| && slots == old(slots) && forall j | 0 <= j < i :: !slots[j].free
      {
        if slots[i].free {
          slots := slots[i := slots[i].(free := false)];
          return i;
        }
        i := i + 1;
      }
      s := -1;
    }

    method FreeSlot(s: int)
      modifies `slots
      ensures slots == if 0 <= s < |old(slots)| then old(slots)[s := SwapSlot(0, true)] else old(slots)
    {
      if 0 <= s < |slots| {
        slots := slots[s := slots[s].(free := true)];
        slots := slots[s := slots[s].(perm := 0)];
      }
    }

    // swapAndPageOut: frame f goes to a free slot and the entry of page v names the slot instead.
    // r is 0 exactly if there is a free slot and the page is present; s is the slot taken.
    method SwapAndPageOut(d: int, v: int, f: int) returns (r: int, ghost s: int, ghost t: int)
      requires m.Valid() && SlotsOk() && IsDir(m.owner, d) && 0 <= v < UPAGES && f in m.mem
      modifies `slots, `disk, m
      ensures m.owner == old(m.owner) && m.freelist == old(m.freelist) && SlotsOk()
      ensures -1 <= s < |old(slots)| && (s >= 0 ==> old(slots)[s].free)
      ensures s >= 0 ==> forall i | 0 <= i < s :: !old(slots)[i].free
      ensures s == -1 ==> slots == old(slots) && r == -1 && forall i | 0 <= i < |slots| :: !slots[i].free
      ensures r == if s != -1 && Present(old(Pte(m.mem, d, v))) then 0 else -1
      ensures r == -1 ==> m.mem == old(m.mem) && disk == old(disk)
      ensures r == -1 && s != -1 ==> slots == old(slots)[s := old(slots)[s].(free := false)]
      ensures r == 0 ==> PteAt(old(m.mem), m.owner, d, v, t)
      ensures r == 0 ==> m.mem == old(WithPte(m.mem, t, v, SwapEntry(s, Pte(m.mem, d, v))))
      ensures r == 0 ==> slots == old(slots)[s := SwapSlot(Flags(old(Pte(m.mem, d, v))), false)]
      ensures r == 0 ==> OnlySlot(old(disk), disk, s) && PageAt(disk, s) == old(m.mem)[f]
    {
      hide Pte, Matched, Image, PageAt;
      t := 0;
      var slot := FindFreeSlot();
      s := slot;
      if slot < 0 {
        return -1, s, t;
      }
      var pt := m.Walkpgdir(d, v, false);
      if pt == 0 {
        NoTableNoPages(m.mem, d, v);
        return -1, s, t;
      }
      t := pt;
      PteWord(m.mem, m.owner, d, v, pt);
      var pte := m.mem[pt][v % ENTRIES];
      if !Present(pte) {
        return -1, s, t;
      }
      slots := slots[slot := slots[slot].(perm := Flags(pte))];
      WriteSlot(slot, m.mem[f]);
      m.mem := WithPte(m.mem, pt, v, SwapEntry(slot, pte));
      r := 0;
    }

    // The loop over the blocks of a slot in swapAndPageOut.
    method WriteSlot(s: int, page: Page)
      requires 0 <= s < |slots| && DiskOk(disk, |slots|)
      modifies `disk
      ensures OnlySlot(old(disk), disk, s) && PageAt(disk, s) == page
    {
      hide Image;
      var i := 0;
      while i < SWAP_BLOCKS_PER_PAGE
        invariant 0 <= i <= SWAP_BLOCKS_PER_PAGE && OnlySlot(old(disk), disk, s)
        invariant forall j | 0 <= j < i :: disk[SlotBlock(s, j)] == Image(page, j)
      {
        disk := disk[SlotBlock(s, i) := Image(page, i)];
        i := i + 1;
      }
      ImagesHold(disk, s, page);
    }

    // One turn of swapOutPages: page v of d, in frame f, is paged out to the lowest free slot and
    // its frame is free. It fails for want of a slot, or on a page that is not there, at the price
    // of a slot; findVictimPage only picks pages that are there.
    method PageOut(d: int, v: int, f: int) returns (r: int, ghost s: int)
      requires Valid() && IsDir(m.owner, d) && 0 <= v < UPAGES && f in m.mem
      requires Present(Pte(m.mem, d, v)) ==> Frame(Pte(m.mem, d, v)) == f && Flags(Pte(m.mem, d, v)) / 4 % 2 == 1
      modifies this, m
      ensures Valid() && SameViews(old(m.mem), old(slots), old(disk), m.mem, slots, disk, old(m.owner))
      ensures |slots| == |old(slots)| && -1 <= s < |slots| && forall e :: IsDir(m.owner, e) <==> IsDir(old(m.owner), e)
      ensures s == -1 <==> forall i | 0 <= i < |slots| :: !old(slots)[i].free
      ensures s != -1 ==> old(slots)[s].free && forall i | 0 <= i < s :: !old(slots)[i].free
      ensures r == if s != -1 && Present(old(Pte(m.mem, d, v))) then 0 else -1
      ensures r == 0 ==> OnlyPte(old(m.mem), m.mem, old(m.owner), d, v, SwapEntry(s, old(Pte(m.mem, d, v))))
      ensures r == 0 ==> At(m.mem, d, v) == Unmapped && IsSwapped(Pte(m.mem, d, v)) && Frame(Pte(m.mem, d, v)) == s
      ensures r == 0 ==> m.freelist == [f] + old(m.freelist) && m.owner == old(m.owner) - {f}
      ensures r == 0 ==> holder == old(holder)[s := Owned(d, v)] && leaked == old(leaked)
      ensures r == -1 ==> m.mem == old(m.mem) && m.owner == old(m.owner) && disk == old(disk) && holder == old(holder)
      ensures r == -1 ==> leaked == if s == -1 then old(leaked) else old(leaked) + {s}
      ensures r == -1 ==> m.freelist == old(m.freelist)
      ensures forall i | 0 <= i < |slots| && i != s :: slots[i] == old(slots)[i]
      ensures s != -1 ==> !slots[s].free
      ensures s == -1 ==> disk == old(disk)
      ensures s != -1 ==> OnlySlot(old(disk), disk, s)
      ensures PagedOut(old(Now()), Now()) && HandsKept(old(m.owner), m.owner)
    {
      hide Pte, Matched, Junk, PageAt, Exclusive, SameViews, PagedOut, DirEntry, HasTable;
      ghost var mem0, owner0, slots0, disk0 := m.mem, m.owner, slots, disk;
      ghost var before := Now();
      SameSameViews(m.mem, slots, disk, m.owner);
      ghost var t;
      r, s, t := SwapAndPageOut(d, v, f);
      if r == 0 {
        ghost var e := Pte(mem0, d, v);
        ghost var w := SwapEntry(s, e);
        OutMatched(mem0, owner0, d, v, t, w);
        m.Kfree(f);
        OutExclusive(mem0, owner0, slots0, holder, leaked, m.mem, m.owner, d, v, s, w, Flags(e));
        UserFrames(mem0, owner0, m.mem, t, f, v, w, d);
        OutSameViews(mem0, owner0, slots0, holder, leaked, disk0, m.mem, disk, d, v, s);
        holder := holder[s := Owned(d, v)];
        DirsKept(mem0, owner0, t, v, w, f);
        OneOut(before, Now(), d, v, s, w);
      } else if s != -1 {
        Leak(m.mem, m.owner, slots0, holder, leaked, s);
        LeakViews(m.mem, m.owner, slots0, holder, leaked, disk, s);
        leaked := leaked + {s};
        NothingOut(before, Now());
      } else {
        NothingOut(before, Now());
      }
    }

    // swapOutPages, for the pages that findVictimPage picks one after the other: those that are
    // present user pages when their turn comes go out, as long as there are slots.
    // The first n of them are out, or were not there; then there was no slot left.
    method SwapOutPages(victims: seq<Owned>) returns (ghost n: nat)
      requires Valid()
      requires forall k | 0 <= k < |victims| :: IsDir(m.owner, victims[k].dir) && 0 <= victims[k].page < UPAGES
      modifies this, m
      ensures Valid() && PagedOut(old(Now()), Now()) && HandsKept(old(m.owner), m.owner)
      ensures n <= |victims| && (n < |victims| ==> FreeSlots(slots) == {})
      ensures forall k | 0 <= k < n :: !UserPage(m.mem, victims[k])
      ensures forall d, v :: KeptOrOut(old(Now()), Now(), victims[..n], d, v)
      ensures |m.freelist| + |FreeSlots(slots)| == old(|m.freelist| + |FreeSlots(slots)|)
      ensures old(m.freelist) == [] ==> (m.freelist != [] <==> old(Reclaimable(m.mem, slots, victims)))
    {
      hide Pte, Matched, PageAt, Exclusive, SameViews, PagedOut, FreeSlots, OnlyPte;
      SameSameViews(m.mem, slots, disk, m.owner);
      NothingOut(Now(), Now());
      var k := 0;
      n := 0;
      assert victims[..0] == [];
      NoneOut(Now(), []);
      while k < |victims|
        invariant 0 <= k <= |victims| && Valid() && PagedOut(old(Now()), Now()) && HandsKept(old(m.owner), m.owner)
        invariant forall e | IsDir(old(m.owner), e) :: IsDir(m.owner, e)
        invariant n <= k && (n < k ==> FreeSlots(slots) == {})
        invariant forall j | 0 <= j < n :: !UserPage(m.mem, victims[j])
        invariant forall d, v :: KeptOrOut(old(Now()), Now(), victims[..n], d, v)
        invariant |m.freelist| + |FreeSlots(slots)| == old(|m.freelist| + |FreeSlots(slots)|)
        invariant FreeSlots(slots) <= old(FreeSlots(slots))
        invariant |m.freelist| >= |old(m.freelist)|
        invariant |m.freelist| == |old(m.freelist)| ==> m.mem == old(m.mem)
        invariant |m.freelist| > |old(m.freelist)| ==> old(Reclaimable(m.mem, slots, victims))
      {
        ghost var a := Now();
        var d, v := victims[k].dir, victims[k].page;
        var e := Pte(m.mem, d, v);
        if Present(e) && Flags(e) / 4 % 2 == 1 {
          OtherPage(m.mem, m.owner, slots, holder, leaked, d, v);
          var r; ghost var s;
          r, s := PageOut(d, v, Frame(e));
          PagedOutTrans(old(Now()), a, Now());
          NoSlot(a.slots);
          if r == 0 {
            SlotTaken(a.slots, slots, s);
            assert victims[..n + 1] == victims[..n] + [Owned(d, v)];
            OneMoreOut(old(Now()), a, Now(), victims[..n], d, v, SwapEntry(s, e));
            n := n + 1;
          } else {
            assert slots == a.slots && Now() == a;
          }
        } else if n == k {
          assert victims[..n + 1] == victims[..n] + [victims[n]];
          MoreVictims(old(Now()), a, victims[..n], [victims[n]]);
          n := n + 1;
        }
        k := k + 1;
      }
    }

    // swapPageIn. 0 if the page is or becomes present; -1 if its entry names no slot in use, or if
    // there is no frame even after paging out the victims. f is the frame the page gets.
    method SwapPageIn(d: int, v: int, victims: seq<Owned>) returns (r: int, ghost f: int)
      requires Valid() && IsDir(m.owner, d) && 0 <= v < UPAGES
      requires forall k | 0 <= k < |victims| :: IsDir(m.owner, victims[k].dir) && 0 <= victims[k].page < UPAGES
      modifies this, m
      ensures m.Valid() && SlotsOk() && |slots| == |old(slots)| && (r == 0 || r == -1)
      ensures HandsKept(old(m.owner), m.owner)
      ensures |m.freelist| + |FreeSlots(slots)| == old(|m.freelist| + |FreeSlots(slots)|)
      ensures forall e :: IsDir(m.owner, e) <==> IsDir(old(m.owner), e)
      ensures forall e, u :: KeptOrOut(old(Now()), Now(), victims, e, u) || (e == d && u == v && r == 0)
      ensures r == 0 <==>
                || Present(old(Pte(m.mem, d, v)))
                || (old(NamesSlot(d, v)) && (old(m.freelist) != [] || old(Reclaimable(m.mem, slots, victims))))
      ensures !old(NamesSlot(d, v)) ==>
                m.mem == old(m.mem) && m.owner == old(m.owner) && slots == old(slots) && m.freelist == old(m.freelist)
                && disk == old(disk)
      ensures var e := old(Pte(m.mem, d, v));
        r == 0 && !Present(e) ==>
          && At(m.mem, d, v) == Mapped(f, WithP(old(slots)[Frame(e)].perm), PageAt(old(disk), Frame(e)))
          && !InUse(slots, Frame(e)) && Frame(e) !in holder
      ensures old(m.freelist) != [] ==>
        var e := old(Pte(m.mem, d, v));
        && disk == old(disk)
        && (r == 0 && !Present(e) ==>
             && f == old(m.freelist)[0] && slots == old(slots)[Frame(e) := SwapSlot(0, true)]
             && OnlyPte(old(m.mem), m.mem, old(m.owner), d, v, Entry(f, WithP(old(slots)[Frame(e)].perm))))
      ensures Exclusive(m.mem, m.owner, slots, holder, leaked) <==>
                !(r == 0 && HasTable(old(m.mem), d, v) && old(Pte(m.mem, d, v)) == 0 && 0 in old(holder))
      ensures old(m.freelist) != [] && HasTable(old(m.mem), d, v) && old(Pte(m.mem, d, v)) == 0 && 0 in old(holder) ==>
                r == 0 && forall h, l :: !Exclusive(m.mem, m.owner, slots, h, l)
      ensures old(Pte(m.mem, d, v)) != 0 || r == -1 ==>
                SameViews(old(m.mem), old(slots), old(disk), m.mem, slots, disk, old(m.owner))
    {
      hide Pte, Matched, PageAt, Exclusive, SameViews, PagedOut, Mapping, At, SamePtes, Mappable, Entry, OnlyPte,
        FreeSlots, KeptOrOut;
      f := 0;
      ghost var before := Now();
      SameSameViews(m.mem, slots, disk, m.owner);
      NoneOut(before, victims);
      var t := m.Walkpgdir(d, v, false);
      if t == 0 {
        NoTableNoPages(m.mem, d, v);
        NoTable(m.mem, d, v);
        return -1, f;
      }
      PteWord(m.mem, m.owner, d, v, t);
      var pte := m.mem[t][v % ENTRIES];
      if Present(pte) {
        return 0, f;
      }
      var slot := Frame(pte);
      HeldInUse(m.mem, m.owner, slots, holder, leaked, slot);
      if slot >= |slots| {
        return -1, f;
      }
      if slots[slot].free {
        return -1, f;
      }
      NothingOut(before, before);
      if m.freelist == [] {
        ghost var n := SwapOutPages(victims);
        assert victims[..n] + victims[n..] == victims;
        MoreVictims(before, Now(), victims[..n], victims[n..]);
        OutViews(before, Now());
        if m.freelist == [] {
          return -1, f;
        }
      }
      ghost var after := Now();
      StillThere(before, after, d, v, slot);
      f := m.freelist[0];
      Fetch(d, v, slot);
      OneIn(before, after, Now(), victims, d, v, Entry(f, WithP(after.slots[slot].perm)));
      if pte != 0 {
        ViewsJoin(before, after, m.mem, slots, disk);
      }
      r := 0;
    }

    // The entry of page v names a slot in use, or is empty while slot 0 is in use.
    ghost predicate NamesSlot(d: int, v: int)
      reads this, m
    {
      var e := Pte(m.mem, d, v);
      !Present(e) && HasTable(m.mem, d, v) && InUse(slots, Frame(e))
    }

    // The rest of swapPageIn: page v gets a frame with what slot `slot` holds.
    method Fetch(d: int, v: int, slot: int)
      requires Valid() && IsDir(m.owner, d) && 0 <= v < UPAGES && m.freelist != [] && HasTable(m.mem, d, v)
      requires !Present(Pte(m.mem, d, v)) && slot == Frame(Pte(m.mem, d, v)) < |slots| && !slots[slot].free
      modifies this, m
      ensures m.Valid() && SlotsOk() && disk == old(disk) && slots == old(slots)[slot := SwapSlot(0, true)]
      ensures holder == old(holder) - {slot} && HandsKept(old(m.owner), m.owner)
      ensures At(m.mem, d, v) == Mapped(old(m.freelist)[0], WithP(old(slots)[slot].perm), PageAt(disk, slot))
      ensures forall e :: IsDir(m.owner, e) <==> IsDir(old(m.owner), e)
      ensures 0 <= old(m.freelist)[0] < PAGES && 0 <= WithP(old(slots)[slot].perm) < PGSIZE
      ensures OnlyPte(old(m.mem), m.mem, old(m.owner), d, v, Entry(old(m.freelist)[0], WithP(old(slots)[slot].perm)))
      ensures Exclusive(m.mem, m.owner, slots, holder, leaked) <==>
                !(old(Pte(m.mem, d, v)) == 0 && slot in old(holder))
      ensures old(Pte(m.mem, d, v)) == 0 && slot in old(holder) ==>
                forall h, l :: !Exclusive(m.mem, m.owner, slots, h, l)
      ensures old(Pte(m.mem, d, v)) != 0 ==>
                SameViews(old(m.mem), old(slots), disk, m.mem, slots, disk, old(m.owner))
      ensures |m.freelist| + |FreeSlots(slots)| == old(|m.freelist| + |FreeSlots(slots)|)
    {
      hide Pte, Matched, PageAt, Exclusive, At, Entry, OnlyPte, FreeSlots;
      ghost var mem0, owner0, slots0 := m.mem, m.owner, slots;
      var perm := slots[slot].perm;
      perm := if perm % 2 == 1 then perm else perm + 1;
      var f := Install(d, v, slot, perm);
      FreeSlot(slot);
      SlotTaken(slots, slots0, slot);
      InExclusive(mem0, owner0, slots0, holder, leaked, slots, m.mem, m.owner, d, v, slot, Entry(f, perm));
      InSameViews(mem0, owner0, slots0, holder, leaked, disk, slots, m.mem, d, v, slot, f);
      holder, leaked := holder - {slot}, leaked - {slot};
    }

    // Takes a frame, reads the slot into it and maps it as page v.
    method Install(d: int, v: int, slot: int, perm: int) returns (f: int)
      requires m.Valid() && IsDir(m.owner, d) && 0 <= v < UPAGES && m.freelist != [] && HasTable(m.mem, d, v)
      requires !Present(Pte(m.mem, d, v)) && 0 <= slot < |slots| && DiskOk(disk, |slots|) && 0 <= perm < PGSIZE
      modifies m
      ensures m.Valid() && f == old(m.freelist)[0] && 0 <= f < PAGES && f in m.mem && m.mem[f] == PageAt(disk, slot)
      ensures OnlyPte(old(m.mem), m.mem, old(m.owner), d, v, Entry(f, perm)) && HandsKept(old(m.owner), m.owner)
      ensures forall e :: IsDir(m.owner, e) <==> IsDir(old(m.owner), e)
      ensures forall g | g in old(m.owner) && old(m.owner)[g].User? ::
                g in m.mem && g in old(m.mem) && m.mem[g] == old(m.mem)[g]
      ensures |m.freelist| + 1 == |old(m.freelist)|
    {
      hide Pte, Matched, PageAt, Mapping, SamePtes, Mappable, Entry, TablesOf, Missing, Span;
      ghost var mem0, owner0 := m.mem, m.owner;
      f := m.Kalloc(d);
      ghost var page := ReadSlot(f, slot);
      TakenIn(mem0, owner0, d, v, f, page);
      ghost var mem1, owner1 := m.mem, m.owner;
      TableStays(mem0, owner0, d, v, f, page);
      TableThere(m.mem, d, v);
      var r; ghost var done;
      r, done := m.Mappages(d, v * PGSIZE, PGSIZE, f * PGSIZE, perm);
      MappedIn(mem0, owner0, mem1, owner1, m.mem, m.owner, d, v, f, page, perm);
    }

    // The loop over the blocks of a slot in swapPageIn.
    method ReadSlot(f: int, s: int) returns (ghost page: Page)
      requires m.Conserved() && f in m.mem && 0 <= s < |slots| && DiskOk(disk, |slots|)
      modifies m`mem
      ensures m.Conserved() && m.mem == old(m.mem)[f := page] && page == PageAt(disk, s)
    {
      page := m.mem[f];
      assert m.mem == old(m.mem)[f := page];
      var i := 0;
      while i < SWAP_BLOCKS_PER_PAGE
        invariant 0 <= i <= SWAP_BLOCKS_PER_PAGE && m.Conserved() && m.mem == old(m.mem)[f := page]
        invariant forall k | 0 <= k < BLOCK_WORDS * i :: page[k] == PageAt(disk, s)[k]
      {
        var next := WithBlock(m.mem[f], i, disk[SlotBlock(s, i)]);
        m.Fill(f, next);
        page := next;
        i := i + 1;
      }
      assert page == PageAt(disk, s);
    }
  }

  // The i-th 512 bytes of a frame replaced.
  function WithBlock(page: Page, i: nat, b: Blocks.Block): Page
    requires i < SWAP_BLOCKS_PER_PAGE
  {
    seq(ENTRIES, k requires 0 <= k < ENTRIES =>
      if k / BLOCK_WORDS == i then Blocks.GetWord(b, k % BLOCK_WORDS) else page[k])
  }

  lemma OutViews(a: Area, b: Area)
    requires PagedOut(a, b)
    ensures DiskOk(a.disk, |a.slots|) && DiskOk(b.disk, |b.slots|) && |b.slots| == |a.slots|
    ensures SameViews(a.mem, a.slots, a.disk, b.mem, b.slots, b.disk, a.owner)
    ensures forall e :: IsDir(b.owner, e) <==> IsDir(a.owner, e)
  {
  }

  lemma StillThere(a: Area, b: Area, d: int, v: int, s: int)
    requires PagedOut(a, b) && IsDir(a.owner, d) && 0 <= v < UPAGES && !Present(Pte(a.mem, d, v)) && InUse(a.slots, s)
    ensures Pte(b.mem, d, v) == Pte(a.mem, d, v) && (HasTable(b.mem, d, v) <==> HasTable(a.mem, d, v))
    ensures s < |b.slots| && b.slots[s] == a.slots[s] && (s in b.holder <==> s in a.holder)
    ensures DiskOk(a.disk, |a.slots|) && DiskOk(b.disk, |a.slots|) && PageAt(b.disk, s) == PageAt(a.disk, s)
    ensures IsDir(b.owner, d) && |b.slots| == |a.slots|
  {
    assert AbsentKept(a, b, d, v) && UsedKept(a, b, s);
  }

  lemma ViewsJoin(a: Area, b: Area, mem: Mem, slots: seq<SwapSlot>, disk: seq<Blocks.Block>)
    requires PagedOut(a, b) && DiskOk(disk, |slots|)
    requires SameViews(b.mem, b.slots, b.disk, mem, slots, disk, b.owner)
    ensures SameViews(a.mem, a.slots, a.disk, mem, slots, disk, a.owner)
  {
    hide Virtual;
    forall d, v
      ensures SameView(a.mem, a.slots, a.disk, mem, slots, disk, a.owner, d, v)
    {
      assert SameView(a.mem, a.slots, a.disk, b.mem, b.slots, b.disk, a.owner, d, v);
      assert SameView(b.mem, b.slots, b.disk, mem, slots, disk, b.owner, d, v);
    }
  }

  // Writing a page table entry and releasing the page's frame changes no directory.
  lemma DirsKept(mem: Mem, owner: Owners, t: int, v: int, w: Word, f: int)
    requires t in mem && t in owner && owner[t].Table? && f in owner && owner[f].User?
    ensures forall d, i | IsDir(owner, d) :: DirEntry(WithPte(mem, t, v, w)[f := Junk()], d, i) == DirEntry(mem, d, i)
  {
  }

  lemma HeldInUse(mem: Mem, owner: Owners, slots: seq<SwapSlot>, holder: Holders, leaked: set<int>, s: int)
    requires Exclusive(mem, owner, slots, holder, leaked)
    ensures s in holder ==> InUse(slots, s)
  {
    assert SlotOk(mem, owner, slots, holder, leaked, s);
  }

  lemma SameSameViews(mem: Mem, slots: seq<SwapSlot>, disk: seq<Blocks.Block>, owner: Owners)
    requires DiskOk(disk, |slots|)
    ensures SameViews(mem, slots, disk, mem, slots, disk, owner)
  {
  }

  lemma NoTable(mem: Mem, d: int, v: int)
    requires !Present(DirEntry(mem, d, v / ENTRIES))
    ensures Pte(mem, d, v) == 0
  {
  }

  lemma TableThere(mem: Mem, d: int, v: int)
    requires HasTable(mem, d, v) && 0 <= v < PAGES
    ensures Missing(TablesOf(mem, d), v, 1) == 0
  {
    SpanGrows(v, 0);
    assert Span(v, 1) - TablesOf(mem, d) == {};
  }

  lemma TableStays(mem: Mem, owner: Owners, d: int, v: int, f: int, page: Page)
    requires HasTable(mem, d, v) && IsDir(owner, d) && f !in owner
    ensures DirEntry(mem[f := page], d, v / ENTRIES) == DirEntry(mem, d, v / ENTRIES)
  {
  }

  // A free frame is taken for d and filled.
  lemma TakenIn(mem: Mem, owner: Owners, d: int, v: int, f: int, page: Page)
    requires Matched(mem, owner) && f in mem && f !in owner
    requires IsDir(owner, d) && 0 <= v < UPAGES && !Present(Pte(mem, d, v))
    ensures Matched(mem[f := page], owner[f := Held(d)]) && SamePtes(mem, mem[f := page], owner)
    ensures Mappable(mem[f := page], owner[f := Held(d)], d, v, f, v) && IsDir(owner[f := Held(d)], d)
  {
    hide Pte;
    LooseFrame(mem, owner, f, d);
    FillKeeps(mem, owner[f := Held(d)], f, page);
    forall e | IsDir(owner, e) ensures IsDir(owner[f := Held(d)], e) {}
  }

  lemma MappedIn(mem: Mem, owner: Owners, mem1: Mem, owner1: Owners, mem2: Mem, owner2: Owners,
                 d: int, v: int, f: int, page: Page, perm: int)
    requires 0 <= perm < PGSIZE && 0 <= f < PAGES && f !in owner && forall g | g in owner :: g in mem
    requires mem1 == mem[f := page] && owner1 == owner[f := Held(d)] && SamePtes(mem, mem1, owner)
    requires Mapping(mem1, owner1, mem2, owner2, d, v, f, 1, perm)
    requires v < UPAGES
    ensures OnlyPte(mem, mem2, owner, d, v, Entry(f, perm)) && HandsKept(owner, owner2)
    ensures forall e :: IsDir(owner2, e) <==> IsDir(owner, e)
    ensures forall g | g in owner && owner[g].User? :: g in mem2 && g in mem && mem2[g] == mem[g]
    ensures f in mem2 && mem2[f] == page
  {
    hide Pte, Entry;
    forall e, u | IsDir(owner, e)
      ensures Pte(mem2, e, u) == if e == d && u == v then Entry(f, perm) else Pte(mem, e, u)
    {
      assert IsDir(owner1, e) && MappedPte(mem1, mem2, owner1, d, v, f, 1, perm, e, u);
    }
    forall e
      ensures IsDir(owner2, e) <==> IsDir(owner, e)
      ensures e in owner2 && owner2[e].Held? ==> Owns(owner, e, owner2[e])
    {
      assert MappedFrame(owner1, owner2, d, v, f, 1, e);
    }
    forall g | g in owner && owner[g].User?
      ensures g in mem2 && g in mem && mem2[g] == mem[g]
    {
      assert KeptData(mem1, owner1, mem2, g);
    }
    assert KeptData(mem1, owner1, mem2, f);
  }

  // User frames other than the one paged out are not touched.
  lemma UserFrames(mem: Mem, owner: Owners, mem': Mem, t: int, f: int, v: int, w: Word, d: int)
    requires Matched(mem, owner) && t in mem && t in owner && owner[t].Table?
    requires mem' == WithPte(mem, t, v, w)[f := Junk()]
    requires Owns(owner, f, User(d, v))
    ensures forall g | g in owner && owner[g].User? && owner[g] != User(d, v) ::
              g in mem' && g in mem && mem'[g] == mem[g]
  {
  }

  // A slot taken for nothing.
  lemma Leak(mem: Mem, owner: Owners, slots: seq<SwapSlot>, holder: Holders, leaked: set<int>, s: int)
    requires Exclusive(mem, owner, slots, holder, leaked) && 0 <= s < |slots| && slots[s].free
    ensures Exclusive(mem, owner, slots[s := slots[s].(free := false)], holder, leaked + {s})
  {
    hide Pte;
    var slots' := slots[s := slots[s].(free := false)];
    forall d, v ensures EntryOk(mem, owner, slots', holder, d, v) {
      assert EntryOk(mem, owner, slots, holder, d, v);
    }
    forall r ensures SlotOk(mem, owner, slots', holder, leaked + {s}, r) {
      assert SlotOk(mem, owner, slots, holder, leaked, r);
    }
  }

  lemma LeakViews(mem: Mem, owner: Owners, slots: seq<SwapSlot>, holder: Holders, leaked: set<int>,
                  disk: seq<Blocks.Block>, s: int)
    requires DiskOk(disk, |slots|) && 0 <= s < |slots|
    ensures SameViews(mem, slots, disk, mem, slots[s := slots[s].(free := false)], disk, owner)
  {
  }

  // ---- The empty entry, reached -----------------------------------------------------------------

  // The only space of a machine, grown by one page.
  lemma OnlySpace(mem: Mem, mem1: Mem, owner1: Owners, mem2: Mem, owner2: Owners, d: int, kmap: seq<Region>)
    requires KmapOk(kmap) && NewSpace(mem, map[], mem1, owner1, d, kmap) && Matched(mem2, owner2)
    requires Growth(mem1, owner1, mem2, owner2, d, 0, 1, -1, Blank)
    ensures forall e | IsDir(owner2, e) :: e == d
    ensures forall v | 0 < v < UPAGES :: Pte(mem2, d, v) == 0
    ensures var e := Pte(mem2, d, 0); Present(e) && Flags(e) == 7 && Frame(e) in mem2
  {
    hide Pte, Matched, RegionOk;
    NoUserEntry(kmap);
    forall e | IsDir(owner2, e)
      ensures e == d
    {
      assert GrownFrame(owner1, owner2, d, 0, 1, -1, e) && NewFrame(map[], owner1, d, e);
    }
    forall v | 0 <= v < UPAGES
      ensures v > 0 ==> Pte(mem2, d, v) == 0
      ensures v == 0 ==> Looks(mem2, d, v, Blank(v))
    {
      assert GrownPte(mem1, mem2, owner1, d, 0, 1, Blank, d, v);
    }
    assert Looks(mem2, d, 0, Blank(0));
  }

  method OnePage(m: Vm.Machine, kmap: seq<Region>) returns (d: int)
    requires m.Valid() && m.owner == map[] && KmapOk(kmap) && |m.freelist| >= KernelTables(kmap) + 3
    modifies m
    ensures m.Valid() && IsDir(m.owner, d) && forall e | IsDir(m.owner, e) :: e == d
    ensures forall v | 0 < v < UPAGES :: Pte(m.mem, d, v) == 0
    ensures var e := Pte(m.mem, d, 0); Present(e) && Flags(e) == 7 && Frame(e) in m.mem
  {
    hide Matched, KmapOk, KernelTables, Pte, Growth, NewSpace, Restored, TablesOf, Touched, Span, Missing;
    ghost var mem := m.mem;
    d := m.Setupkvm(kmap);
    AtMostOne(TablesOf(m.mem, d), 0);
    SpaceFacts(mem, map[], m.mem, m.owner, d, kmap);
    ghost var mem1, owner1 := m.mem, m.owner;
    var sz := m.Allocuvm(d, 0, PGSIZE);
    OnlySpace(mem, mem1, owner1, m.mem, m.owner, d, kmap);
  }

  // A machine of its own, a space of one page, which is paged out to slot 0; then the page after
  // it, never mapped, is "paged in" and takes slot 0 over. The entry of page 0 goes on naming it.
  method TakeOver(lo: int, hi: int, kmap: seq<Region>, disk: seq<Blocks.Block>, total: nat)
    returns (sw: Swapper, d: int, r: int)
    requires KmapOk(kmap) && 0 < lo && lo + KernelTables(kmap) + 3 <= hi <= PAGES
    requires 0 < total < PAGES && DiskOk(disk, total)
    ensures fresh(sw) && sw.m.Valid() && sw.SlotsOk() && r == 0 && IsDir(sw.m.owner, d) && sw.slots != []
    ensures IsSwapped(Pte(sw.m.mem, d, 0)) && Frame(Pte(sw.m.mem, d, 0)) == 0 && sw.slots[0].free
    ensures forall h, l :: !Exclusive(sw.m.mem, sw.m.owner, sw.slots, h, l)
  {
    hide Matched, Exclusive, PageAt, KmapOk, KernelTables, SameViews, Entry, Pte;
    var m := new Vm.Machine(lo, hi);
    d := OnePage(m, kmap);
    sw := new Swapper(m, disk, total);
    var e := Pte(m.mem, d, 0);
    ghost var s;
    assert sw.slots[0].free;
    r, s := sw.PageOut(d, 0, Frame(e));
    assert HasTable(m.mem, d, 1) by {
      if !HasTable(m.mem, d, 0) {
        NoTable(m.mem, d, 0);
      }
    }
    ghost var g;
    r, g := sw.SwapPageIn(d, 1, []);
  }
}
