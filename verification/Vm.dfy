/**
 kalloc.c and the part of vm.c that builds, grows, shrinks, copies and tears down an address
 space, in place over one memory and one free list.
 */
module Vm {
  import opened PageTables
  import opened AddressSpaces
  import Counting

  // ---- The machine ---------------------------------------------------------------------------

  class Machine {
    const lo: int             // the frames between the end of the kernel and PHYSTOP
    const hi: int
    var mem: Mem
    var freelist: seq<int>
    ghost var owner: Owners

    // Every frame is on the free list, once, or has an owner.
    ghost predicate Conserved()
      reads this
    {
      && 0 < lo <= hi <= PAGES
      && (forall f :: f in mem <==> lo <= f < hi)
      && (forall f | f in freelist :: f in mem && f !in owner)
      && (forall f | f in mem :: f in freelist || f in owner)
      && (forall f | f in owner :: f in mem)
      && (forall i, j | 0 <= i < j < |freelist| :: freelist[i] != freelist[j])
    }

    ghost predicate Valid()
      reads this
    {
      Conserved() && Matched(mem, owner)
    }

    // kinit1 and kinit2: freerange gives every frame to kfree in turn.
    constructor (lo: int, hi: int)
      requires 0 < lo <= hi <= PAGES
      ensures Valid() && this.lo == lo && this.hi == hi && owner == map[]
      ensures |freelist| == hi - lo && forall k | 0 <= k < hi - lo :: freelist[k] == hi - 1 - k
    {
      hide Matched, Junk;
      this.lo, this.hi := lo, hi;
      mem, freelist, owner := map[], [], map[];
      new;
      var f := lo;
      while f < hi
        invariant lo <= f <= hi && this.lo == lo && this.hi == hi && owner == map[]
        invariant forall g :: g in mem <==> lo <= g < f
        invariant |freelist| == f - lo && forall k | 0 <= k < f - lo :: freelist[k] == f - 1 - k
      {
        mem := mem[f := Junk()];
        freelist := [f] + freelist;
        f := f + 1;
      }
      assert forall g | g in mem :: freelist[hi - 1 - g] == g;
      NobodyOwns(mem);
    }

    lemma FrameNumbers()
      requires Valid()
      ensures forall f | f in owner :: f in mem && 0 < f < PAGES
    {
    }

    // Takes the first free frame; 0 if there is none. d is the space it is wanted for.
    method Kalloc(ghost d: int) returns (f: int)
      requires Conserved()
      modifies `freelist, `owner
      ensures Conserved()
      ensures f == 0 <==> old(freelist) == []
      ensures f == 0 ==> freelist == old(freelist) && owner == old(owner)
      ensures f != 0 ==> f == old(freelist)[0] && freelist == old(freelist)[1..] && f !in old(owner) && f in mem
      ensures f != 0 ==> 0 < f < PAGES && -1 !in mem
      ensures f != 0 ==> owner == old(owner)[f := Held(d)]
    {
      if freelist == [] {
        return 0;
      }
      f := freelist[0];
      assert f in freelist;
      freelist := freelist[1..];
      owner := owner[f := Held(d)];
    }

    // memset or memmove on a whole frame.
    method Fill(f: int, page: Page)
      requires Conserved() && f in mem
      modifies `mem
      ensures Conserved() && mem == old(mem)[f := page]
    {
      mem := mem[f := page];
    }

    method Kfree(f: int)
      requires Conserved() && f in owner
      modifies this
      ensures Conserved()
      ensures freelist == [f] + old(freelist) && owner == old(owner) - {f} && mem == old(mem)[f := Junk()]
    {
      mem := mem[f := Junk()];
      freelist := [f] + freelist;
      owner := owner - {f};
    }

    // A frame for the kernel itself, as allocproc takes for a kernel stack and pipealloc for a pipe:
    // no space has it, and none is disturbed. 0 if there is no memory.
    method KernelFrame() returns (f: int)
      requires Valid()
      modifies `freelist, `owner
      ensures Valid() && (f == 0 <==> old(freelist) == [])
      ensures f == 0 ==> owner == old(owner) && freelist == old(freelist)
      ensures f != 0 ==> f !in old(owner) && f in mem
      ensures f != 0 ==> owner == old(owner)[f := Other] && freelist == old(freelist)[1..]
      ensures (old(Settled(owner)) ==> Settled(owner)) && HandsKept(old(owner), owner)
    {
      f := Kalloc(-1);
      if f != 0 {
        LooseFrame(mem, old(owner), f, -1);
        owner := owner[f := Other];
        assert owner == old(owner)[f := Other];
      }
    }

    // Its way back, in wait and pipeclose.
    method FreeKernelFrame(f: int)
      requires Valid() && Owns(owner, f, Other)
      modifies this
      ensures Valid() && owner == old(owner) - {f} && freelist == [f] + old(freelist)
      ensures forall g | g in owner :: g in mem && mem[g] == old(mem)[g]
      ensures (old(Settled(owner)) ==> Settled(owner)) && HandsKept(old(owner), owner)
    {
      HeldFrees(mem, owner, f);
      Kfree(f);
    }

    // The page table with the entry of page v, made if alloc says so; 0 if there is none.
    method Walkpgdir(d: int, v: int, alloc: bool) returns (t: int)
      requires Valid() && IsDir(owner, d) && 0 <= v < PAGES
      modifies this
      ensures Valid() && IsDir(owner, d)
      ensures t != 0 ==> PteAt(mem, owner, d, v, t)
      ensures t != 0 <==> v / ENTRIES in old(TablesOf(mem, d)) || (alloc && old(freelist) != [])
      ensures t == 0 ==> !Present(DirEntry(mem, d, v / ENTRIES))
      ensures t == 0 || !alloc ==> mem == old(mem) && freelist == old(freelist) && owner == old(owner)
      ensures SamePtes(old(mem), mem, old(owner)) && SameData(old(mem), old(owner), mem)
      ensures OnlyTables(old(owner), owner, d) && Elsewhere(old(mem), old(owner), mem, owner, d)
      ensures TablesOf(mem, d) == old(TablesOf(mem, d)) + if t != 0 then {v / ENTRIES} else {}
      ensures |freelist| + |TablesOf(mem, d)| == old(|freelist| + |TablesOf(mem, d)|)
    {
      hide Entry, Pte, Matched, Elsewhere, OnlyTables, SameData, SamePtes;
      var i := v / ENTRIES;
      NothingChanges(mem, owner, d);
      DirIn(mem, owner, d, i);
      var pde := mem[d][i];
      if Present(pde) {
        t := Frame(pde);
        return;
      }
      if !alloc {
        return 0;
      }
      t := Kalloc(d);
      if t == 0 {
        return;
      }
      MakeTable(mem, old(owner), d, i, t);
      TableMade(mem, d, i, t);
      mem := mem[t := Zeros()];
      mem := mem[d := mem[d][i := Entry(t, 7)]];
      owner := owner[t := Table(d, i)];
    }

    // One turn of mappages' loop; false if there is no memory for a page table.
    method MapPage(d: int, v: int, frame: int, perm: int) returns (ok: bool)
      requires Valid() && IsDir(owner, d) && 0 <= v < PAGES && !Present(Pte(mem, d, v))
      requires 0 <= perm < PGSIZE && 0 <= frame < PAGES && (v < UPAGES ==> Owns(owner, frame, Held(d)))
      modifies this
      ensures Valid() && IsDir(owner, d)
      ensures Mapping(old(mem), old(owner), mem, owner, d, v, frame, if ok then 1 else 0, perm)
      ensures ok <==> v / ENTRIES in old(TablesOf(mem, d)) || old(freelist) != []
      ensures !ok ==> freelist == old(freelist) && owner == old(owner) && mem == old(mem)
      ensures TablesOf(mem, d) == old(TablesOf(mem, d)) + if ok then {v / ENTRIES} else {}
      ensures |freelist| + |TablesOf(mem, d)| == old(|freelist| + |TablesOf(mem, d)|)
    {
      hide Entry, Pte, Matched, Elsewhere, OnlyTables, SameData, SamePtes, MappedOwners, MappedPtes, Mapping, TablesOf;
      var t := Walkpgdir(d, v, true);
      ghost var mem1, owner1 := mem, owner;
      WalkMapsNone(old(mem), old(owner), mem, owner, d, v, frame, perm);
      if t == 0 {
        return false;
      }
      PteIs(old(mem), old(owner), mem, owner, d, v, t, frame);
      WriteMapsOne(mem, owner, d, v, t, frame, perm);
      SameTables(mem, d, t, WithPte(mem, t, v, Entry(frame, perm))[t]);
      mem := WithPte(mem, t, v, Entry(frame, perm));
      owner := OwnerMapped(owner, d, v, frame);
      MappingGrows(old(mem), old(owner), mem1, owner1, mem, owner, d, v, frame, 0, 1, perm);
      return true;
    }

    // Maps the pages that va to va + size - 1 touch to consecutive frames from pa on; 0 if all
    // `done` of them are mapped, -1 if memory for a page table ran out before that.
    method Mappages(d: int, va: int, size: int, pa: int, perm: int) returns (r: int, ghost done: nat)
      requires Valid() && IsDir(owner, d) && 0 <= va && 0 < size && va + size <= TWO32 && 0 <= perm < PGSIZE
      requires 0 <= pa && pa % PGSIZE == 0 && pa / PGSIZE + (va + size - 1) / PGSIZE - va / PGSIZE < PAGES
      requires forall v | va / PGSIZE <= v <= (va + size - 1) / PGSIZE ::
                 Mappable(mem, owner, d, va / PGSIZE, pa / PGSIZE, v)
      modifies this
      ensures Valid() && IsDir(owner, d)
      ensures done <= (va + size - 1) / PGSIZE - va / PGSIZE + 1
      ensures Mapping(old(mem), old(owner), mem, owner, d, va / PGSIZE, pa / PGSIZE, done, perm)
      ensures r == (if done == (va + size - 1) / PGSIZE - va / PGSIZE + 1 then 0 else -1)
      ensures var n := (va + size - 1) / PGSIZE - va / PGSIZE + 1;
                var need := Missing(old(TablesOf(mem, d)), va / PGSIZE, n);
                if need <= |old(freelist)| then r == 0 && |freelist| == |old(freelist)| - need else r == -1
      ensures r == -1 ==> freelist == [] && (va / PGSIZE + done) / ENTRIES !in TablesOf(mem, d)
      ensures TablesOf(mem, d) == old(TablesOf(mem, d)) + Span(va / PGSIZE, done)
    {
      hide Entry, Pte, Matched, Mapping, Mappable, TablesOf, Span, Missing, Conserved, IsDir, DirEntry;
      var a := va / PGSIZE * PGSIZE;
      var last := (va + size - 1) / PGSIZE * PGSIZE;
      var p := pa;
      ghost var first, pf := va / PGSIZE, pa / PGSIZE;
      ghost var n := (va + size - 1) / PGSIZE - first + 1;
      done := 0;
      InMem(mem, owner);
      MappingStarts(mem, owner, d, first, pf, perm);
      SpanGrows(first, 0);
      while true
        invariant Valid() && IsDir(owner, d) && first + done <= (va + size - 1) / PGSIZE
        invariant a == (first + done) * PGSIZE && p == (pf + done) * PGSIZE
        invariant Mapping(old(mem), old(owner), mem, owner, d, first, pf, done, perm)
        invariant TablesOf(mem, d) == old(TablesOf(mem, d)) + Span(first, done)
        invariant |freelist| + |TablesOf(mem, d)| == old(|freelist| + |TablesOf(mem, d)|)
        decreases last - a
      {
        ghost var mem1, owner1 := mem, owner;
        StillMappable(old(mem), old(owner), mem, owner, d, first, pf, done, perm);
        SpanGrows(first, done);
        var ok := MapPage(d, a / PGSIZE, p / PGSIZE, perm);
        if !ok {
          StopsShort(old(TablesOf(mem, d)), first, done, n);
          return -1, done;
        }
        MappingGrows(old(mem), old(owner), mem1, owner1, mem, owner, d, first, pf, done, 1, perm);
        done := done + 1;
        assert TablesOf(mem, d) == old(TablesOf(mem, d)) + Span(first, done);
        if a == last {
          break;
        }
        a := a + PGSIZE;
        p := p + PGSIZE;
      }
      MissingCount(old(TablesOf(mem, d)), first, n);
      r := 0;
    }

    // The end of deallocuvm's loop body: page v, whose entry is in page table t, goes.
    method UnmapPage(d: int, v: int, t: int)
      requires Valid() && 0 <= v < UPAGES && PteAt(mem, owner, d, v, t)
      modifies this
      ensures Valid() && IsDir(owner, d) && |freelist| >= |old(freelist)|
      ensures Unmapping(old(mem), old(owner), mem, owner, d, v, v + 1)
      ensures TablesOf(mem, d) == old(TablesOf(mem, d))
    {
      hide Pte, Matched, Unmapping, Junk, TablesOf;
      PteWord(mem, owner, d, v, t);
      if Present(mem[t][v % ENTRIES]) {
        UnmapOne(mem, owner, d, v, t);
        var f := Frame(mem[t][v % ENTRIES]);
        SameTables(mem, d, f, Junk());
        SameTables(mem[f := Junk()], d, t, mem[t][v % ENTRIES := 0]);
        Kfree(f);
        mem := WithPte(mem, t, v, 0);
      } else {
        UnmapNone(mem, owner, d, v, v + 1);
      }
    }

    // Takes the user pages from newsz up to oldsz away and frees their frames.
    method Deallocuvm(d: int, oldsz: int, newsz: int) returns (r: int)
      requires Valid() && IsDir(owner, d) && 0 <= oldsz <= KERNBASE && 0 <= newsz
      modifies this
      ensures Valid() && IsDir(owner, d)
      ensures newsz >= oldsz ==>
                r == oldsz && mem == old(mem) && owner == old(owner) && freelist == old(freelist)
      ensures newsz < oldsz ==>
                r == newsz && Unmapping(old(mem), old(owner), mem, owner, d, PageUp(newsz), PageUp(oldsz))
      ensures |freelist| >= |old(freelist)| && TablesOf(mem, d) == old(TablesOf(mem, d))
      ensures HandsKept(old(owner), owner) && (old(Settled(owner)) ==> Settled(owner))
    {
      hide Entry, Pte, Matched, Unmapping, Junk, Settled, HandsKept, TablesOf;
      SameHands(owner);
      if newsz >= oldsz {
        return oldsz;
      }
      var a := PageUp(newsz) * PGSIZE;
      ghost var v0, v1 := PageUp(newsz), PageUp(oldsz);
      ghost var u := v0;
      UnmapNone(mem, owner, d, v0, v0);
      while a < oldsz
        invariant Valid() && IsDir(owner, d) && v0 <= u <= v1
        invariant a % PGSIZE == 0 && u == if a < oldsz then a / PGSIZE else v1
        invariant Unmapping(old(mem), old(owner), mem, owner, d, v0, u)
        invariant |freelist| >= |old(freelist)| && TablesOf(mem, d) == old(TablesOf(mem, d))
        decreases oldsz - a
      {
        ghost var mem1, owner1, u1 := mem, owner, u;
        var v := a / PGSIZE;
        var t := Walkpgdir(d, v, false);
        if t == 0 {
          NoTableNoPages(mem, d, v);
          a := (v / ENTRIES + 1) * ENTRIES * PGSIZE - PGSIZE;
        } else {
          UnmapPage(d, v, t);
        }
        a := a + PGSIZE;
        u := if a < oldsz then a / PGSIZE else v1;
        if t == 0 {
          UnmapNone(mem, owner, d, u1, u);
        }
        UnmapJoins(old(mem), old(owner), mem1, owner1, mem, owner, d, v0, u1, u);
      }
      UnmappingHands(old(mem), old(owner), mem, owner, d, v0, u);
      HandsOfSpace(old(owner), owner, d);
      r := newsz;
    }

    // Adds zeroed user pages from oldsz up to newsz. If memory runs out every user page of the
    // space is as before, and every frame taken is free again or a page table of the space.
    method Allocuvm(d: int, oldsz: int, newsz: int) returns (r: int)
      requires Valid() && IsDir(owner, d) && 0 <= oldsz < TWO32 && 0 <= newsz < TWO32
      requires forall v | PageUp(oldsz) <= v < PageUp(newsz) && v < UPAGES :: !Present(Pte(mem, d, v))
      modifies this
      ensures Valid() && IsDir(owner, d)
      ensures newsz >= KERNBASE ==> r == 0 && mem == old(mem) && owner == old(owner) && freelist == old(freelist)
      ensures newsz < KERNBASE && newsz < oldsz ==>
                r == oldsz && mem == old(mem) && owner == old(owner) && freelist == old(freelist)
      ensures oldsz <= newsz < KERNBASE ==>
                var n := PageUp(newsz) - PageUp(oldsz);
                var need := n + Missing(old(TablesOf(mem, d)), PageUp(oldsz), n);
                if need <= |old(freelist)| then
                  && r == newsz && |freelist| == |old(freelist)| - need
                  && Growth(old(mem), old(owner), mem, owner, d, PageUp(oldsz), PageUp(newsz), -1, Blank)
                else
                  && r == 0 && Restored(old(mem), old(owner), mem, owner, d, -1)
                  && TablesOf(mem, d) <= old(TablesOf(mem, d)) + Span(PageUp(oldsz), n)
      ensures HandsKept(old(owner), owner) && (old(Settled(owner)) ==> Settled(owner))
    {
      hide Entry, Pte, Matched, Growth, Unmapping, Restored, Mapping, Mappable, Zeros, Junk, SamePtes, Conserved,
        Settled, HandsKept, TablesOf, Span, Missing, DirEntry, Elsewhere, NoneHeld;
      SameHands(owner);
      if newsz >= KERNBASE {
        return 0;
      }
      if newsz < oldsz {
        return oldsz;
      }
      ghost var v0, v1 := PageUp(oldsz), PageUp(newsz);
      var a := PageUp(oldsz) * PGSIZE;
      ghost var tables := TablesOf(mem, d);
      GrowthStarts(mem, owner, d, v0, Blank);
      NoneMissing(tables, v0);
      ghost var v := v0;
      ghost var n := v1 - v0;
      while a < newsz
        invariant Valid() && IsDir(owner, d) && a == v * PGSIZE && v0 <= v <= v1
        invariant Growth(old(mem), old(owner), mem, owner, d, v0, v, -1, Blank)
        invariant TablesOf(mem, d) == tables + Span(v0, v - v0)
        invariant |freelist| + v - v0 + Missing(tables, v0, v - v0) == |old(freelist)|
        decreases newsz - a
      {
        ghost var mem1, owner1 := mem, owner;
        NextPage(tables, v0, v, n);
        var m := Kalloc(d);
        if m == 0 {
          var _ := Deallocuvm(d, newsz, oldsz);
          RollsBack(old(mem), old(owner), mem1, owner1, mem, owner, d, v0, v, v1, -1, Blank);
          FrameNumbers();
          RestoredHands(old(mem), old(owner), mem, owner, d);
          return 0;
        }
        GrowthTakes(old(mem), old(owner), mem1, owner1, d, v0, v, m, Zeros(), Blank);
        StillEmpty(old(mem), old(owner), mem1, owner1, mem1[m := Zeros()], d, v0, v, m, Blank);
        SameTables(mem, d, m, Zeros());
        Fill(m, Zeros());
        ghost var mem2, owner2 := mem, owner;
        var ok; ghost var done;
        ok, done := Mappages(d, a, PGSIZE, m * PGSIZE, 6);
        FrameNumbers();
        GrowthMaps(old(mem), old(owner), mem2, owner2, mem, owner, d, v0, v, m, done, 6, Blank);
        if ok < 0 {
          assert |old(freelist)| < n + Missing(tables, v0, n);
          StillHeld(mem2, owner2, mem, owner, d, v, m, 6);
          ghost var mem3, owner3 := mem, owner;
          var _ := Deallocuvm(d, newsz, oldsz);
          RollsBack(old(mem), old(owner), mem3, owner3, mem, owner, d, v0, v, v1, m, Blank);
          HeldLeft(mem3, owner3, mem, owner, d, v0, v1, m);
          RestoredFrees(old(mem), old(owner), mem, owner, d, m);
          SameTables(mem, d, m, Junk());
          assert TablesOf(mem, d) == tables + Span(v0, v - v0);
          Kfree(m);
          FrameNumbers();
          RestoredHands(old(mem), old(owner), mem, owner, d);
          return 0;
        }
        a := a + PGSIZE;
        v := v + 1;
      }
      FrameNumbers();
      GrowthHands(old(mem), old(owner), mem, owner, d, v0, v, Blank);
      r := newsz;
    }

    // Frees all that belongs to space d.
    method Freevm(d: int)
      requires Valid() && IsDir(owner, d) && NoneHeld(owner, d)
      modifies this
      ensures Valid() && TornDown(old(mem), old(owner), mem, owner, d) && (old(Settled(owner)) ==> Settled(owner))
      ensures HandsKept(old(owner), owner)
    {
      hide Entry, Pte, Matched, Unmapping, Elsewhere, Settled, NoneHeld, Tearing, Junk, Dissolved, TornDown,
        HandsKept;
      var _ := Deallocuvm(d, KERNBASE, 0);
      UnmappedAll(old(mem), old(owner), mem, owner, d);
      ghost var mem1, owner1 := mem, owner;
      TearStarts(mem, owner, d);
      owner := Dissolved(owner, d);
      var i := 0;
      while i < ENTRIES
        invariant 0 <= i <= ENTRIES && Conserved() && Tearing(mem1, owner1, mem, owner, d, i)
      {
        TearStep(mem1, owner1, mem, owner, d, i);
        InTearing(mem1, owner1, mem, owner, d, i);
        if Present(mem[d][i]) {
          Kfree(Frame(mem[d][i]));
        }
        i := i + 1;
      }
      TearEnds(mem1, owner1, mem, owner, d);
      Kfree(d);
      TearJoins(old(mem), old(owner), mem1, owner1, mem, owner, d);
      TornHands(old(mem), old(owner), mem, owner, d);
    }

    // The start of setupkvm: a directory without entries.
    method EmptySpace() returns (d: int)
      requires Valid() && Settled(owner)
      modifies this
      ensures Valid() && Settled(owner) && (d == 0 <==> old(freelist) == [])
      ensures d == 0 ==> Same(old(mem), old(owner), mem, owner)
      ensures d != 0 ==> d > 0 && NewSpace(old(mem), old(owner), mem, owner, d, []) && NoneHeld(owner, d)
      ensures d != 0 ==> |freelist| + 1 == |old(freelist)| && TablesOf(mem, d) == {}
    {
      hide Pte, Matched, Elsewhere, Settled, NoneHeld, NewSpace, Zeros, Same;
      d := Kalloc(-1);
      if d == 0 {
        SameSame(mem, owner, old(mem));
        return;
      }
      SpaceStarts(mem, old(owner), d);
      NoTables(mem, d);
      mem := mem[d := Zeros()];
      owner := owner[d := Directory];
      assert owner == old(owner)[d := Directory];
      SpaceSettled(old(mem), old(owner), mem, owner, d, []);
    }

    // A new space with the kernel's entries only; 0, and every frame back, if memory runs out.
    method Setupkvm(kmap: seq<Region>) returns (d: int)
      requires Valid() && Settled(owner) && KmapOk(kmap)
      modifies this
      ensures Valid() && Settled(owner)
      ensures d != 0 ==> d > 0 && NewSpace(old(mem), old(owner), mem, owner, d, kmap) && NoneHeld(owner, d)
      ensures d == 0 <==> |old(freelist)| <= KernelTables(kmap)
      ensures d != 0 ==> |freelist| + 1 + KernelTables(kmap) == |old(freelist)| && TablesOf(mem, d) == Touched(kmap)
      ensures d == 0 ==> Same(old(mem), old(owner), mem, owner)
      ensures HandsKept(old(owner), owner)
    {
      hide Entry, Pte, Matched, Mapping, Elsewhere, Settled, NoneHeld, NewSpace, TornDown, Mappable, Zeros,
        Same, RegionOk, HandsKept, TablesOf, Span, Missing, Touched, KernelTables, Counting.Range;
      SameHands(owner);
      d := EmptySpace();
      if d == 0 {
        SameOwners(old(mem), old(owner), mem, owner);
        return;
      }
      assert kmap[..0] == [];
      NoneTouched();
      var i := 0;
      while i < |kmap|
        invariant 0 <= i <= |kmap| && Valid() && d > 0 && Settled(owner) && NoneHeld(owner, d)
        invariant KmapOk(kmap[..i]) && NewSpace(old(mem), old(owner), mem, owner, d, kmap[..i])
        invariant |freelist| + 1 + KernelTables(kmap[..i]) == |old(freelist)| && TablesOf(mem, d) == Touched(kmap[..i])
      {
        ghost var mem1, owner1 := mem, owner;
        var k := kmap[i];
        RegionBounds(kmap, i);
        TablesGrow(kmap, i);
        RegionMappable(old(mem), old(owner), mem, owner, d, kmap, i);
        SpaceIsDir(old(mem), old(owner), mem, owner, d, kmap[..i]);
        var ok; ghost var n;
        ok, n := Mappages(d, k.virt, Size(k), k.start, k.perm);
        SpaceGrows(old(mem), old(owner), mem1, owner1, mem, owner, d, kmap, i, n);
        SettledSpace(old(mem), old(owner), mem, owner, d);
        assert kmap[..i + 1][..i] == kmap[..i];
        if ok < 0 {
          ghost var mem2, owner2 := mem, owner;
          TouchedIn(kmap, i + 1);
          Freevm(d);
          GivenUp(old(mem), old(owner), mem2, owner2, mem, owner, d);
          SameOwners(old(mem), old(owner), mem, owner);
          return 0;
        }
        i := i + 1;
      }
      assert kmap[..i] == kmap;
      SpaceHands(old(mem), old(owner), mem, owner, d, kmap);
    }

    // One turn of copyuvm's loop; false if memory ran out, and then nothing is in hand.
    method CopyPage(pg: int, d: int, v: int, ghost mem0: Mem, ghost owner0: Owners, ghost want: int -> Look)
      returns (ok: bool)
      requires Valid() && Settled(owner) && NoneHeld(owner, d)
      requires IsDir(owner, pg) && IsDir(owner, d) && pg != d && 0 <= v < UPAGES
      requires At(mem, pg, v).Mapped? && want(v) == CopyLook(mem, pg)(v)
      requires Growth(mem0, owner0, mem, owner, d, 0, v, -1, want) && Settled(owner0) && NoneHeld(owner0, d)
      requires IsDir(owner0, d) && !Present(Pte(mem0, d, v))
      requires TablesOf(mem, d) == TablesOf(mem0, d) + Span(0, v)
      modifies this
      ensures Valid() && Settled(owner) && NoneHeld(owner, d) && IsDir(owner, d)
      ensures Elsewhere(old(mem), old(owner), mem, owner, d)
      ensures ok ==> Growth(mem0, owner0, mem, owner, d, 0, v + 1, -1, want)
      ensures ok ==> TablesOf(mem, d) == TablesOf(mem0, d) + Span(0, v + 1)
      ensures var tables := TablesOf(mem0, d);
        var left := |old(freelist)| + Missing(tables, 0, v) - Missing(tables, 0, v + 1) - 1;
        if left >= 0 then ok && |freelist| == left else !ok
    {
      hide Entry, Pte, Matched, Growth, Mapping, Mappable, Zeros, Junk, SamePtes, Settled, NoneHeld, Elsewhere;
      hide At, CopyLook, Conserved, TablesOf, Span, Missing;
      NextPage(TablesOf(mem0, d), 0, v, v + 1);
      ghost var need := Missing(TablesOf(mem, d), v, 1);
      assert need == Missing(TablesOf(mem0, d), 0, v + 1) - Missing(TablesOf(mem0, d), 0, v);
      LookOfCopy(mem, pg, v, 0);
      PresentWalk(mem, pg, v);
      var t := Walkpgdir(pg, v, false);
      PteWord(mem, owner, pg, v, t);
      var pte := mem[t][v % ENTRIES];
      var f, flags := Frame(pte), Flags(pte);
      ghost var mem1, owner1 := mem, owner;
      InMem(mem, owner);
      NothingChanges(mem, owner, d);
      var m := Kalloc(d);
      if m == 0 {
        return false;
      }
      GrowthTakes(mem0, owner0, mem1, owner1, d, 0, v, m, mem[f], want);
      StillEmpty(mem0, owner0, mem1, owner1, mem1[m := mem[f]], d, 0, v, m, want);
      OwnFrame(mem1, owner1, mem1, owner1, d, m, mem[f]);
      SameTables(mem, d, m, mem[f]);
      assert TablesOf(mem[m := mem[f]], d) == TablesOf(mem1, d);
      Fill(m, mem[f]);
      ghost var mem2, owner2 := mem, owner;
      ok := PutCopy(d, v, m, flags, mem0, owner0, want);
      assert if need < |old(freelist)| then ok && |freelist| == |old(freelist)| - 1 - need else !ok;
      ElsewhereJoins(mem1, owner1, mem2, owner2, mem, owner, d);
    }

    // Its second half: the copy is mapped, or given back.
    method PutCopy(d: int, v: int, m: int, flags: int, ghost mem0: Mem, ghost owner0: Owners, ghost want: int -> Look)
      returns (ok: bool)
      requires Valid() && IsDir(owner, d) && 0 <= v < UPAGES && Settled(owner0) && NoneHeld(owner0, d) && m != 0
      requires Growth(mem0, owner0, mem, owner, d, 0, v, m, want) && Owns(owner, m, Held(d)) && m !in owner0
      requires Mappable(mem, owner, d, v, m, v) && m in mem
      requires 0 <= flags < PGSIZE && flags % 2 == 1 && want(v) == Look(flags, mem[m])
      modifies this
      ensures Valid() && Settled(owner) && NoneHeld(owner, d) && IsDir(owner, d)
      ensures Elsewhere(old(mem), old(owner), mem, owner, d)
      ensures ok ==> Growth(mem0, owner0, mem, owner, d, 0, v + 1, -1, want)
      ensures ok <==> Missing(old(TablesOf(mem, d)), v, 1) <= |old(freelist)|
      ensures ok ==> |freelist| + Missing(old(TablesOf(mem, d)), v, 1) == |old(freelist)|
      ensures ok ==> TablesOf(mem, d) == old(TablesOf(mem, d)) + Span(v, 1)
    {
      hide Entry, Pte, Matched, Growth, Mapping, Mappable, Zeros, Junk, SamePtes, Settled, NoneHeld, Elsewhere,
        Conserved, TablesOf, Span, Missing;
      FrameNumbers();
      ghost var mem2, owner2 := mem, owner;
      var r; ghost var done;
      r, done := Mappages(d, v * PGSIZE, PGSIZE, m * PGSIZE, flags);
      FrameNumbers();
      GrowthMaps(mem0, owner0, mem2, owner2, mem, owner, d, 0, v, m, done, flags, want);
      MappedElsewhere(mem2, owner2, mem, owner, d, v, m, done, flags);
      if r < 0 {
        StillHeld(mem2, owner2, mem, owner, d, v, m, flags);
      }
      GrowthSettled(mem0, owner0, mem, owner, d, v + done, if done == 1 then -1 else m, want);
      if r < 0 {
        HeldFrees(mem, owner, m);
        OwnFrame(mem2, owner2, mem, owner, d, m, Junk());
        Kfree(m);
        return false;
      }
      assert owner - {-1} == owner;
      return true;
    }

    // A copy of the first sz bytes of space pg in a new space, or 0 and every frame back as it was.
    method Copyuvm(pg: int, sz: int, kmap: seq<Region>) returns (d: int)
      requires Valid() && Settled(owner) && KmapOk(kmap) && IsDir(owner, pg) && 0 <= sz <= KERNBASE
      requires forall v | 0 <= v < PageUp(sz) :: Present(Pte(mem, pg, v))
      modifies this
      ensures Valid() && Settled(owner)
      ensures d != 0 ==> CopyOf(old(mem), old(owner), mem, owner, pg, d, PageUp(sz), kmap)
      ensures var need := 1 + KernelTables(kmap) + PageUp(sz) + UserTables(PageUp(sz));
                if need <= |old(freelist)| then d != 0 && |freelist| == |old(freelist)| - need else d == 0
      ensures d == 0 ==> Same(old(mem), old(owner), mem, owner)
      ensures HandsKept(old(owner), owner) && (d != 0 ==> d > 0 && NoneHeld(owner, d))
    {
      hide Entry, Pte, Matched, Growth, Elsewhere, Settled, NoneHeld, At, CopyLook, NewSpace, CopyOf, Same,
        TornDown, KmapOk, HandsKept, Conserved, TablesOf, Span, Missing, KernelTables, UserTables, Touched,
        Counting.Range, DirEntry, RegionOk, KernelEntry;
      ghost var n, tables := PageUp(sz), Touched(kmap);
      UserTablesApart(kmap, n);
      d := Setupkvm(kmap);
      if d == 0 {
        return;
      }
      ghost var mem1, owner1 := mem, owner;
      ghost var want := CopyLook(old(mem), pg);
      SpaceFacts(old(mem), old(owner), mem, owner, d, kmap);
      GrowthStarts(mem, owner, d, 0, want);
      NoneMissing(tables, 0);
      var i := 0;
      ghost var v := 0;
      while i < sz
        invariant Valid() && Settled(owner) && NoneHeld(owner, d) && IsDir(owner, d)
        invariant i == v * PGSIZE && 0 <= v <= n
        invariant Growth(mem1, owner1, mem, owner, d, 0, v, -1, want)
        invariant Elsewhere(old(mem), old(owner), mem, owner, d)
        invariant TablesOf(mem, d) == tables + Span(0, v)
        invariant |freelist| + v + Missing(tables, 0, v) + 1 + KernelTables(kmap) == |old(freelist)|
        decreases sz - i
      {
        ghost var mem2, owner2 := mem, owner;
        OtherSpaceKept(old(mem), old(owner), mem, owner, d, pg, v);
        SameLook(old(mem), mem, pg, v);
        var ok := CopyPage(pg, d, i / PGSIZE, mem1, owner1, want);
        ElsewhereJoins(old(mem), old(owner), mem2, owner2, mem, owner, d);
        if !ok {
          MissingIn(tables, 0, v + 1, n);
          ghost var mem3, owner3 := mem, owner;
          Freevm(d);
          GivenUp(old(mem), old(owner), mem3, owner3, mem, owner, d);
          SameOwners(old(mem), old(owner), mem, owner);
          return 0;
        }
        i := i + PGSIZE;
        v := v + 1;
      }
      CopyEnds(old(mem), old(owner), mem1, owner1, mem, owner, pg, d, n, kmap);
      FrameNumbers();
      GrowthHands(mem1, owner1, mem, owner, d, 0, v, want);
      HandsTrans(old(owner), owner1, owner);
    }

    // The life of a forked space: it is copied, grows or shrinks, and is freed. If it came about at
    // all, every frame is as it was before, in use with the same contents or free.
    method ForkAndExit(pg: int, sz: int, newsz: int, kmap: seq<Region>) returns (d: int, r: int)
      requires Valid() && Settled(owner) && KmapOk(kmap) && IsDir(owner, pg) && 0 <= sz <= KERNBASE
      requires forall v | 0 <= v < PageUp(sz) :: Present(Pte(mem, pg, v))
      requires 0 <= newsz < TWO32
      modifies this
      ensures Valid() && Settled(owner) && Same(old(mem), old(owner), mem, owner)
      ensures d != 0 <==> |old(freelist)| > KernelTables(kmap) + PageUp(sz) + UserTables(PageUp(sz))
      ensures forall f :: f in freelist <==> f in old(freelist)
    {
      hide Entry, Pte, Matched, Elsewhere, Settled, NoneHeld, CopyOf, Growth, Restored, Unmapping, TornDown, Same,
        KmapOk, HandsKept;
      ghost var mem0, owner0 := mem, owner;
      r := 0;
      d := Copyuvm(pg, sz, kmap);
      if d != 0 {
        ghost var mem1, owner1 := mem, owner;
        CopyFacts(mem0, owner0, mem1, owner1, pg, d, PageUp(sz), kmap);
        if newsz >= sz {
          r := Allocuvm(d, sz, newsz);
        } else {
          r := Deallocuvm(d, sz, newsz);
        }
        HandsOfSpace(owner1, owner, d);
        ghost var mem2, owner2 := mem, owner;
        GrowIsLocal(mem1, owner1, mem2, owner2, d, PageUp(sz), PageUp(newsz));
        ElsewhereJoins(mem0, owner0, mem1, owner1, mem2, owner2, d);
        Freevm(d);
        GivenUp(mem0, owner0, mem2, owner2, mem, owner, d);
      }
      SameOwners(mem0, owner0, mem, owner);
    }
  }
}
