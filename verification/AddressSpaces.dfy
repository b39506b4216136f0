/**
 What whole operations of vm.c do to the address spaces of a machine, as relations between the
 memory and ownership before and after: growing a space and rolling that back, tearing one down,
 setting one up and copying one.

 Each relation says what happens to the space at hand and, through Elsewhere, that no frame
 outside it changes role or contents. The lemmas compose the single steps of PageTables into
 these relations and show what follows when an operation fails half-way.
 */
module AddressSpaces {
  import opened Counting
  import opened PageTables

  // ---- Growing and rolling back -----------------------------------------------------------

  // What a new page is to look like.
  datatype Look = Look(flags: int, data: Page)

  predicate Looks(mem: Mem, d: int, v: int, look: Look) {
    var s := At(mem, d, v);
    s.Mapped? && s.flags == look.flags && s.data == look.data
  }

  // Zeroed, present, writable by the user.
  function Blank(v: int): Look {
    Look(7, Zeros())
  }

  predicate GrownPte(mem: Mem, mem': Mem, owner: Owners, d: int, v0: int, v1: int, want: int -> Look, d': int, v: int) {
    IsDir(owner, d') ==>
      if d' == d && v0 <= v < v1 then Looks(mem', d, v, want(v)) else Pte(mem', d', v) == Pte(mem, d', v)
  }

  // New frames are page tables, user pages in range, or the held frame x.
  predicate GrownFrame(owner: Owners, owner': Owners, d: int, v0: int, v1: int, x: int, f: int) {
    && (f in owner ==> Owns(owner', f, owner[f]))
    && (f in owner' && f !in owner ==>
          match owner'[f]
          case Directory => false
          case Table(e, _) => e == d
          case User(e, v) => e == d && v0 <= v < v1
          case Held(e) => e == d && f == x
          case Other => false)
  }

  // All that adding pages v0 to v1 to d does, with frame x still in hand.
  ghost predicate Growth(mem: Mem, owner: Owners, mem': Mem, owner': Owners, d: int, v0: int, v1: int, x: int,
                         want: int -> Look) {
    && (forall d', v :: GrownPte(mem, mem', owner, d, v0, v1, want, d', v))
    && (forall f :: GrownFrame(owner, owner', d, v0, v1, x, f))
    && SameData(mem, owner, mem')
    && Elsewhere(mem, owner, mem', owner', d)
  }

  lemma GrowthStarts(mem: Mem, owner: Owners, d: int, v0: int, want: int -> Look)
    requires Matched(mem, owner)
    ensures Growth(mem, owner, mem, owner, d, v0, v0, -1, want)
  {
    hide Pte;
  }

  // A frame is taken and zeroed.
  lemma GrowthTakes(mem: Mem, owner: Owners, mem1: Mem, owner1: Owners, d: int, v0: int, v: int, m: int,
                    page: Page, want: int -> Look)
    requires Matched(mem1, owner1) && Growth(mem, owner, mem1, owner1, d, v0, v, -1, want)
    requires m in mem1 && m !in owner1 && 0 <= v0 && v <= UPAGES && -1 !in mem1
    ensures var mem2, owner2 := mem1[m := page], owner1[m := Held(d)];
      Matched(mem2, owner2) && Growth(mem, owner, mem2, owner2, d, v0, v, m, want)
    ensures SamePtes(mem1, mem1[m := page], owner1) && m !in owner
  {
    hide Pte;
    var mem2, owner2 := mem1[m := page], owner1[m := Held(d)];
    LooseFrame(mem1, owner1, m, d);
    FillKeeps(mem1, owner2, m, page);
    forall d' | IsDir(owner1, d') ensures IsDir(owner2, d') {}
    forall f
      ensures GrownFrame(owner, owner2, d, v0, v, m, f) && KeptData(mem, owner, mem2, f)
      ensures KeptFrame(mem, owner, mem2, owner2, d, f)
    {
      assert GrownFrame(owner, owner1, d, v0, v, -1, f) && KeptData(mem, owner, mem1, f);
      assert KeptFrame(mem, owner, mem1, owner1, d, f);
    }
    forall d', u
      ensures GrownPte(mem, mem2, owner, d, v0, v, want, d', u)
    {
      assert GrownPte(mem, mem1, owner, d, v0, v, want, d', u) && GrownFrame(owner, owner1, d, v0, v, -1, d');
      if IsDir(owner, d') {
        assert UserOwned(mem1, owner1, d', u);
      }
    }
    assert GrownFrame(owner, owner1, d, v0, v, -1, m);
  }

  // It is mapped as page v, or (n == 0) stays in hand because there was no page table for it.
  lemma GrowthMaps(mem: Mem, owner: Owners, mem2: Mem, owner2: Owners, mem3: Mem, owner3: Owners,
                   d: int, v0: int, v: int, m: int, n: nat,
                   perm: int, want: int -> Look)
    requires Growth(mem, owner, mem2, owner2, d, v0, v, m, want) && Owns(owner2, m, Held(d)) && m !in owner
    requires Matched(mem2, owner2) && 0 <= perm < PGSIZE
    requires want(v) == Look(if perm % 2 == 1 then perm else perm + 1, mem2[m])
    requires 0 <= m < PAGES && n <= 1 && 0 <= v0 <= v < UPAGES && Mapping(mem2, owner2, mem3, owner3, d, v, m, n, perm)
    ensures Growth(mem, owner, mem3, owner3, d, v0, v + n, if n == 1 then -1 else m, want)
  {
    hide Pte, Entry;
    var v1, x := v + n, if n == 1 then -1 else m;
    forall f
      ensures GrownFrame(owner, owner3, d, v0, v1, x, f) && KeptData(mem, owner, mem3, f)
      ensures KeptFrame(mem, owner, mem3, owner3, d, f)
    {
      assert GrownFrame(owner, owner2, d, v0, v, m, f) && MappedFrame(owner2, owner3, d, v, m, n, f);
      assert KeptData(mem, owner, mem2, f) && KeptData(mem2, owner2, mem3, f);
      assert KeptFrame(mem, owner, mem2, owner2, d, f) && KeptFrame(mem2, owner2, mem3, owner3, d, f);
    }
    forall d', u
      ensures GrownPte(mem, mem3, owner, d, v0, v1, want, d', u)
    {
      assert GrownPte(mem, mem2, owner, d, v0, v, want, d', u);
      assert MappedPte(mem2, mem3, owner2, d, v, m, n, perm, d', u);
      assert GrownFrame(owner, owner2, d, v0, v, m, d');
      if IsDir(owner, d') {
        assert UserOwned(mem2, owner2, d', u);
        assert KeptData(mem2, owner2, mem3, Frame(Pte(mem2, d', u))) && KeptData(mem2, owner2, mem3, m);
      }
    }
  }

  predicate SlotKept(mem: Mem, mem': Mem, owner: Owners, d: int, v: int) {
    IsDir(owner, d) && 0 <= v < UPAGES ==> At(mem', d, v) == At(mem, d, v)
  }

  // Every user page is as it was; d may have gained page tables, and frame x is in hand.
  ghost predicate Restored(mem: Mem, owner: Owners, mem': Mem, owner': Owners, d: int, x: int) {
    && (forall d', v :: SlotKept(mem, mem', owner, d', v))
    && (forall f :: GrownFrame(owner, owner', d, 0, 0, x, f))
    && SameData(mem, owner, mem')
    && Elsewhere(mem, owner, mem', owner', d)
  }

  lemma RollsBack(mem: Mem, owner: Owners, mem1: Mem, owner1: Owners, mem2: Mem, owner2: Owners,
                  d: int, v0: int, v: int, v1: int, x: int, want: int -> Look)
    requires Matched(mem, owner) && 0 <= v0 <= v <= v1 && forall u | v0 <= u < v1 :: !Present(Pte(mem, d, u))
    requires Growth(mem, owner, mem1, owner1, d, v0, v, x, want) && Unmapping(mem1, owner1, mem2, owner2, d, v0, v1)
    ensures Restored(mem, owner, mem2, owner2, d, x)
  {
    hide Pte, Zeros;
    forall f
      ensures GrownFrame(owner, owner2, d, 0, 0, x, f) && KeptData(mem, owner, mem2, f)
      ensures KeptFrame(mem, owner, mem2, owner2, d, f)
    {
      assert GrownFrame(owner, owner1, d, v0, v, x, f) && UnmappedFrame(owner1, owner2, d, v0, v1, f);
      assert KeptData(mem, owner, mem1, f) && LeftData(mem1, mem2, owner2, f) && UserReal(mem, owner, f);
      assert KeptFrame(mem, owner, mem1, owner1, d, f) && KeptFrame(mem1, owner1, mem2, owner2, d, f);
    }
    forall d', u
      ensures SlotKept(mem, mem2, owner, d', u)
    {
      assert GrownPte(mem, mem1, owner, d, v0, v, want, d', u) && UnmappedPte(mem1, mem2, owner1, d, v0, v1, d', u);
      assert GrownFrame(owner, owner1, d, v0, v, x, d') && UserOwned(mem, owner, d', u);
      assert KeptData(mem, owner, mem2, Frame(Pte(mem, d', u)));
    }
  }

  // Giving the frame in hand back.
  lemma RestoredFrees(mem: Mem, owner: Owners, mem1: Mem, owner1: Owners, d: int, x: int)
    requires Matched(mem1, owner1) && Matched(mem, owner)
    requires Restored(mem, owner, mem1, owner1, d, x) && Owns(owner1, x, Held(d)) && x !in owner
    ensures Matched(mem1[x := Junk()], owner1 - {x})
    ensures Restored(mem, owner, mem1[x := Junk()], owner1 - {x}, d, -1)
  {
    hide Pte, Junk;
    var mem2, owner2 := mem1[x := Junk()], owner1 - {x};
    FillKeeps(mem1, owner1, x, Junk());
    LooseFrame(mem2, owner1, x, d);
    forall f
      ensures GrownFrame(owner, owner2, d, 0, 0, -1, f) && KeptData(mem, owner, mem2, f)
      ensures KeptFrame(mem, owner, mem2, owner2, d, f)
    {
      assert GrownFrame(owner, owner1, d, 0, 0, x, f) && KeptData(mem, owner, mem1, f);
      assert KeptFrame(mem, owner, mem1, owner1, d, f);
    }
    forall d', u
      ensures SlotKept(mem, mem2, owner, d', u)
    {
      assert SlotKept(mem, mem1, owner, d', u) && GrownFrame(owner, owner1, d, 0, 0, x, d');
      if IsDir(owner, d') {
        assert Pte(mem2, d', u) == Pte(mem1, d', u) && UserOwned(mem1, owner1, d', u);
      }
    }
  }

  // Page v, the next one to be added, is still empty and its frame is in hand.
  lemma StillEmpty(mem: Mem, owner: Owners, mem1: Mem, owner1: Owners, mem2: Mem, d: int, v0: int, v: int, m: int,
                   want: int -> Look)
    requires Growth(mem, owner, mem1, owner1, d, v0, v, -1, want) && IsDir(owner, d) && IsDir(owner1, d)
    requires SamePtes(mem1, mem2, owner1) && !Present(Pte(mem, d, v))
    ensures Mappable(mem2, owner1[m := Held(d)], d, v, m, v)
  {
    hide Pte;
    assert GrownPte(mem, mem1, owner, d, v0, v, want, d, v);
  }

  lemma HeldLeft(mem: Mem, owner: Owners, mem': Mem, owner': Owners, d: int, v0: int, v1: int, m: int)
    requires Unmapping(mem, owner, mem', owner', d, v0, v1) && Owns(owner, m, Held(d))
    ensures Owns(owner', m, Held(d))
  {
    assert UnmappedFrame(owner, owner', d, v0, v1, m);
  }

  // ---- Tearing down ------------------------------------------------------------------------

  // A frame in hand is wanted for a space that exists, or is to become a new one (-1).
  ghost predicate Settled(owner: Owners) {
    forall f | f in owner && owner[f].Held? && owner[f].dir != -1 :: IsDir(owner, owner[f].dir)
  }

  // No frame is in hand for d; there may be for other spaces, which other processes work on.
  ghost predicate NoneHeld(owner: Owners, d: int) {
    forall f | f in owner :: owner[f] != Held(d)
  }

  // Whatever is in hand afterwards was before: an operation that is over has let go of its frames.
  ghost predicate HandsKept(owner: Owners, owner': Owners) {
    forall f | f in owner' && owner'[f].Held? :: Owns(owner, f, owner'[f])
  }

  lemma SameHands(owner: Owners)
    ensures HandsKept(owner, owner)
  {
  }

  lemma HandsOfSpace(owner: Owners, owner': Owners, d: int)
    requires HandsKept(owner, owner')
    ensures NoneHeld(owner, d) ==> NoneHeld(owner', d)
    ensures Settled(owner) && (forall e | IsDir(owner, e) :: IsDir(owner', e)) ==> Settled(owner')
  {
  }

  lemma HandsTrans(owner: Owners, owner1: Owners, owner2: Owners)
    requires HandsKept(owner, owner1) && HandsKept(owner1, owner2)
    ensures HandsKept(owner, owner2)
  {
  }

  lemma UnmappingHands(mem: Mem, owner: Owners, mem': Mem, owner': Owners, d: int, v0: int, v1: int)
    requires Unmapping(mem, owner, mem', owner', d, v0, v1)
    ensures HandsKept(owner, owner') && forall e | IsDir(owner, e) :: IsDir(owner', e)
  {
    forall f
      ensures f in owner' && owner'[f].Held? ==> Owns(owner, f, owner'[f])
      ensures IsDir(owner, f) ==> IsDir(owner', f)
    {
      assert UnmappedFrame(owner, owner', d, v0, v1, f);
    }
  }

  lemma GrownHands(owner: Owners, owner': Owners, d: int, v0: int, v1: int)
    requires (forall f :: GrownFrame(owner, owner', d, v0, v1, -1, f)) && forall f | f in owner' :: f >= 0
    ensures HandsKept(owner, owner') && (Settled(owner) ==> Settled(owner'))
  {
    forall f
      ensures f in owner' && owner'[f].Held? ==> Owns(owner, f, owner'[f])
      ensures IsDir(owner, f) ==> IsDir(owner', f)
    {
      assert GrownFrame(owner, owner', d, v0, v1, -1, f);
    }
  }

  lemma GrowthHands(mem: Mem, owner: Owners, mem': Mem, owner': Owners, d: int, v0: int, v1: int, want: int -> Look)
    requires Growth(mem, owner, mem', owner', d, v0, v1, -1, want) && forall f | f in owner' :: f >= 0
    ensures HandsKept(owner, owner') && (Settled(owner) ==> Settled(owner'))
  {
    GrownHands(owner, owner', d, v0, v1);
  }

  lemma RestoredHands(mem: Mem, owner: Owners, mem': Mem, owner': Owners, d: int)
    requires Restored(mem, owner, mem', owner', d, -1) && forall f | f in owner' :: f >= 0
    ensures HandsKept(owner, owner') && (Settled(owner) ==> Settled(owner'))
  {
    GrownHands(owner, owner', d, 0, 0);
  }

  lemma NewSpaceHands(owner: Owners, owner': Owners, d: int)
    requires forall f :: NewFrame(owner, owner', d, f)
    ensures HandsKept(owner, owner')
  {
    forall f | f in owner' && owner'[f].Held?
      ensures Owns(owner, f, owner'[f])
    {
      assert NewFrame(owner, owner', d, f);
    }
  }

  lemma TornHands(mem: Mem, owner: Owners, mem': Mem, owner': Owners, d: int)
    requires TornDown(mem, owner, mem', owner', d)
    ensures HandsKept(owner, owner')
  {
    forall f | f in owner' && owner'[f].Held?
      ensures Owns(owner, f, owner'[f])
    {
      assert KeptFrame(mem, owner, mem', owner', d, f) && Outside(owner', d, f);
    }
  }

  predicate Outside(owner: Owners, d: int, f: int) {
    f in owner ==> !OfSpace(owner, f, d)
  }

  // All that tearing d down does: every frame of d is free, nothing else changed.
  ghost predicate TornDown(mem: Mem, owner: Owners, mem': Mem, owner': Owners, d: int) {
    Elsewhere(mem, owner, mem', owner', d) && forall f :: Outside(owner', d, f)
  }

  // The page tables behind the first i directory entries are gone.
  predicate TornAt(owner: Owners, owner': Owners, d: int, i: int, f: int) {
    && (f in owner' <==> f in owner && !(owner[f].Table? && owner[f].dir == d && owner[f].index < i))
    && (f in owner' ==> owner'[f] == Dissolved(owner, d)[f])
  }

  ghost predicate Tearing(mem: Mem, owner: Owners, mem': Mem, owner': Owners, d: int, i: int) {
    && Matched(mem', owner') && d in mem && d in mem' && mem'[d] == mem[d]
    && (forall f :: TornAt(owner, owner', d, i, f))
    && Elsewhere(mem, owner, mem', owner', d)
  }

  lemma TearStarts(mem: Mem, owner: Owners, d: int)
    requires Matched(mem, owner) && IsDir(owner, d) && forall f | f in owner && owner[f].User? :: owner[f].dir != d
    ensures Tearing(mem, owner, mem, Dissolved(owner, d), d, 0)
  {
    DropDir(mem, owner, d);
    var owner' := Dissolved(owner, d);
    forall f ensures TornAt(owner, owner', d, 0, f) {
      assert TableReal(mem, owner, f);
    }
  }

  lemma HeldFrees(mem: Mem, owner: Owners, f: int)
    requires Matched(mem, owner) && f in owner && (owner[f].Held? || owner[f].Other?)
    ensures Matched(mem[f := Junk()], owner - {f})
  {
    hide Pte, Junk;
    FillKeeps(mem, owner, f, Junk());
    LooseFrame(mem[f := Junk()], owner, f, 0);
  }

  lemma TearStep(mem: Mem, owner: Owners, mem1: Mem, owner1: Owners, d: int, i: int)
    requires Matched(mem, owner) && IsDir(owner, d) && 0 <= i < ENTRIES && Tearing(mem, owner, mem1, owner1, d, i)
    ensures !Present(mem1[d][i]) ==> Tearing(mem, owner, mem1, owner1, d, i + 1)
    ensures Present(mem1[d][i]) ==>
              var f := Frame(mem1[d][i]);
              f in owner1 && Tearing(mem, owner, mem1[f := Junk()], owner1 - {f}, d, i + 1)
  {
    hide Pte, Junk;
    var next := i + 1;
    assert TableOwned(mem, owner, d, i) && DirEntry(mem, d, i) == mem1[d][i];
    var f := Frame(mem1[d][i]);
    if Present(mem1[d][i]) {
      assert TornAt(owner, owner1, d, i, f);
      HeldFrees(mem1, owner1, f);
    }
    var mem2, owner2 := mem1[f := Junk()], owner1 - {f};
    forall g
      ensures !Present(mem1[d][i]) ==> TornAt(owner, owner1, d, next, g)
      ensures Present(mem1[d][i]) ==> TornAt(owner, owner2, d, next, g) && KeptFrame(mem, owner, mem2, owner2, d, g)
    {
      assert TornAt(owner, owner1, d, i, g) && TableReal(mem, owner, g);
      assert KeptFrame(mem, owner, mem1, owner1, d, g);
    }
  }

  lemma TearEnds(mem: Mem, owner: Owners, mem1: Mem, owner1: Owners, d: int)
    requires Matched(mem, owner) && IsDir(owner, d) && Tearing(mem, owner, mem1, owner1, d, ENTRIES)
    requires forall f | f in owner && owner[f].User? :: owner[f].dir != d
    requires NoneHeld(owner, d)
    ensures d in owner1 && Matched(mem1[d := Junk()], owner1 - {d})
    ensures TornDown(mem, owner, mem1[d := Junk()], owner1 - {d}, d)
    ensures Settled(owner) ==> Settled(owner1 - {d})
  {
    hide Pte, Junk;
    assert TornAt(owner, owner1, d, ENTRIES, d);
    HeldFrees(mem1, owner1, d);
    var mem2, owner2 := mem1[d := Junk()], owner1 - {d};
    forall f
      ensures KeptFrame(mem, owner, mem2, owner2, d, f) && Outside(owner2, d, f)
      ensures f in owner2 ==> owner2[f] != Held(d)
    {
      assert TornAt(owner, owner1, d, ENTRIES, f) && TableReal(mem, owner, f);
      assert KeptFrame(mem, owner, mem1, owner1, d, f);
    }
    SettledElsewhere(mem, owner, mem2, owner2, d);
  }

  // Work on d that leaves nothing in hand for it.
  lemma SettledElsewhere(mem: Mem, owner: Owners, mem': Mem, owner': Owners, d: int)
    requires Elsewhere(mem, owner, mem', owner', d) && NoneHeld(owner', d)
    ensures Settled(owner) ==> Settled(owner')
  {
    if Settled(owner) {
      forall f | f in owner' && owner'[f].Held? && owner'[f].dir != -1
        ensures IsDir(owner', owner'[f].dir)
      {
        assert KeptFrame(mem, owner, mem', owner', d, f) && KeptFrame(mem, owner, mem', owner', d, owner'[f].dir);
      }
    }
  }

  lemma ElsewhereJoins(mem: Mem, owner: Owners, mem1: Mem, owner1: Owners, mem2: Mem, owner2: Owners, d: int)
    requires Elsewhere(mem, owner, mem1, owner1, d) && Elsewhere(mem1, owner1, mem2, owner2, d)
    ensures Elsewhere(mem, owner, mem2, owner2, d)
  {
    forall f ensures KeptFrame(mem, owner, mem2, owner2, d, f) {
      assert KeptFrame(mem, owner, mem1, owner1, d, f) && KeptFrame(mem1, owner1, mem2, owner2, d, f);
    }
  }

  // With its user pages gone a space has no User frames, and the rest is as it was.
  lemma UnmappedAll(mem: Mem, owner: Owners, mem1: Mem, owner1: Owners, d: int)
    requires Matched(mem1, owner1) && Unmapping(mem, owner, mem1, owner1, d, 0, UPAGES) && NoneHeld(owner, d)
    ensures (forall f | f in owner1 && owner1[f].User? :: owner1[f].dir != d) && NoneHeld(owner1, d)
    ensures Settled(owner) ==> Settled(owner1)
    ensures Elsewhere(mem, owner, mem1, owner1, d)
  {
    hide Pte;
    forall f | f in owner1
      ensures (owner1[f].User? ==> owner1[f].dir != d) && owner1[f] != Held(d)
    {
      assert UnmappedFrame(owner, owner1, d, 0, UPAGES, f) && UserReal(mem1, owner1, f);
    }
    SettledElsewhere(mem, owner, mem1, owner1, d);
  }

  // A space that did not exist before and does not exist any more has left no trace.
  lemma NoTrace(mem: Mem, owner: Owners, mem1: Mem, owner1: Owners, d: int)
    requires Elsewhere(mem, owner, mem1, owner1, d)
    requires (forall f :: Outside(owner, d, f)) && (forall f :: Outside(owner1, d, f))
    ensures owner1 == owner && forall f | f in owner :: f in mem && f in mem1 && mem1[f] == mem[f]
  {
    forall f
      ensures (f in owner <==> f in owner1) && (f in owner ==> owner1[f] == owner[f])
      ensures f in owner ==> f in mem && f in mem1 && mem1[f] == mem[f]
    {
      assert KeptFrame(mem, owner, mem1, owner1, d, f) && Outside(owner, d, f) && Outside(owner1, d, f);
    }
  }

  lemma NoSuchSpace(mem: Mem, owner: Owners, d: int)
    requires Matched(mem, owner) && Settled(owner) && d !in owner && d != -1
    ensures forall f :: Outside(owner, d, f)
  {
    hide Pte;
    forall f ensures Outside(owner, d, f) {
      assert TableReal(mem, owner, f) && UserReal(mem, owner, f);
    }
  }

  lemma InTearing(mem: Mem, owner: Owners, mem1: Mem, owner1: Owners, d: int, i: int)
    requires Tearing(mem, owner, mem1, owner1, d, i)
    ensures d in mem1
  {
  }

  lemma TearJoins(mem: Mem, owner: Owners, mem1: Mem, owner1: Owners, mem2: Mem, owner2: Owners, d: int)
    requires Elsewhere(mem, owner, mem1, owner1, d) && TornDown(mem1, owner1, mem2, owner2, d)
    ensures TornDown(mem, owner, mem2, owner2, d)
  {
    ElsewhereJoins(mem, owner, mem1, owner1, mem2, owner2, d);
  }

  // ---- The kernel part of a space ---------------------------------------------------------

  datatype Region = Region(virt: int, start: int, end: int, perm: int)

  // end - start in unsigned arithmetic: the last region ends at 2^32, written 0.
  function Size(k: Region): int {
    (k.end - k.start) % TWO32
  }

  function First(k: Region): int {
    k.virt / PGSIZE
  }

  function Last(k: Region): int {
    (k.virt + Size(k) - 1) / PGSIZE
  }

  predicate RegionOk(k: Region) {
    && KERNBASE <= k.virt && 0 < Size(k) && k.virt + Size(k) <= TWO32 && 0 <= k.perm < PGSIZE
    && 0 <= k.start && k.start % PGSIZE == 0 && k.start / PGSIZE + Last(k) - First(k) < PAGES
  }

  predicate KmapOk(kmap: seq<Region>) {
    && (forall i | 0 <= i < |kmap| :: RegionOk(kmap[i]))
    && (forall i, j | 0 <= i < j < |kmap| :: Last(kmap[i]) < First(kmap[j]))
  }

  // The regions of the source; data is where the linker put the kernel's data.
  function Kmap(data: int): seq<Region> {
    [Region(0x8000_0000, 0, 0x10_0000, 2),
     Region(0x8010_0000, 0x10_0000, data - KERNBASE, 0),
     Region(data, data - KERNBASE, 0xE00_0000, 2),
     Region(0xFE00_0000, 0xFE00_0000, 0, 2)]
  }

  lemma SourceKmapOk(data: int)
    requires data % PGSIZE == 0 && 0x8010_0000 < data < 0x8E00_0000
    ensures KmapOk(Kmap(data))
  {
    hide First, Last, Size, RegionOk;
    var k, p := Kmap(data), data / PGSIZE;
    WholePages(k[0], 0x8_0000, 0x100);
    WholePages(k[1], 0x8_0100, p - 0x8_0100);
    WholePages(k[2], p, 0x8_E000 - p);
    WholePages(k[3], 0xF_E000, 0x2000);
  }

  lemma WholePages(k: Region, first: int, n: int)
    requires k.virt == first * PGSIZE && (k.end - k.start == n * PGSIZE || k.end - k.start == n * PGSIZE - TWO32)
    requires UPAGES <= first && 0 < n && first + n <= PAGES && 0 <= k.perm < PGSIZE
    requires 0 <= k.start && k.start % PGSIZE == 0 && k.start / PGSIZE + n <= PAGES
    ensures RegionOk(k) && First(k) == first && Last(k) == first + n - 1
  {
    assert Size(k) == n * PGSIZE;
  }

  // The entry kmap gives virtual page v.
  function KernelEntry(kmap: seq<Region>, v: int): Word
    requires forall i | 0 <= i < |kmap| :: RegionOk(kmap[i])
  {
    if kmap == [] then 0
    else
      var k := kmap[|kmap| - 1];
      assert RegionOk(k);
      if First(k) <= v <= Last(k) then Entry(k.start / PGSIZE + v - First(k), k.perm)
      else KernelEntry(kmap[..|kmap| - 1], v)
  }

  // The directory entries that the regions fall under: each needs a page table, and needs it once.
  function Touched(kmap: seq<Region>): set<int> {
    if kmap == [] then {}
    else
      var k := kmap[|kmap| - 1];
      Touched(kmap[..|kmap| - 1]) + Span(First(k), Last(k) - First(k) + 1)
  }

  function KernelTables(kmap: seq<Region>): nat {
    |Touched(kmap)|
  }

  // The page tables of the first n pages.
  function UserTables(n: nat): nat {
    (n + ENTRIES - 1) / ENTRIES
  }

  lemma TouchedGrows(kmap: seq<Region>, i: nat)
    requires i < |kmap|
    ensures Touched(kmap[..i + 1]) == Touched(kmap[..i]) + Span(First(kmap[i]), Last(kmap[i]) - First(kmap[i]) + 1)
  {
    hide Span;
    assert kmap[..i + 1][..i] == kmap[..i];
  }

  lemma TablesGrow(kmap: seq<Region>, i: nat)
    requires i < |kmap|
    ensures Touched(kmap[..i + 1]) == Touched(kmap[..i]) + Span(First(kmap[i]), Last(kmap[i]) - First(kmap[i]) + 1)
    ensures KernelTables(kmap[..i + 1]) ==
            KernelTables(kmap[..i]) + Missing(Touched(kmap[..i]), First(kmap[i]), Last(kmap[i]) - First(kmap[i]) + 1)
  {
    hide Span, Touched;
    TouchedGrows(kmap, i);
    MissingCount(Touched(kmap[..i]), First(kmap[i]), Last(kmap[i]) - First(kmap[i]) + 1);
  }

  lemma {:induction false} TouchedIn(kmap: seq<Region>, i: nat)
    requires i <= |kmap|
    ensures Touched(kmap[..i]) <= Touched(kmap) && KernelTables(kmap[..i]) <= KernelTables(kmap)
    decreases |kmap| - i
  {
    hide Span, Touched, First, Last;
    if i < |kmap| {
      TouchedGrows(kmap, i);
      TouchedIn(kmap, i + 1);
    } else {
      assert kmap[..i] == kmap;
    }
    SubsetCount(Touched(kmap[..i]), Touched(kmap));
  }

  lemma {:induction false} TouchedHigh(kmap: seq<Region>)
    requires forall i | 0 <= i < |kmap| :: RegionOk(kmap[i])
    ensures forall i | i in Touched(kmap) :: i >= UPAGES / ENTRIES
  {
    if kmap != [] {
      TouchedHigh(kmap[..|kmap| - 1]);
      assert RegionOk(kmap[|kmap| - 1]);
    }
  }

  // User pages share no page table with the kernel's regions.
  lemma UserTablesApart(kmap: seq<Region>, n: nat)
    requires KmapOk(kmap) && n <= UPAGES
    ensures Missing(Touched(kmap), 0, n) == UserTables(n)
  {
    TouchedHigh(kmap);
    assert Span(0, n) == Range(0, UserTables(n));
    RangeCount(0, UserTables(n));
    assert Span(0, n) - Touched(kmap) == Span(0, n);
  }

  // The source's regions need 64 page tables, wherever the kernel's data begins.
  lemma SourceTables(data: int)
    requires data % PGSIZE == 0 && 0x8010_0000 < data < 0x8E00_0000
    ensures KernelTables(Kmap(data)) == 64
  {
    var a, b := SourceTouched(data, data / PGSIZE);
    hide *;
    FourRanges(Touched(Kmap(data)), a, b);
    TouchedCount(Kmap(data));
  }

  lemma SourceTouched(data: int, p: int) returns (a: int, b: int)
    requires data == p * PGSIZE && 0x8_0100 < p < 0x8_E000
    ensures 512 <= b <= a <= 568 && 513 <= a
    ensures Touched(Kmap(data)) == Range(512, 513) + Range(512, a) + Range(b, 568) + Range(1016, 1024)
  {
    hide First, Last, Size, RegionOk, Span, Range, Touched;
    var k := Kmap(data);
    a, b := (p - 1) / ENTRIES + 1, p / ENTRIES;
    RegionSpan(k[0], 0x8_0000, 0x100);
    RegionSpan(k[1], 0x8_0100, p - 0x8_0100);
    RegionSpan(k[2], p, 0x8_E000 - p);
    RegionSpan(k[3], 0xF_E000, 0x2000);
    FourRegions(k);
  }

  lemma RegionSpan(k: Region, first: int, n: int)
    requires k.virt == first * PGSIZE && (k.end - k.start == n * PGSIZE || k.end - k.start == n * PGSIZE - TWO32)
    requires UPAGES <= first && 0 < n && first + n <= PAGES && 0 <= k.perm < PGSIZE
    requires 0 <= k.start && k.start % PGSIZE == 0 && k.start / PGSIZE + n <= PAGES
    ensures Span(First(k), Last(k) - First(k) + 1) == Range(first / ENTRIES, (first + n - 1) / ENTRIES + 1)
  {
    WholePages(k, first, n);
  }

  lemma TouchedCount(kmap: seq<Region>)
    ensures KernelTables(kmap) == |Touched(kmap)|
  {
  }

  lemma FourRanges(all: set<int>, a: int, b: int)
    requires 512 <= b <= a <= 568 && 513 <= a
    requires all == Range(512, 513) + Range(512, a) + Range(b, 568) + Range(1016, 1024)
    ensures |all| == 64
  {
    hide Range;
    assert Range(512, 513) + Range(512, a) == Range(512, a);
    JoinedRange(512, a, b, 568);
    assert Range(512, 568) !! Range(1016, 1024);
    RangeCount(512, 568);
    RangeCount(1016, 1024);
  }

  lemma FourRegions(k: seq<Region>)
    requires |k| == 4
    ensures Touched(k) ==
            Span(First(k[0]), Last(k[0]) - First(k[0]) + 1) + Span(First(k[1]), Last(k[1]) - First(k[1]) + 1)
            + Span(First(k[2]), Last(k[2]) - First(k[2]) + 1) + Span(First(k[3]), Last(k[3]) - First(k[3]) + 1)
  {
    hide Span, First, Last, Touched;
    NoneTouched();
    assert k[..4] == k && k[..0] == [];
    TouchedGrows(k, 0);
    TouchedGrows(k, 1);
    TouchedGrows(k, 2);
    TouchedGrows(k, 3);
  }

  lemma NoneTouched()
    ensures Touched([]) == {} && KernelTables([]) == 0
  {
  }

  lemma {:induction false} NoEntryBeyond(kmap: seq<Region>, v: int)
    requires forall i | 0 <= i < |kmap| :: RegionOk(kmap[i])
    requires forall i | 0 <= i < |kmap| :: v < First(kmap[i]) || v > Last(kmap[i])
    ensures KernelEntry(kmap, v) == 0
  {
    if kmap != [] {
      NoEntryBeyond(kmap[..|kmap| - 1], v);
    }
  }

  // Every page of a region goes to the frame as far from its start, with its permissions.
  lemma {:induction false} RegionEntry(kmap: seq<Region>, i: nat, v: int)
    requires KmapOk(kmap) && i < |kmap| && First(kmap[i]) <= v <= Last(kmap[i])
    ensures RegionOk(kmap[i])
    ensures KernelEntry(kmap, v) == Entry(kmap[i].start / PGSIZE + v - First(kmap[i]), kmap[i].perm)
  {
    if i < |kmap| - 1 {
      RegionEntry(kmap[..|kmap| - 1], i, v);
    }
  }

  // The source's kernel sees the first 224 megabytes of memory from KERNBASE on, its text and
  // read-only data without the right to write, and the devices at their own addresses.
  lemma DirectMap(data: int, v: int)
    requires data % PGSIZE == 0 && 0x8010_0000 < data < 0x8E00_0000
    ensures KmapOk(Kmap(data))
    ensures var e, text := KernelEntry(Kmap(data), v), 0x8_0100 <= v < data / PGSIZE;
      if 0x8_0000 <= v < 0x8_E000 then Frame(e) == v - UPAGES && Flags(e) == (if text then 1 else 3)
      else if 0xF_E000 <= v < PAGES then Frame(e) == v && Flags(e) == 3
      else e == 0
  {
    hide First, Last, Size, RegionOk, KernelEntry, Entry;
    SourceKmapOk(data);
    var k, p := Kmap(data), data / PGSIZE;
    WholePages(k[0], 0x8_0000, 0x100);
    WholePages(k[1], 0x8_0100, p - 0x8_0100);
    WholePages(k[2], p, 0x8_E000 - p);
    WholePages(k[3], 0xF_E000, 0x2000);
    if i: nat :| i < 4 && First(k[i]) <= v <= Last(k[i]) {
      RegionEntry(k, i, v);
    } else {
      NoEntryBeyond(k, v);
    }
  }

  lemma NoUserEntry(kmap: seq<Region>)
    requires forall i | 0 <= i < |kmap| :: RegionOk(kmap[i])
    ensures forall v | v < UPAGES :: KernelEntry(kmap, v) == 0
  {
    forall v | v < UPAGES
      ensures KernelEntry(kmap, v) == 0
    {
      NoEntryBeyond(kmap, v);
    }
  }

  predicate NewFrame(owner: Owners, owner': Owners, d: int, f: int) {
    && (f in owner ==> Owns(owner', f, owner[f]))
    && (f in owner' && f !in owner ==>
          (f == d && owner'[f] == Directory) || (owner'[f].Table? && owner'[f].dir == d))
  }

  // d is a new space with the entries of kmap and nothing else; the rest is as it was.
  ghost predicate NewSpace(mem: Mem, owner: Owners, mem': Mem, owner': Owners, d: int, kmap: seq<Region>)
    requires forall i | 0 <= i < |kmap| :: RegionOk(kmap[i])
  {
    && d !in owner && IsDir(owner', d)
    && (forall v | 0 <= v < PAGES :: Pte(mem', d, v) == KernelEntry(kmap, v))
    && (forall f :: NewFrame(owner, owner', d, f))
    && Elsewhere(mem, owner, mem', owner', d)
  }

  lemma SpaceStarts(mem: Mem, owner: Owners, d: int)
    requires Matched(mem, owner) && d in mem && d !in owner
    ensures var mem', owner' := mem[d := Zeros()], owner[d := Directory];
      Matched(mem', owner') && NewSpace(mem, owner, mem', owner', d, [])
  {
    hide Matched;
    LooseFrame(mem, owner, d, d);
    FillKeeps(mem, owner[d := Held(d)], d, Zeros());
    MakeDir(mem[d := Zeros()], owner[d := Held(d)], d);
    assert owner[d := Held(d)][d := Directory] == owner[d := Directory];
    InMem(mem, owner);
  }

  lemma RegionMappable(mem: Mem, owner: Owners, mem': Mem, owner': Owners, d: int, kmap: seq<Region>, i: nat)
    requires KmapOk(kmap) && i < |kmap| && NewSpace(mem, owner, mem', owner', d, kmap[..i])
    ensures forall v | First(kmap[i]) <= v <= Last(kmap[i]) ::
              Mappable(mem', owner', d, First(kmap[i]), kmap[i].start / PGSIZE, v)
  {
    hide Pte;
    forall v | First(kmap[i]) <= v <= Last(kmap[i])
      ensures Mappable(mem', owner', d, First(kmap[i]), kmap[i].start / PGSIZE, v)
    {
      NoEntryBeyond(kmap[..i], v);
    }
  }

  lemma SpaceGrows(mem: Mem, owner: Owners, mem1: Mem, owner1: Owners, mem2: Mem, owner2: Owners,
                   d: int, kmap: seq<Region>, i: nat, n: nat)
    requires KmapOk(kmap) && i < |kmap| && NewSpace(mem, owner, mem1, owner1, d, kmap[..i])
    requires n <= Last(kmap[i]) - First(kmap[i]) + 1
    requires Mapping(mem1, owner1, mem2, owner2, d, First(kmap[i]), kmap[i].start / PGSIZE, n, kmap[i].perm)
    ensures (forall f :: NewFrame(owner, owner2, d, f)) && Elsewhere(mem, owner, mem2, owner2, d)
    ensures n == Last(kmap[i]) - First(kmap[i]) + 1 ==> NewSpace(mem, owner, mem2, owner2, d, kmap[..i + 1])
  {
    hide Pte, Entry;
    RegionBounds(kmap, i);
    ElsewhereJoins(mem, owner, mem1, owner1, mem2, owner2, d);
    var k, pf := kmap[i], kmap[i].start / PGSIZE;
    var first := First(k);
    forall f ensures NewFrame(owner, owner2, d, f) {
      assert NewFrame(owner, owner1, d, f) && MappedFrame(owner1, owner2, d, first, pf, n, f);
    }
    assert MappedFrame(owner1, owner2, d, first, pf, n, d);
    if n == Last(k) - First(k) + 1 {
      assert kmap[..i + 1][..i] == kmap[..i];
      forall v | 0 <= v < PAGES
        ensures Pte(mem2, d, v) == KernelEntry(kmap[..i + 1], v)
      {
        assert MappedPte(mem1, mem2, owner1, d, first, pf, n, k.perm, d, v);
      }
    }
  }

  // Before the space is given up: what it has is all its own, and nothing is in hand.
  lemma SettledSpace(mem: Mem, owner: Owners, mem1: Mem, owner1: Owners, d: int)
    requires Settled(owner) && d !in owner && d != -1 && forall f :: NewFrame(owner, owner1, d, f)
    ensures Settled(owner1) && NoneHeld(owner1, d)
  {
    forall f | f in owner1 && owner1[f].Held?
      ensures owner1[f].dir != -1 ==> IsDir(owner1, owner1[f].dir)
      ensures owner1[f] != Held(d)
    {
      assert NewFrame(owner, owner1, d, f) && NewFrame(owner, owner1, d, owner1[f].dir);
    }
  }

  // Memory and ownership are exactly what they were: no frame is lost, none is overwritten.
  ghost predicate Same(mem: Mem, owner: Owners, mem': Mem, owner': Owners) {
    owner' == owner && forall f | f in owner :: f in mem && f in mem' && mem'[f] == mem[f]
  }

  lemma GivenUp(mem: Mem, owner: Owners, mem1: Mem, owner1: Owners, mem2: Mem, owner2: Owners, d: int)
    requires Matched(mem, owner) && Settled(owner) && d !in owner && d != -1
    requires Elsewhere(mem, owner, mem1, owner1, d) && TornDown(mem1, owner1, mem2, owner2, d)
    ensures Same(mem, owner, mem2, owner2)
  {
    hide Matched;
    TearJoins(mem, owner, mem1, owner1, mem2, owner2, d);
    NoSuchSpace(mem, owner, d);
    NoTrace(mem, owner, mem2, owner2, d);
  }

  lemma SameSame(mem: Mem, owner: Owners, mem': Mem)
    requires mem' == mem && forall f | f in owner :: f in mem
    ensures Same(mem, owner, mem', owner)
  {
  }

  lemma SpaceSettled(mem: Mem, owner: Owners, mem': Mem, owner': Owners, d: int, kmap: seq<Region>)
    requires KmapOk(kmap) && NewSpace(mem, owner, mem', owner', d, kmap) && Settled(owner) && d != -1
    ensures Settled(owner') && NoneHeld(owner', d)
  {
    SettledSpace(mem, owner, mem', owner', d);
  }

  lemma SpaceIsDir(mem: Mem, owner: Owners, mem': Mem, owner': Owners, d: int, kmap: seq<Region>)
    requires KmapOk(kmap) && NewSpace(mem, owner, mem', owner', d, kmap)
    ensures IsDir(owner', d) && d !in owner
  {
  }

  lemma RegionBounds(kmap: seq<Region>, i: nat)
    requires KmapOk(kmap) && i < |kmap|
    ensures RegionOk(kmap[i]) && KmapOk(kmap[..i + 1])
    ensures var k := kmap[i];
      && KERNBASE <= k.virt && 0 < Size(k) && k.virt + Size(k) <= TWO32 && 0 <= k.perm < PGSIZE
      && 0 <= k.start && k.start % PGSIZE == 0 && k.start / PGSIZE + Last(k) - First(k) < PAGES
  {
  }

  // ---- Copying --------------------------------------------------------------------------------

  // What the copy of page v of space pg is to look like.
  function CopyLook(mem: Mem, pg: int): int -> Look {
    v => match At(mem, pg, v)
         case Mapped(_, flags, data) => Look(flags, data)
         case Unmapped => Blank(v)
  }

  // A page of the copy: same contents and flags, in a frame nobody had before.
  predicate CopiedPage(mem: Mem, owner: Owners, mem': Mem, pg: int, d: int, v: int) {
    var s, c := At(mem, pg, v), At(mem', d, v);
    s.Mapped? && c.Mapped? && c.flags == s.flags && c.data == s.data && c.frame !in owner
  }

  // d is a new space with a copy of the first n pages of pg and the kernel's entries, and
  // nothing outside d has changed.
  ghost predicate CopyOf(mem: Mem, owner: Owners, mem': Mem, owner': Owners, pg: int, d: int, n: int, kmap: seq<Region>)
    requires KmapOk(kmap)
  {
    && d !in owner && IsDir(owner', d)
    && (forall v | 0 <= v < n :: CopiedPage(mem, owner, mem', pg, d, v))
    && (forall v | n <= v < PAGES :: Pte(mem', d, v) == KernelEntry(kmap, v))
    && Elsewhere(mem, owner, mem', owner', d)
  }

  // Work on another space leaves this one as it is.
  lemma OtherSpaceKept(mem: Mem, owner: Owners, mem': Mem, owner': Owners, d: int, pg: int, v: int)
    requires Matched(mem, owner) && Elsewhere(mem, owner, mem', owner', d)
    requires IsDir(owner, pg) && pg != d && 0 <= v < UPAGES
    ensures IsDir(owner', pg) && Pte(mem', pg, v) == Pte(mem, pg, v) && At(mem', pg, v) == At(mem, pg, v)
    ensures Present(Pte(mem, pg, v)) ==> At(mem, pg, v).Mapped?
  {
    assert KeptFrame(mem, owner, mem', owner', d, pg);
    assert TableOwned(mem, owner, pg, v / ENTRIES) && UserOwned(mem, owner, pg, v);
    var e := DirEntry(mem, pg, v / ENTRIES);
    assert KeptFrame(mem, owner, mem', owner', d, Frame(e));
    assert KeptFrame(mem, owner, mem', owner', d, Frame(Pte(mem, pg, v)));
  }

  lemma PresentWalk(mem: Mem, d: int, v: int)
    requires Present(Pte(mem, d, v))
    ensures Present(DirEntry(mem, d, v / ENTRIES))
  {
  }

  lemma LookOfCopy(mem: Mem, pg: int, v: int, m: int)
    requires At(mem, pg, v).Mapped?
    ensures var e := Pte(mem, pg, v);
      Frame(e) in mem && Flags(e) % 2 == 1 && 0 <= Flags(e) < PGSIZE
      && CopyLook(mem, pg)(v) == Look(Flags(e), mem[Frame(e)])
  {
  }

  lemma GrowthSettled(mem: Mem, owner: Owners, mem1: Mem, owner1: Owners, d: int, v: int, x: int, want: int -> Look)
    requires Growth(mem, owner, mem1, owner1, d, 0, v, x, want) && Settled(owner) && NoneHeld(owner, d)
    requires x in owner1 ==> Owns(owner1, x, Held(d))
    ensures Settled(owner1 - {x}) && NoneHeld(owner1 - {x}, d)
  {
    forall f | f in owner1 && f != x && owner1[f].Held?
      ensures owner1[f].dir != -1 ==> IsDir(owner1, owner1[f].dir) && owner1[f].dir != x
      ensures owner1[f] != Held(d)
    {
      assert GrownFrame(owner, owner1, d, 0, v, x, f) && GrownFrame(owner, owner1, d, 0, v, x, owner1[f].dir);
    }
  }

  // Overwriting or releasing a frame of d, or taking one for d, is nothing to the other spaces.
  lemma OwnFrame(mem: Mem, owner: Owners, mem1: Mem, owner1: Owners, d: int, m: int, page: Page)
    requires Elsewhere(mem, owner, mem1, owner1, d)
    requires m in owner1 ==> OfSpace(owner1, m, d)
    ensures Elsewhere(mem, owner, mem1[m := page], owner1[m := Held(d)], d)
    ensures Elsewhere(mem, owner, mem1[m := page], owner1 - {m}, d)
  {
    var mem2, more, less := mem1[m := page], owner1[m := Held(d)], owner1 - {m};
    forall f
      ensures KeptFrame(mem, owner, mem2, more, d, f) && KeptFrame(mem, owner, mem2, less, d, f)
    {
      assert KeptFrame(mem, owner, mem1, owner1, d, f);
    }
  }

  lemma MappedElsewhere(mem: Mem, owner: Owners, mem': Mem, owner': Owners,
                        d: int, first: int, pf: int, n: int, perm: int)
    requires 0 <= perm < PGSIZE && 0 <= pf && pf + n <= PAGES
    requires Mapping(mem, owner, mem', owner', d, first, pf, n, perm)
    ensures Elsewhere(mem, owner, mem', owner', d)
  {
  }

  lemma CopyEnds(mem: Mem, owner: Owners, mem1: Mem, owner1: Owners, mem2: Mem, owner2: Owners,
                 pg: int, d: int, n: int, kmap: seq<Region>)
    requires Matched(mem, owner) && Matched(mem2, owner2) && IsDir(owner, pg) && 0 <= n <= UPAGES && KmapOk(kmap)
    requires forall v | 0 <= v < n :: Present(Pte(mem, pg, v))
    requires NewSpace(mem, owner, mem1, owner1, d, kmap)
    requires Growth(mem1, owner1, mem2, owner2, d, 0, n, -1, CopyLook(mem, pg))
    ensures CopyOf(mem, owner, mem2, owner2, pg, d, n, kmap)
  {
    hide Pte;
    ElsewhereJoins(mem, owner, mem1, owner1, mem2, owner2, d);
    assert GrownFrame(owner1, owner2, d, 0, n, -1, d);
    forall v | 0 <= v < n
      ensures CopiedPage(mem, owner, mem2, pg, d, v)
    {
      OtherSpaceKept(mem, owner, mem1, owner1, d, pg, v);
      assert GrownPte(mem1, mem2, owner1, d, 0, n, CopyLook(mem, pg), d, v);
      assert UserOwned(mem2, owner2, d, v);
      var f := At(mem2, d, v).frame;
      assert UserReal(mem, owner, f);
      assert NewFrame(owner, owner1, d, f) && GrownFrame(owner1, owner2, d, 0, n, -1, f);
    }
    forall v | n <= v < PAGES
      ensures Pte(mem2, d, v) == KernelEntry(kmap, v)
    {
      assert GrownPte(mem1, mem2, owner1, d, 0, n, CopyLook(mem, pg), d, v);
    }
  }

  // Freeing a copy gives every frame back: the system is exactly as before the copy was made.
  lemma FreeUndoesCopy(mem: Mem, owner: Owners, mem1: Mem, owner1: Owners, mem2: Mem, owner2: Owners,
                       pg: int, d: int, n: int, kmap: seq<Region>)
    requires Matched(mem, owner) && Settled(owner) && KmapOk(kmap) && d != -1
    requires CopyOf(mem, owner, mem1, owner1, pg, d, n, kmap) && TornDown(mem1, owner1, mem2, owner2, d)
    ensures Same(mem, owner, mem2, owner2)
  {
    GivenUp(mem, owner, mem1, owner1, mem2, owner2, d);
  }

  lemma SameLook(mem: Mem, mem': Mem, pg: int, v: int)
    requires At(mem', pg, v) == At(mem, pg, v)
    ensures CopyLook(mem', pg)(v) == CopyLook(mem, pg)(v)
  {
  }

  lemma SpaceFacts(mem: Mem, owner: Owners, mem': Mem, owner': Owners, d: int, kmap: seq<Region>)
    requires KmapOk(kmap) && NewSpace(mem, owner, mem', owner', d, kmap)
    ensures d !in owner && IsDir(owner', d) && Elsewhere(mem, owner, mem', owner', d)
    ensures forall v | 0 <= v < UPAGES :: !Present(Pte(mem', d, v))
  {
    NoUserEntry(kmap);
  }

  lemma SpaceHands(mem: Mem, owner: Owners, mem': Mem, owner': Owners, d: int, kmap: seq<Region>)
    requires KmapOk(kmap) && NewSpace(mem, owner, mem', owner', d, kmap)
    ensures HandsKept(owner, owner')
  {
    NewSpaceHands(owner, owner', d);
  }

  lemma SameOwners(mem: Mem, owner: Owners, mem': Mem, owner': Owners)
    requires Same(mem, owner, mem', owner')
    ensures owner' == owner && HandsKept(owner, owner')
  {
  }

  lemma CopyFacts(mem: Mem, owner: Owners, mem': Mem, owner': Owners, pg: int, d: int, n: int, kmap: seq<Region>)
    requires KmapOk(kmap) && CopyOf(mem, owner, mem', owner', pg, d, n, kmap)
    ensures d !in owner && IsDir(owner', d) && Elsewhere(mem, owner, mem', owner', d)
    ensures forall v | 0 <= n <= v < UPAGES :: !Present(Pte(mem', d, v))
  {
    NoUserEntry(kmap);
  }

  // However a space of n pages was made larger or smaller, it did not touch the others.
  lemma GrowIsLocal(mem: Mem, owner: Owners, mem': Mem, owner': Owners, d: int, n: int, m: int)
    requires (mem' == mem && owner' == owner && forall f | f in owner :: f in mem)
             || Growth(mem, owner, mem', owner', d, n, m, -1, Blank)
             || Restored(mem, owner, mem', owner', d, -1) || Unmapping(mem, owner, mem', owner', d, m, n)
    ensures Elsewhere(mem, owner, mem', owner', d)
  {
  }
}
