/**
 Two-level page tables over physical frames, and who owns which frame. A frame is 1024 32-bit
 words, so page directories, page tables and user pages are decoded from the same memory, as in
 vm.c. The lemmas say what each kind of change to that memory does to every space.

 Every frame in use has one role: a directory, a table behind a directory entry, the frame of a
 user page, or a frame in hand. Matched says that roles and entries are the same thing.
 */
module PageTables {
  import opened Counting

  const PGSIZE := 4096
  const ENTRIES := 1024
  const PAGES := 0x10_0000        // virtual pages in a 32-bit address space
  const UPAGES := 0x8_0000        // those below KERNBASE
  const KERNBASE := 0x8000_0000
  const TWO32 := 0x1_0000_0000

  type Word = x: int | 0 <= x < 0x1_0000_0000
  type Page = s: seq<Word> | |s| == 1024 witness seq(1024, _ => 0)

  function Zeros(): Page {
    seq(ENTRIES, _ => 0)
  }

  function Junk(): Page {
    seq(ENTRIES, _ => 0x0101_0101)
  }

  // ---- Entries: a frame number above twelve flag bits, bit 0 meaning present ------------

  predicate Present(w: Word) {
    w % 2 == 1
  }

  function Frame(w: Word): int {
    w / PGSIZE
  }

  function Flags(w: Word): int {
    w % PGSIZE
  }

  // frame | perm | PTE_P
  function Entry(frame: int, perm: int): (w: Word)
    requires 0 <= frame < PAGES && 0 <= perm < PGSIZE
    ensures Present(w) && Frame(w) == frame && Flags(w) == (if perm % 2 == 1 then perm else perm + 1)
  {
    frame * PGSIZE + (if perm % 2 == 1 then perm else perm + 1)
  }

  // ---- Who owns a frame -------------------------------------------------------------------

  datatype Role =
    | Directory
    | Table(dir: int, index: int)   // the page table behind directory entry `index`
    | User(dir: int, page: int)     // the frame behind user page `page`
    | Held(dir: int)                // allocated for the address space, not linked in
    | Other                         // in use by the kernel itself: a kernel stack, a pipe

  type Mem = map<int, Page>
  type Owners = map<int, Role>

  predicate IsDir(owner: Owners, d: int) {
    Owns(owner, d, Directory)
  }

  predicate Owns(owner: Owners, f: int, r: Role) {
    f in owner && owner[f] == r
  }

  function DirEntry(mem: Mem, d: int, i: int): Word {
    if d in mem && 0 <= i < ENTRIES then mem[d][i] else 0
  }

  // The page table entry of virtual page v, 0 where there is no page table.
  function Pte(mem: Mem, d: int, v: int): Word {
    var e := DirEntry(mem, d, v / ENTRIES);
    if Present(e) && Frame(e) in mem then mem[Frame(e)][v % ENTRIES] else 0
  }

  // Directory entries and Table roles are the same thing seen from both sides; a directory entry
  // lets the user read and write, so that the page table entry alone decides what he may do.
  predicate TableOwned(mem: Mem, owner: Owners, d: int, i: int) {
    IsDir(owner, d) && Present(DirEntry(mem, d, i)) ==>
      Owns(owner, Frame(DirEntry(mem, d, i)), Table(d, i)) && Flags(DirEntry(mem, d, i)) % 8 == 7
  }

  predicate TableReal(mem: Mem, owner: Owners, f: int) {
    f in owner && owner[f].Table? ==>
      var e := DirEntry(mem, owner[f].dir, owner[f].index);
      IsDir(owner, owner[f].dir) && 0 <= owner[f].index < ENTRIES && Present(e) && Frame(e) == f
  }

  // User page table entries and User roles are the same thing too.
  predicate UserOwned(mem: Mem, owner: Owners, d: int, v: int) {
    IsDir(owner, d) && 0 <= v < UPAGES && Present(Pte(mem, d, v)) ==>
      Owns(owner, Frame(Pte(mem, d, v)), User(d, v))
  }

  predicate UserReal(mem: Mem, owner: Owners, f: int) {
    f in owner && owner[f].User? ==>
      var e := Pte(mem, owner[f].dir, owner[f].page);
      IsDir(owner, owner[f].dir) && 0 <= owner[f].page < UPAGES && Present(e) && Frame(e) == f
  }

  ghost predicate Matched(mem: Mem, owner: Owners) {
    && (forall f | f in owner :: f in mem)
    && (forall d, i :: TableOwned(mem, owner, d, i))
    && (forall f :: TableReal(mem, owner, f))
    && (forall d, v :: UserOwned(mem, owner, d, v))
    && (forall f :: UserReal(mem, owner, f))
  }

  lemma NobodyOwns(mem: Mem)
    ensures Matched(mem, map[])
  {
  }

  // ---- What a change of memory does to the entries ---------------------------------------

  ghost predicate SamePtes(mem: Mem, mem': Mem, owner: Owners) {
    forall d, v | IsDir(owner, d) :: Pte(mem', d, v) == Pte(mem, d, v)
  }

  // A frame that is not a directory or a page table can be overwritten freely.
  lemma FillKeeps(mem: Mem, owner: Owners, f: int, page: Page)
    requires Matched(mem, owner) && f in owner && (owner[f].Held? || owner[f].User? || owner[f].Other?)
    ensures Matched(mem[f := page], owner) && SamePtes(mem, mem[f := page], owner)
  {
    var mem' := mem[f := page];
    forall d, v | IsDir(owner, d)
      ensures Pte(mem', d, v) == Pte(mem, d, v)
    {
      assert TableOwned(mem, owner, d, v / ENTRIES);
    }
    SameEntries(mem, owner, mem');
  }

  lemma SameEntries(mem: Mem, owner: Owners, mem': Mem)
    requires Matched(mem, owner) && mem'.Keys == mem.Keys
    requires forall d | IsDir(owner, d) && d in mem :: mem'[d] == mem[d]
    requires SamePtes(mem, mem', owner)
    ensures Matched(mem', owner)
  {
    forall d, i ensures TableOwned(mem', owner, d, i) {
      assert TableOwned(mem, owner, d, i);
    }
    forall f ensures TableReal(mem', owner, f) {
      assert TableReal(mem, owner, f);
    }
    forall d, v ensures UserOwned(mem', owner, d, v) {
      assert UserOwned(mem, owner, d, v);
    }
    forall f ensures UserReal(mem', owner, f) {
      assert UserReal(mem, owner, f);
    }
  }

  // A zeroed frame becomes the page table behind an empty directory entry.
  lemma LinkTable(mem: Mem, owner: Owners, d: int, i: int, f: int)
    requires Matched(mem, owner) && Owns(owner, f, Held(d)) && mem[f] == Zeros() && 0 <= f < PAGES
    requires IsDir(owner, d) && 0 <= i < ENTRIES && !Present(DirEntry(mem, d, i))
    ensures var mem', owner' := mem[d := mem[d][i := Entry(f, 7)]], owner[f := Table(d, i)];
      Matched(mem', owner') && SamePtes(mem, mem', owner)
  {
    var mem', owner' := mem[d := mem[d][i := Entry(f, 7)]], owner[f := Table(d, i)];
    forall d', v | IsDir(owner, d')
      ensures Pte(mem', d', v) == Pte(mem, d', v)
    {
      assert TableOwned(mem, owner, d', v / ENTRIES);
    }
    forall d', i' ensures TableOwned(mem', owner', d', i') {
      assert TableOwned(mem, owner, d', i');
    }
    forall g ensures TableReal(mem', owner', g) {
      assert TableReal(mem, owner, g);
    }
    forall d', v ensures UserOwned(mem', owner', d', v) {
      assert UserOwned(mem, owner, d', v);
    }
    forall g ensures UserReal(mem', owner', g) {
      assert UserReal(mem, owner, g);
    }
  }

  // The page table entry of page v of space d is word k of frame t.
  predicate PteAt(mem: Mem, owner: Owners, d: int, v: int, t: int) {
    && IsDir(owner, d) && 0 <= v < PAGES && t in mem
    && Owns(owner, t, Table(d, v / ENTRIES)) && Present(DirEntry(mem, d, v / ENTRIES))
    && Frame(DirEntry(mem, d, v / ENTRIES)) == t
  }

  function WithPte(mem: Mem, t: int, v: int, w: Word): Mem
    requires t in mem
  {
    mem[t := mem[t][v % ENTRIES := w]]
  }

  // Writing it changes that entry and no other one of any space.
  lemma OnePteChanges(mem: Mem, owner: Owners, d: int, v: int, t: int, w: Word, d': int, v': int)
    requires Matched(mem, owner) && PteAt(mem, owner, d, v, t) && IsDir(owner, d')
    ensures Pte(WithPte(mem, t, v, w), d', v') == if d' == d && v' == v then w else Pte(mem, d', v')
  {
    assert TableOwned(mem, owner, d', v' / ENTRIES);
    var e := DirEntry(mem, d', v' / ENTRIES);
    if Present(e) && Frame(e) == t {
      assert v' / ENTRIES == v / ENTRIES;
    }
  }

  // A kernel entry says nothing about ownership.
  lemma KernelPte(mem: Mem, owner: Owners, d: int, v: int, t: int, w: Word)
    requires Matched(mem, owner) && PteAt(mem, owner, d, v, t) && v >= UPAGES
    ensures Matched(WithPte(mem, t, v, w), owner)
  {
    var mem' := WithPte(mem, t, v, w);
    PteWriteKeepsTables(mem, owner, d, v, t, w);
    forall d', v' ensures UserOwned(mem', owner, d', v') {
      if IsDir(owner, d') {
        OnePteChanges(mem, owner, d, v, t, w, d', v');
      }
      assert UserOwned(mem, owner, d', v');
    }
    forall g ensures UserReal(mem', owner, g) {
      assert UserReal(mem, owner, g);
      if g in owner && owner[g].User? {
        OnePteChanges(mem, owner, d, v, t, w, owner[g].dir, owner[g].page);
      }
    }
  }

  lemma PteWriteKeepsTables(mem: Mem, owner: Owners, d: int, v: int, t: int, w: Word)
    requires Matched(mem, owner) && PteAt(mem, owner, d, v, t)
    ensures forall d', i :: TableOwned(WithPte(mem, t, v, w), owner, d', i)
    ensures forall g :: TableReal(WithPte(mem, t, v, w), owner, g)
  {
    var mem' := WithPte(mem, t, v, w);
    forall d', i ensures TableOwned(mem', owner, d', i) {
      assert TableOwned(mem, owner, d', i);
    }
    forall g ensures TableReal(mem', owner, g) {
      assert TableReal(mem, owner, g);
    }
  }

  // A held frame goes behind an empty user entry.
  lemma MapUser(mem: Mem, owner: Owners, d: int, v: int, t: int, w: Word)
    requires Matched(mem, owner) && PteAt(mem, owner, d, v, t) && v < UPAGES && !Present(Pte(mem, d, v))
    requires Present(w) && Owns(owner, Frame(w), Held(d))
    ensures Matched(WithPte(mem, t, v, w), owner[Frame(w) := User(d, v)])
  {
    var mem', owner' := WithPte(mem, t, v, w), owner[Frame(w) := User(d, v)];
    PteWriteKeepsTables(mem, owner, d, v, t, w);
    forall d', i ensures TableOwned(mem', owner', d', i) {
      assert TableOwned(mem', owner, d', i);
    }
    forall g ensures TableReal(mem', owner', g) {
      assert TableReal(mem', owner, g);
    }
    forall d', v' ensures UserOwned(mem', owner', d', v') {
      if IsDir(owner, d') {
        OnePteChanges(mem, owner, d, v, t, w, d', v');
      }
      assert UserOwned(mem, owner, d', v');
    }
    forall g ensures UserReal(mem', owner', g) {
      assert UserReal(mem, owner, g);
      if g in owner' && owner'[g].User? {
        OnePteChanges(mem, owner, d, v, t, w, owner'[g].dir, owner'[g].page);
      }
    }
  }

  // A user entry loses its present bit and its frame is released.
  lemma UnmapUser(mem: Mem, owner: Owners, d: int, v: int, t: int, w: Word)
    requires Matched(mem, owner) && PteAt(mem, owner, d, v, t) && v < UPAGES && Present(Pte(mem, d, v)) && !Present(w)
    ensures Owns(owner, Frame(Pte(mem, d, v)), User(d, v))
    ensures Matched(WithPte(mem, t, v, w), owner - {Frame(Pte(mem, d, v))})
  {
    assert UserOwned(mem, owner, d, v);
    var mem', owner' := WithPte(mem, t, v, w), owner - {Frame(Pte(mem, d, v))};
    PteWriteKeepsTables(mem, owner, d, v, t, w);
    forall d', i ensures TableOwned(mem', owner', d', i) {
      assert TableOwned(mem', owner, d', i);
    }
    forall g ensures TableReal(mem', owner', g) {
      assert TableReal(mem', owner, g);
    }
    forall d', v' ensures UserOwned(mem', owner', d', v') {
      if IsDir(owner, d') {
        OnePteChanges(mem, owner, d, v, t, w, d', v');
      }
      assert UserOwned(mem, owner, d', v');
    }
    forall g ensures UserReal(mem', owner', g) {
      assert UserReal(mem, owner, g);
      if g in owner' && owner'[g].User? {
        OnePteChanges(mem, owner, d, v, t, w, owner'[g].dir, owner'[g].page);
      }
    }
  }

  // A zeroed frame becomes an empty directory.
  lemma MakeDir(mem: Mem, owner: Owners, f: int)
    requires Matched(mem, owner) && f in owner && owner[f].Held? && mem[f] == Zeros()
    ensures Matched(mem, owner[f := Directory])
  {
    var owner' := owner[f := Directory];
    forall d, i ensures TableOwned(mem, owner', d, i) {
      assert TableOwned(mem, owner, d, i);
    }
    forall g ensures TableReal(mem, owner', g) {
      assert TableReal(mem, owner, g);
    }
    forall d, v ensures UserOwned(mem, owner', d, v) {
      assert UserOwned(mem, owner, d, v);
    }
    forall g ensures UserReal(mem, owner', g) {
      assert UserReal(mem, owner, g);
    }
  }

  // The directory and the page tables of a space without user pages, seen as loose frames.
  function Dissolved(owner: Owners, d: int): (r: Owners)
    ensures forall f :: f in r <==> f in owner
  {
    map f | f in owner :: if f == d || (owner[f].Table? && owner[f].dir == d) then Held(d) else owner[f]
  }

  lemma DropDir(mem: Mem, owner: Owners, d: int)
    requires Matched(mem, owner) && IsDir(owner, d)
    requires forall f | f in owner && owner[f].User? :: owner[f].dir != d
    ensures Matched(mem, Dissolved(owner, d))
  {
    var owner' := Dissolved(owner, d);
    forall d', i ensures TableOwned(mem, owner', d', i) {
      assert TableOwned(mem, owner, d', i);
    }
    forall g ensures TableReal(mem, owner', g) {
      assert TableReal(mem, owner, g);
    }
    forall d', v ensures UserOwned(mem, owner', d', v) {
      assert UserOwned(mem, owner, d', v);
    }
    forall g ensures UserReal(mem, owner', g) {
      assert UserReal(mem, owner, g);
    }
  }

  // A loose frame comes or goes.
  lemma LooseFrame(mem: Mem, owner: Owners, f: int, d: int)
    requires Matched(mem, owner) && f in mem && (f in owner ==> owner[f].Held? || owner[f].Other?)
    ensures Matched(mem, owner[f := Held(d)]) && Matched(mem, owner[f := Other]) && Matched(mem, owner - {f})
  {
    forall owner' | owner' == owner[f := Held(d)] || owner' == owner[f := Other] || owner' == owner - {f}
      ensures Matched(mem, owner')
    {
      forall d', i ensures TableOwned(mem, owner', d', i) {
        assert TableOwned(mem, owner, d', i);
      }
      forall g ensures TableReal(mem, owner', g) {
        assert TableReal(mem, owner, g);
      }
      forall d', v ensures UserOwned(mem, owner', d', v) {
        assert UserOwned(mem, owner, d', v);
      }
      forall g ensures UserReal(mem, owner', g) {
        assert UserReal(mem, owner, g);
      }
    }
  }

  // ---- How an operation on space d changes ownership and contents -------------------------

  predicate OfSpace(owner: Owners, f: int, d: int)
    requires f in owner
  {
    match owner[f]
    case Directory => f == d
    case Table(e, _) => e == d
    case User(e, _) => e == d
    case Held(e) => e == d
    case Other => false
  }

  // Frame f is outside space d before and after, in the same role with the same contents.
  predicate KeptFrame(mem: Mem, owner: Owners, mem': Mem, owner': Owners, d: int, f: int) {
    && (f in owner && !OfSpace(owner, f, d) ==>
          Owns(owner', f, owner[f]) && f in mem && f in mem' && mem'[f] == mem[f])
    && (f in owner' && !OfSpace(owner', f, d) ==> f in owner && !OfSpace(owner, f, d))
  }

  ghost predicate Elsewhere(mem: Mem, owner: Owners, mem': Mem, owner': Owners, d: int) {
    forall f :: KeptFrame(mem, owner, mem', owner', d, f)
  }

  // The contents of frame f, if it is user memory or held, are kept.
  predicate KeptData(mem: Mem, owner: Owners, mem': Mem, f: int) {
    f in owner && (owner[f].User? || owner[f].Held?) ==> f in mem && f in mem' && mem'[f] == mem[f]
  }

  ghost predicate SameData(mem: Mem, owner: Owners, mem': Mem) {
    forall f :: KeptData(mem, owner, mem', f)
  }

  // New frames serve as page tables of d, old ones keep their role.
  predicate Grew(owner: Owners, owner': Owners, d: int, f: int) {
    && (f in owner ==> Owns(owner', f, owner[f]))
    && (f in owner' && f !in owner ==> owner'[f].Table? && owner'[f].dir == d)
  }

  ghost predicate OnlyTables(owner: Owners, owner': Owners, d: int) {
    forall f :: Grew(owner, owner', d, f)
  }

  // Ownership after n pages from `first` on were mapped to the frames from pf on: old frames keep
  // their role, except held ones that went behind user pages; new frames are page tables of d.
  predicate MappedFrame(owner: Owners, owner': Owners, d: int, first: int, pf: int, n: int, f: int) {
    && (f in owner ==>
          Owns(owner', f,
               if pf <= f < pf + n && owner[f] == Held(d) && first + f - pf < UPAGES then User(d, first + f - pf)
               else owner[f]))
    && (f in owner' && f !in owner ==> owner'[f].Table? && owner'[f].dir == d)
  }

  ghost predicate MappedOwners(owner: Owners, owner': Owners, d: int, first: int, pf: int, n: int) {
    forall f :: MappedFrame(owner, owner', d, first, pf, n, f)
  }

  // The entries after pages `first` to `first + n` of d were mapped; nothing else changed.
  predicate MappedPte(mem: Mem, mem': Mem, owner: Owners, d: int, first: int, pf: int, n: int, perm: int,
                      d': int, v: int)
    requires 0 <= perm < PGSIZE && 0 <= pf && pf + n <= PAGES
  {
    IsDir(owner, d') ==>
      Pte(mem', d', v) == if d' == d && first <= v < first + n then Entry(pf + v - first, perm) else Pte(mem, d', v)
  }

  ghost predicate MappedPtes(mem: Mem, mem': Mem, owner: Owners, d: int, first: int, pf: int, n: int, perm: int)
    requires 0 <= perm < PGSIZE && 0 <= pf && pf + n <= PAGES
  {
    forall d', v :: MappedPte(mem, mem', owner, d, first, pf, n, perm, d', v)
  }

  // All that mapping n pages of d does.
  ghost predicate Mapping(mem: Mem, owner: Owners, mem': Mem, owner': Owners,
                          d: int, first: int, pf: int, n: int, perm: int)
    requires 0 <= perm < PGSIZE && 0 <= pf && pf + n <= PAGES
  {
    && MappedPtes(mem, mem', owner, d, first, pf, n, perm)
    && MappedOwners(owner, owner', d, first, pf, n)
    && SameData(mem, owner, mem')
    && Elsewhere(mem, owner, mem', owner', d)
  }

  lemma MappingStarts(mem: Mem, owner: Owners, d: int, first: int, pf: int, perm: int)
    requires 0 <= perm < PGSIZE && 0 <= pf <= PAGES && forall f | f in owner :: f in mem
    ensures Mapping(mem, owner, mem, owner, d, first, pf, 0, perm)
  {
  }

  lemma MappingGrows(mem: Mem, owner: Owners, mem1: Mem, owner1: Owners, mem2: Mem, owner2: Owners,
                     d: int, first: int, pf: int, n: nat, m: nat, perm: int)
    requires 0 <= perm < PGSIZE && 0 <= pf && pf + n + m <= PAGES && m <= 1
    requires Mapping(mem, owner, mem1, owner1, d, first, pf, n, perm)
    requires Mapping(mem1, owner1, mem2, owner2, d, first + n, pf + n, m, perm)
    ensures Mapping(mem, owner, mem2, owner2, d, first, pf, n + m, perm)
  {
    hide Pte, Entry;
    var k, first1, pf1 := n + m, first + n, pf + n;
    forall d', v
      ensures MappedPte(mem, mem2, owner, d, first, pf, k, perm, d', v)
    {
      assert MappedPte(mem, mem1, owner, d, first, pf, n, perm, d', v);
      assert MappedPte(mem1, mem2, owner1, d, first1, pf1, m, perm, d', v);
      assert MappedFrame(owner, owner1, d, first, pf, n, d');
    }
    forall f
      ensures MappedFrame(owner, owner2, d, first, pf, k, f)
      ensures KeptData(mem, owner, mem2, f)
      ensures KeptFrame(mem, owner, mem2, owner2, d, f)
    {
      assert MappedFrame(owner, owner1, d, first, pf, n, f);
      assert MappedFrame(owner1, owner2, d, first1, pf1, m, f);
      assert KeptData(mem, owner, mem1, f) && KeptData(mem1, owner1, mem2, f);
      assert KeptFrame(mem, owner, mem1, owner1, d, f) && KeptFrame(mem1, owner1, mem2, owner2, d, f);
    }
  }

  // A walk that makes at most a page table maps nothing.
  lemma WalkMapsNone(mem: Mem, owner: Owners, mem': Mem, owner': Owners, d: int, first: int, pf: int, perm: int)
    requires 0 <= perm < PGSIZE && 0 <= pf <= PAGES
    requires SamePtes(mem, mem', owner) && SameData(mem, owner, mem')
    requires OnlyTables(owner, owner', d) && Elsewhere(mem, owner, mem', owner', d)
    ensures Mapping(mem, owner, mem', owner', d, first, pf, 0, perm)
  {
    hide Pte, Entry;
    forall f ensures MappedFrame(owner, owner', d, first, pf, 0, f) {
      assert Grew(owner, owner', d, f);
    }
  }

  // The ownership side of writing the entry of page v.
  function OwnerMapped(owner: Owners, d: int, v: int, frame: int): Owners {
    if v < UPAGES then owner[frame := User(d, v)] else owner
  }

  lemma WriteMapsOne(mem: Mem, owner: Owners, d: int, v: int, t: int, frame: int, perm: int)
    requires Matched(mem, owner) && PteAt(mem, owner, d, v, t) && !Present(Pte(mem, d, v))
    requires 0 <= perm < PGSIZE && 0 <= frame < PAGES && (v < UPAGES ==> Owns(owner, frame, Held(d)))
    ensures var mem', owner' := WithPte(mem, t, v, Entry(frame, perm)), OwnerMapped(owner, d, v, frame);
      Matched(mem', owner') && Mapping(mem, owner, mem', owner', d, v, frame, 1, perm)
  {
    hide Pte, Entry, Matched;
    var mem', owner' := WithPte(mem, t, v, Entry(frame, perm)), OwnerMapped(owner, d, v, frame);
    if v < UPAGES {
      MapUser(mem, owner, d, v, t, Entry(frame, perm));
    } else {
      KernelPte(mem, owner, d, v, t, Entry(frame, perm));
    }
    forall d', v' ensures MappedPte(mem, mem', owner, d, v, frame, 1, perm, d', v') {
      if IsDir(owner, d') {
        OnePteChanges(mem, owner, d, v, t, Entry(frame, perm), d', v');
      }
    }
    InMem(mem, owner);
  }

  // What a walk leaves in place for the write after it.
  lemma PteIs(mem: Mem, owner: Owners, mem': Mem, owner': Owners, d: int, v: int, t: int, frame: int)
    requires SamePtes(mem, mem', owner) && IsDir(owner, d) && OnlyTables(owner, owner', d)
    requires PteAt(mem', owner', d, v, t)
    ensures Pte(mem', d, v) == Pte(mem, d, v) == mem'[t][v % ENTRIES]
    ensures Owns(owner, frame, Held(d)) ==> Owns(owner', frame, Held(d))
  {
    assert Grew(owner, owner', d, frame);
  }

  lemma StillHeld(mem: Mem, owner: Owners, mem': Mem, owner': Owners, d: int, v: int, m: int, perm: int)
    requires 0 <= perm < PGSIZE && 0 <= m <= PAGES
    requires Mapping(mem, owner, mem', owner', d, v, m, 0, perm) && Owns(owner, m, Held(d))
    ensures Owns(owner', m, Held(d))
  {
    assert MappedFrame(owner, owner', d, v, m, 0, m);
  }

  lemma PteWord(mem: Mem, owner: Owners, d: int, v: int, t: int)
    requires PteAt(mem, owner, d, v, t)
    ensures Pte(mem, d, v) == mem[t][v % ENTRIES]
  {
  }

  function PageUp(size: int): int {
    (size + PGSIZE - 1) / PGSIZE
  }

  // Page v of d is empty and, if it is a user page, its frame is held for d.
  predicate Mappable(mem: Mem, owner: Owners, d: int, first: int, pf: int, v: int) {
    !Present(Pte(mem, d, v)) && (v < UPAGES ==> Owns(owner, pf + v - first, Held(d)))
  }

  lemma StillMappable(mem: Mem, owner: Owners, mem': Mem, owner': Owners,
                      d: int, first: int, pf: int, n: nat, perm: int)
    requires 0 <= perm < PGSIZE && 0 <= pf && pf + n <= PAGES && IsDir(owner, d)
    requires Mapping(mem, owner, mem', owner', d, first, pf, n, perm) && Mappable(mem, owner, d, first, pf, first + n)
    ensures !Present(Pte(mem', d, first + n)) && (first + n < UPAGES ==> Owns(owner', pf + n, Held(d)))
  {
    assert MappedPte(mem, mem', owner, d, first, pf, n, perm, d, first + n);
    assert MappedFrame(owner, owner', d, first, pf, n, pf + n);
  }

  lemma InMem(mem: Mem, owner: Owners)
    requires Matched(mem, owner)
    ensures forall f | f in owner :: f in mem
  {
  }

  lemma NothingChanges(mem: Mem, owner: Owners, d: int)
    requires forall f | f in owner :: f in mem
    ensures SamePtes(mem, mem, owner) && SameData(mem, owner, mem)
    ensures OnlyTables(owner, owner, d) && Elsewhere(mem, owner, mem, owner, d)
  {
  }

  lemma DirIn(mem: Mem, owner: Owners, d: int, i: int)
    requires Matched(mem, owner) && IsDir(owner, d)
    ensures d in mem && TableOwned(mem, owner, d, i)
  {
  }

  // A fresh frame is zeroed and linked in as the page table behind directory entry i.
  lemma MakeTable(mem: Mem, owner: Owners, d: int, i: int, t: int)
    requires Matched(mem, owner) && IsDir(owner, d) && d in mem && 0 <= i < ENTRIES && !Present(DirEntry(mem, d, i))
    requires t in mem && t !in owner && 0 <= t < PAGES
    ensures var mem1 := mem[t := Zeros()]; d in mem1 && t != d
    ensures var mem1 := mem[t := Zeros()];
      var mem', owner' := mem1[d := mem1[d][i := Entry(t, 7)]], owner[t := Table(d, i)];
      && Matched(mem', owner') && SamePtes(mem, mem', owner) && SameData(mem, owner, mem')
      && OnlyTables(owner, owner', d) && Elsewhere(mem, owner, mem', owner', d)
      && Present(DirEntry(mem', d, i)) && Frame(DirEntry(mem', d, i)) == t
      && owner' == owner[t := Held(d)][t := Table(d, i)]
  {
    hide Matched, Pte, Entry;
    LooseFrame(mem, owner, t, d);
    FillKeeps(mem, owner[t := Held(d)], t, Zeros());
    LinkTable(mem[t := Zeros()], owner[t := Held(d)], d, i, t);
    assert owner[t := Held(d)][t := Table(d, i)] == owner[t := Table(d, i)];
    forall e | IsDir(owner, e)
      ensures IsDir(owner[t := Held(d)], e)
    {
    }
  }

  // ---- How many page tables there are ------------------------------------------------------

  // The directory entries of d that have a page table.
  function TablesOf(mem: Mem, d: int): set<int> {
    set i: int | 0 <= i < ENTRIES && Present(DirEntry(mem, d, i))
  }

  // The directory entries that n pages from `first` on fall under.
  function Span(first: int, n: int): set<int> {
    if n <= 0 then {} else Range(first / ENTRIES, (first + n - 1) / ENTRIES + 1)
  }

  // Those of them without a page table, one of which mapping the pages has to make for each.
  function Missing(tables: set<int>, first: int, n: int): nat {
    |Span(first, n) - tables|
  }

  lemma SpanGrows(first: int, n: nat)
    ensures Span(first, 0) == {} && Span(first, 1) == {first / ENTRIES}
    ensures Span(first, n + 1) == Span(first, n) + {(first + n) / ENTRIES}
  {
  }

  lemma NoneMissing(tables: set<int>, first: int)
    ensures Span(first, 0) == {} && Missing(tables, first, 0) == 0
  {
  }

  lemma SpanIn(first: int, m: nat, n: nat)
    requires m <= n
    ensures Span(first, m) <= Span(first, n)
  {
  }

  // What is missing is what the tables grow by.
  lemma MissingCount(tables: set<int>, first: int, n: int)
    ensures |tables + Span(first, n)| == |tables| + Missing(tables, first, n)
  {
    assert tables + Span(first, n) == tables + (Span(first, n) - tables);
  }

  // A frame that is not the directory holds no directory entry.
  lemma SameTables(mem: Mem, d: int, f: int, page: Page)
    requires f != d
    ensures TablesOf(mem[f := page], d) == TablesOf(mem, d)
  {
  }

  lemma NoTables(mem: Mem, d: int)
    ensures TablesOf(mem[d := Zeros()], d) == {}
  {
    var tables := TablesOf(mem[d := Zeros()], d);
    assert forall i :: i !in tables;
  }

  lemma TableMade(mem: Mem, d: int, i: int, t: int)
    requires d in mem && t != d && 0 <= i < ENTRIES && 0 <= t < PAGES && !Present(DirEntry(mem, d, i))
    ensures var mem1 := mem[t := Zeros()];
      TablesOf(mem1[d := mem1[d][i := Entry(t, 7)]], d) == TablesOf(mem, d) + {i} && i !in TablesOf(mem, d)
  {
    var mem1 := mem[t := Zeros()];
    var mem2 := mem1[d := mem1[d][i := Entry(t, 7)]];
    forall j | 0 <= j < ENTRIES
      ensures j in TablesOf(mem2, d) <==> j in TablesOf(mem, d) + {i}
    {
    }
  }

  lemma MissingIn(tables: set<int>, first: int, m: nat, n: nat)
    requires m <= n
    ensures Missing(tables, first, m) <= Missing(tables, first, n)
  {
    SpanIn(first, m, n);
    SubsetCount(Span(first, m) - tables, Span(first, n) - tables);
  }

  lemma AtMostOne(tables: set<int>, v: int)
    ensures Missing(tables, v, 1) <= 1
  {
    SpanGrows(v, 0);
    SubsetCount(Span(v, 1) - tables, {v / ENTRIES});
  }

  // Page v after those from `first` on, with n to map: what they need, and what v adds to it.
  lemma NextPage(tables: set<int>, first: int, v: int, n: nat)
    requires first <= v < first + n
    ensures |tables + Span(first, v - first)| == |tables| + Missing(tables, first, v - first)
    ensures Missing(tables, first, v - first) + Missing(tables + Span(first, v - first), v, 1)
            <= Missing(tables, first, n)
    ensures tables + Span(first, v + 1 - first) == tables + Span(first, v - first) + Span(v, 1)
    ensures Missing(tables, first, v + 1 - first) == Missing(tables, first, v - first)
                                                     + Missing(tables + Span(first, v - first), v, 1)
    ensures Missing(tables + Span(first, v - first), v, 1) <= 1
    ensures tables + Span(first, v - first) + Span(v, 0) == tables + Span(first, v - first) <= tables + Span(first, n)
  {
    hide Span;
    var m := v - first;
    SpanGrows(first, m);
    SpanGrows(v, 0);
    assert Span(first, m + 1) == Span(first, m) + Span(v, 1);
    MissingCount(tables, first, m);
    BeyondCount(tables, Span(first, m), Span(v, 1));
    SpanIn(first, m, n);
    MissingIn(tables, first, m + 1, n);
    AtMostOne(tables + Span(first, m), v);
    assert tables + Span(first, m + 1) == tables + Span(first, m) + Span(v, 1);
  }

  // A mapping that stops short stops at a page without a page table, for want of a frame.
  lemma StopsShort(tables: set<int>, first: int, done: nat, n: nat)
    requires done < n && (first + done) / ENTRIES !in tables + Span(first, done)
    ensures |tables + Span(first, done)| < |tables| + Missing(tables, first, n)
  {
    var all := tables + Span(first, n);
    var index := (first + done) / ENTRIES;
    SpanIn(first, done, n);
    SpanGrows(first, done);
    SpanIn(first, done + 1, n);
    SubsetCount(tables + Span(first, done) + {index}, all);
    MissingCount(tables, first, n);
  }

  // ---- Unmapping ---------------------------------------------------------------------------

  predicate UnmappedPte(mem: Mem, mem': Mem, owner: Owners, d: int, v0: int, v1: int, d': int, v: int) {
    IsDir(owner, d') ==>
      if d' == d && v0 <= v < v1 then !Present(Pte(mem', d', v)) else Pte(mem', d', v) == Pte(mem, d', v)
  }

  // Exactly the frames behind user pages v0 to v1 of d lose their owner.
  predicate UnmappedFrame(owner: Owners, owner': Owners, d: int, v0: int, v1: int, f: int) {
    && (f in owner' <==> f in owner && !(owner[f].User? && owner[f].dir == d && v0 <= owner[f].page < v1))
    && (f in owner' ==> owner'[f] == owner[f])
  }

  // The contents of a frame of user memory, if it still is one, are kept.
  predicate LeftData(mem: Mem, mem': Mem, owner': Owners, f: int) {
    f in owner' && (owner'[f].User? || owner'[f].Held?) ==> f in mem && f in mem' && mem'[f] == mem[f]
  }

  // All that unmapping pages v0 to v1 of d does.
  ghost predicate Unmapping(mem: Mem, owner: Owners, mem': Mem, owner': Owners, d: int, v0: int, v1: int) {
    && (forall d', v :: UnmappedPte(mem, mem', owner, d, v0, v1, d', v))
    && (forall f :: UnmappedFrame(owner, owner', d, v0, v1, f))
    && (forall f :: LeftData(mem, mem', owner', f))
    && Elsewhere(mem, owner, mem', owner', d)
  }

  lemma UnmapNone(mem: Mem, owner: Owners, d: int, v0: int, v1: int)
    requires Matched(mem, owner) && forall v | v0 <= v < v1 :: !Present(Pte(mem, d, v))
    ensures Unmapping(mem, owner, mem, owner, d, v0, v1)
  {
    hide Pte;
    forall f ensures UnmappedFrame(owner, owner, d, v0, v1, f) {
      assert UserReal(mem, owner, f);
    }
  }

  // No page table, no pages: the jump to the next page table skips nothing.
  lemma NoTableNoPages(mem: Mem, d: int, v: int)
    requires !Present(DirEntry(mem, d, v / ENTRIES))
    ensures forall u | v <= u < (v / ENTRIES + 1) * ENTRIES :: !Present(Pte(mem, d, u))
  {
    forall u | v <= u < (v / ENTRIES + 1) * ENTRIES
      ensures !Present(Pte(mem, d, u))
    {
      assert u / ENTRIES == v / ENTRIES;
    }
  }

  lemma UnmapOne(mem: Mem, owner: Owners, d: int, v: int, t: int)
    requires Matched(mem, owner) && PteAt(mem, owner, d, v, t) && v < UPAGES && Present(Pte(mem, d, v))
    ensures var f := Frame(Pte(mem, d, v)); f in owner && f in mem && f != t
    ensures var f := Frame(Pte(mem, d, v)); var mem', owner' := WithPte(mem[f := Junk()], t, v, 0), owner - {f};
      Matched(mem', owner') && IsDir(owner', d) && Unmapping(mem, owner, mem', owner', d, v, v + 1)
  {
    hide Pte, Junk;
    var next := v + 1;
    var f := Frame(Pte(mem, d, v));
    assert UserOwned(mem, owner, d, v);
    FillKeeps(mem, owner, f, Junk());
    var mem1 := mem[f := Junk()];
    assert DirEntry(mem1, d, v / ENTRIES) == DirEntry(mem, d, v / ENTRIES);
    UnmapUser(mem1, owner, d, v, t, 0);
    var mem', owner' := WithPte(mem1, t, v, 0), owner - {f};
    forall d', u
      ensures UnmappedPte(mem, mem', owner, d, v, next, d', u)
    {
      if IsDir(owner, d') {
        OnePteChanges(mem1, owner, d, v, t, 0, d', u);
      }
    }
    forall g ensures UnmappedFrame(owner, owner', d, v, next, g) {
      assert UserReal(mem, owner, g);
    }
  }

  lemma UnmapJoins(mem: Mem, owner: Owners, mem1: Mem, owner1: Owners, mem2: Mem, owner2: Owners,
                   d: int, v0: int, v1: int, v2: int)
    requires v0 <= v1 <= v2
    requires Unmapping(mem, owner, mem1, owner1, d, v0, v1) && Unmapping(mem1, owner1, mem2, owner2, d, v1, v2)
    ensures Unmapping(mem, owner, mem2, owner2, d, v0, v2)
  {
    hide Pte;
    forall d', v
      ensures UnmappedPte(mem, mem2, owner, d, v0, v2, d', v)
    {
      assert UnmappedPte(mem, mem1, owner, d, v0, v1, d', v) && UnmappedPte(mem1, mem2, owner1, d, v1, v2, d', v);
      assert UnmappedFrame(owner, owner1, d, v0, v1, d');
    }
    forall f
      ensures UnmappedFrame(owner, owner2, d, v0, v2, f)
      ensures LeftData(mem, mem2, owner2, f)
      ensures KeptFrame(mem, owner, mem2, owner2, d, f)
    {
      assert UnmappedFrame(owner, owner1, d, v0, v1, f) && UnmappedFrame(owner1, owner2, d, v1, v2, f);
      assert LeftData(mem, mem1, owner1, f) && LeftData(mem1, mem2, owner2, f);
      assert KeptFrame(mem, owner, mem1, owner1, d, f) && KeptFrame(mem1, owner1, mem2, owner2, d, f);
    }
  }

  // ---- What a program sees ------------------------------------------------------------------

  // What a program sees of user page v of space d.
  datatype Slot = Unmapped | Mapped(frame: int, flags: int, data: Page)

  function At(mem: Mem, d: int, v: int): Slot {
    var e := Pte(mem, d, v);
    if Present(e) && Frame(e) in mem then Mapped(Frame(e), Flags(e), mem[Frame(e)]) else Unmapped
  }
}
