/**
 The user-level allocator of umalloc.c: a circular, address-ordered list of free blocks with a
 roving start pointer. Addresses are in bytes and sizes in 8-byte header units, as in the source.
 */
module Umalloc {
  import opened Counting

  const HEADER := 8
  const MIN_UNITS := 4096
  const KERNBASE := 0x8000_0000
  const TWO32 := 0x1_0000_0000

  // ---- Request sizes -----------------------------------------------------------------

  // nunits in malloc: the sum is a 32-bit unsigned one.
  function Units(nbytes: int): (u: int)
    requires 0 <= nbytes < TWO32
    ensures 1 <= u <= 0x2000_0000
  {
    (nbytes + HEADER - 1) % TWO32 / HEADER + 1
  }

  // The units behind the header hold the request exactly when the sum does not wrap, and then one
  // unit less would not.
  lemma LargeEnough(nbytes: int)
    requires 0 <= nbytes < TWO32
    ensures HEADER * (Units(nbytes) - 1) >= nbytes <==> nbytes <= TWO32 - HEADER
    ensures nbytes <= TWO32 - HEADER ==> HEADER * (Units(nbytes) - 2) < nbytes
  {
    if nbytes <= TWO32 - HEADER {
      assert (nbytes + HEADER - 1) % TWO32 == nbytes + HEADER - 1;
    } else {
      assert (nbytes + HEADER - 1) % TWO32 == nbytes + HEADER - 1 - TWO32;
    }
  }

  function Grown(nu: int): int {
    if nu < MIN_UNITS then MIN_UNITS else nu
  }

  // What sbrk's int parameter receives for nu units.
  function SbrkArgument(nu: int): int {
    var n := nu * HEADER % TWO32;
    if n < KERNBASE then n else n - TWO32
  }

  // morecore asks for more memory exactly when the request is below 2^28 units; above that it
  // asks the kernel to take memory back, and at 2^29 for none.
  lemma SbrkGrowsIff(nu: int)
    requires 1 <= nu <= 0x2000_0000
    ensures SbrkArgument(Grown(nu)) > 0 <==> nu < 0x1000_0000
    ensures nu < 0x1000_0000 ==> SbrkArgument(Grown(nu)) == HEADER * Grown(nu)
  {
    if nu < 0x1000_0000 {
      assert Grown(nu) * HEADER % TWO32 == Grown(nu) * HEADER;
    } else if nu < 0x2000_0000 {
      assert nu * HEADER % TWO32 == nu * HEADER;
    }
  }

  // ---- The free list ---------------------------------------------------------------------

  type Memory = map<int, int>

  function End(size: Memory, a: int): int {
    if a in size then a + HEADER * size[a] else a
  }

  predicate LinkAt(ptr: Memory, ring: seq<int>, i: nat)
    requires i < |ring|
  {
    ring[i] in ptr && ptr[ring[i]] == ring[Succ(i, |ring|)]
  }

  predicate Linked(ptr: Memory, ring: seq<int>) {
    forall i | 0 <= i < |ring| :: LinkAt(ptr, ring, i)
  }

  // Block i ends before block i + 1 begins: in order, disjoint, and never merely adjacent.
  predicate GapAt(size: Memory, ring: seq<int>, i: nat)
    requires i + 1 < |ring|
  {
    End(size, ring[i]) < ring[i + 1]
  }

  // ring lists the free list from base on; only blocks e and e + 1 may touch.
  predicate RingBut(base: int, ptr: Memory, size: Memory, ring: seq<int>, e: int) {
    && |ring| > 0 && ring[0] == base
    && (forall i | 0 <= i < |ring| ::
          ring[i] in ptr && ring[i] in size && (if i == 0 then size[ring[i]] == 0 else size[ring[i]] > 0))
    && Linked(ptr, ring)
    && (forall i | 0 <= i < |ring| - 1 && i != e :: GapAt(size, ring, i))
    && (0 <= e < |ring| - 1 ==> End(size, ring[e]) <= ring[e + 1])
    && (|ring| > 1 ==> base + HEADER <= ring[1])
  }

  // The free list between two calls.
  predicate RingOk(base: int, ptr: Memory, size: Memory, ring: seq<int>) {
    RingBut(base, ptr, size, ring, -1)
  }

  predicate FreeAt(size: Memory, ring: seq<int>, i: nat, x: int)
    requires i < |ring|
  {
    ring[i] <= x < End(size, ring[i])
  }

  predicate FreeByte(size: Memory, ring: seq<int>, x: int) {
    exists i | 0 <= i < |ring| :: FreeAt(size, ring, i, x)
  }

  predicate LiveAt(live: Memory, a: int, x: int) {
    a in live && a <= x < a + HEADER * live[a]
  }

  predicate LiveByte(live: Memory, x: int) {
    exists a | a in live :: LiveAt(live, a, x)
  }

  // Allocated blocks keep their header, lie above base and never overlap.
  predicate LiveOk(base: int, size: Memory, live: Memory) {
    && (forall a | a in live :: live[a] > 0 && a in size && size[a] == live[a] && base + HEADER <= a)
    && forall a, b | a in live && b in live && a < b :: a + HEADER * live[a] <= b
  }

  // The bytes obtained from sbrk are split between free and live blocks, each to one of them.
  ghost predicate Partition(arena: set<int>, size: Memory, ring: seq<int>, live: Memory) {
    forall x :: (x in arena <==> FreeByte(size, ring, x) || LiveByte(live, x))
             && !(FreeByte(size, ring, x) && LiveByte(live, x))
  }

  lemma {:induction false} RingSorted(base: int, ptr: Memory, size: Memory, ring: seq<int>, i: nat, j: nat)
    requires RingOk(base, ptr, size, ring) && i < j < |ring|
    ensures End(size, ring[i]) < ring[j] && ring[i] < ring[j]
  {
    assert GapAt(size, ring, j - 1);
    if i < j - 1 {
      RingSorted(base, ptr, size, ring, i, j - 1);
    }
  }

  // The order and the gaps make the list the canonical form of the set of free bytes: two
  // lists over the same bytes are the same list with the same sizes.
  lemma {:induction false} Canonical(base: int, ptr: Memory, size: Memory, ring: seq<int>,
                                     ptr': Memory, size': Memory, ring': seq<int>, k: nat)
    requires RingOk(base, ptr, size, ring) && RingOk(base, ptr', size', ring')
    requires forall x :: FreeByte(size, ring, x) <==> FreeByte(size', ring', x)
    requires k <= |ring|
    ensures k <= |ring'| && ring[..k] == ring'[..k]
    ensures forall i | 0 <= i < k :: size[ring[i]] == size'[ring[i]]
  {
    if k > 1 {
      var i := k - 1;
      Canonical(base, ptr, size, ring, ptr', size', ring', i);
      StartsNoLater(base, ptr, size, ring, ptr', size', ring', i);
      StartsNoLater(base, ptr', size', ring', ptr, size, ring, i);
      EndsNoLater(base, ptr, size, ring, ptr', size', ring', i);
      EndsNoLater(base, ptr', size', ring', ptr, size, ring, i);
    }
  }

  // Once the first i blocks agree, block i of one list cannot start before block i of the other.
  lemma StartsNoLater(base: int, ptr: Memory, size: Memory, ring: seq<int>,
                      ptr': Memory, size': Memory, ring': seq<int>, i: nat)
    requires RingOk(base, ptr, size, ring) && RingOk(base, ptr', size', ring')
    requires forall x :: FreeByte(size, ring, x) <==> FreeByte(size', ring', x)
    requires 0 < i < |ring| && i <= |ring'| && ring[..i] == ring'[..i]
    requires forall j | 0 <= j < i :: size[ring[j]] == size'[ring[j]]
    ensures i < |ring'| && ring'[i] <= ring[i]
  {
    var x := ring[i];
    assert FreeAt(size, ring, i, x);
    assert FreeByte(size, ring, x) && FreeByte(size', ring', x);
    var j :| 0 <= j < |ring'| && FreeAt(size', ring', j, x);
    if j < i {
      assert ring'[j] == ring'[..i][j] == ring[j];
      RingSorted(base, ptr, size, ring, j, i);
    } else if j > i {
      RingSorted(base, ptr', size', ring', i, j);
    }
  }

  lemma EndsNoLater(base: int, ptr: Memory, size: Memory, ring: seq<int>,
                    ptr': Memory, size': Memory, ring': seq<int>, i: nat)
    requires RingOk(base, ptr, size, ring) && RingOk(base, ptr', size', ring')
    requires forall x :: FreeByte(size, ring, x) <==> FreeByte(size', ring', x)
    requires 0 < i < |ring| && i < |ring'| && ring[i] == ring'[i]
    ensures size[ring[i]] <= size'[ring[i]]
  {
    var e := End(size', ring'[i]);
    if size[ring[i]] > size'[ring[i]] {
      assert FreeAt(size, ring, i, e);
      assert FreeByte(size, ring, e) && FreeByte(size', ring', e);
      var j :| 0 <= j < |ring'| && FreeAt(size', ring', j, e);
      if j < i {
        RingSorted(base, ptr', size', ring', j, i);
      } else if j > i {
        RingSorted(base, ptr', size', ring', i, j);
      }
      assert false;
    }
  }

  // Two valid free lists over the same bytes are the same list.
  lemma CanonicalList(base: int, ptr: Memory, size: Memory, ring: seq<int>,
                      ptr': Memory, size': Memory, ring': seq<int>)
    requires RingOk(base, ptr, size, ring) && RingOk(base, ptr', size', ring')
    requires forall x :: FreeByte(size, ring, x) <==> FreeByte(size', ring', x)
    ensures ring == ring' && forall a | a in ring :: size[a] == size'[a] && ptr[a] == ptr'[a]
  {
    Canonical(base, ptr, size, ring, ptr', size', ring', |ring|);
    Canonical(base, ptr', size', ring', ptr, size, ring, |ring'|);
    forall a | a in ring
      ensures size[a] == size'[a] && ptr[a] == ptr'[a]
    {
      var i :| 0 <= i < |ring| && ring[i] == a;
      assert LinkAt(ptr, ring, i) && LinkAt(ptr', ring', i);
    }
  }

  // ---- Giving a block back -------------------------------------------------------------

  lemma {:induction false} RingButSorted(base: int, ptr: Memory, size: Memory, ring: seq<int>, e: int, i: nat, j: nat)
    requires RingBut(base, ptr, size, ring, e) && i < j < |ring|
    ensures End(size, ring[i]) <= ring[j] && ring[i] < ring[j]
  {
    assert j - 1 != e ==> GapAt(size, ring, j - 1);
    assert j == 1 ==> base < ring[1];
    if i < j - 1 {
      RingButSorted(base, ptr, size, ring, e, i, j - 1);
    }
  }

  lemma AllDistinct(base: int, ptr: Memory, size: Memory, ring: seq<int>, e: int)
    requires RingBut(base, ptr, size, ring, e)
    ensures forall i, j | 0 <= i < j < |ring| :: ring[i] < ring[j]
  {
    forall i, j | 0 <= i < j < |ring|
      ensures ring[i] < ring[j]
    {
      RingButSorted(base, ptr, size, ring, e, i, j);
    }
  }

  function InsertAt(ring: seq<int>, t: nat, bp: int): (r: seq<int>)
    requires t < |ring|
    ensures |r| == |ring| + 1
    ensures forall i | 0 <= i <= t :: r[i] == ring[i]
    ensures r[t + 1] == bp
    ensures forall i | t + 1 < i < |r| :: r[i] == ring[i - 1]
  {
    ring[..t + 1] + [bp] + ring[t + 1..]
  }

  function RemoveAt(ring: seq<int>, t: nat): (r: seq<int>)
    requires t < |ring|
    ensures |r| == |ring| - 1
    ensures forall i | 0 <= i < t :: r[i] == ring[i]
    ensures forall i | t <= i < |r| :: r[i] == ring[i + 1]
  {
    ring[..t] + ring[t + 1..]
  }

  // ptr after bp is put between block t and the next.
  function PtrIn(ptr: Memory, ring: seq<int>, t: nat, bp: int): Memory
    requires t < |ring| && ring[t] in ptr
  {
    ptr[bp := ptr[ring[t]]][ring[t] := bp]
  }

  // bp goes between block t and the next, which it does not touch.
  predicate Fits(base: int, size: Memory, ring: seq<int>, t: nat, bp: int) {
    && t < |ring| && bp in size && size[bp] > 0
    && base + HEADER <= bp && ring[t] < bp && End(size, ring[t]) <= bp
    && (t + 1 < |ring| ==> End(size, bp) <= ring[t + 1])
  }

  lemma RingLinks(base: int, ptr: Memory, size: Memory, ring: seq<int>, e: int)
    requires RingBut(base, ptr, size, ring, e)
    ensures Linked(ptr, ring)
    ensures forall i, j | 0 <= i < j < |ring| :: ring[i] < ring[j]
  {
    AllDistinct(base, ptr, size, ring, e);
  }

  lemma LinkInLinks(base: int, ptr: Memory, size: Memory, ring: seq<int>, t: nat, bp: int)
    requires RingBut(base, ptr, size, ring, -1) && Fits(base, size, ring, t, bp) && End(size, bp) > bp
    requires ring[t] in ptr
    ensures Linked(PtrIn(ptr, ring, t, bp), InsertAt(ring, t, bp))
  {
    hide RingBut, InsertAt, End;
    RingLinks(base, ptr, size, ring, -1);
    var ring', ptr' := InsertAt(ring, t, bp), PtrIn(ptr, ring, t, bp);
    assert LinkAt(ptr, ring, t);
    forall i | 0 <= i < |ring'|
      ensures LinkAt(ptr', ring', i)
    {
      if i < t {
        assert LinkAt(ptr, ring, i);
      } else if i > t + 1 {
        assert LinkAt(ptr, ring, i - 1);
      }
    }
  }

  // The bytes of a list after bp is put in.
  lemma LinkInBytes(base: int, size: Memory, ring: seq<int>, t: nat, bp: int, x: int)
    requires Fits(base, size, ring, t, bp)
    ensures FreeByte(size, InsertAt(ring, t, bp), x) <==> FreeByte(size, ring, x) || bp <= x < End(size, bp)
  {
    hide InsertAt, End;
    var ring' := InsertAt(ring, t, bp);
    if i :| 0 <= i < |ring| && FreeAt(size, ring, i, x) {
      assert FreeAt(size, ring', if i <= t then i else i + 1, x);
    }
    if bp <= x < End(size, bp) {
      assert FreeAt(size, ring', t + 1, x);
    }
    if i :| 0 <= i < |ring'| && FreeAt(size, ring', i, x) {
      assert i != t + 1 ==> FreeAt(size, ring, if i <= t then i else i - 1, x);
    }
  }

  lemma LinkIn(base: int, ptr: Memory, size: Memory, ring: seq<int>, t: nat, bp: int)
    requires RingOk(base, ptr, size, ring) && Fits(base, size, ring, t, bp)
    requires t + 1 < |ring| ==> End(size, bp) < ring[t + 1]
    ensures RingBut(base, PtrIn(ptr, ring, t, bp), size, InsertAt(ring, t, bp), t)
  {
    hide InsertAt;
    var ring' := InsertAt(ring, t, bp);
    LinkInLinks(base, ptr, size, ring, t, bp);
    forall i | 0 <= i < |ring'| - 1 && i != t
      ensures GapAt(size, ring', i)
    {
      if i < t {
        assert GapAt(size, ring, i);
      } else if i > t + 1 {
        assert GapAt(size, ring, i - 1);
      }
    }
  }

  // bp goes between block t and the next, which it touches and takes in.
  lemma TakeInLinks(base: int, ptr: Memory, size: Memory, ring: seq<int>, t: nat, bp: int)
    requires RingBut(base, ptr, size, ring, -1) && Fits(base, size, ring, t, bp) && t + 1 < |ring|
    requires ring[t + 1] in ptr && bp < ring[t + 1]
    ensures Linked(ptr[bp := ptr[ring[t + 1]]][ring[t] := bp], ring[t + 1 := bp])
  {
    hide RingBut, End;
    RingLinks(base, ptr, size, ring, -1);
    var ring', ptr' := ring[t + 1 := bp], ptr[bp := ptr[ring[t + 1]]][ring[t] := bp];
    assert LinkAt(ptr, ring, t) && LinkAt(ptr, ring, t + 1);
    forall i | 0 <= i < |ring'|
      ensures LinkAt(ptr', ring', i)
    {
      assert LinkAt(ptr, ring, i);
    }
  }

  lemma TakeIn(base: int, ptr: Memory, size: Memory, ring: seq<int>, t: nat, bp: int)
    requires RingOk(base, ptr, size, ring) && Fits(base, size, ring, t, bp)
    requires t + 1 < |ring| && End(size, bp) == ring[t + 1]
    ensures var q := ring[t + 1]; var size' := size[bp := size[bp] + size[q]];
      RingBut(base, ptr[bp := ptr[q]][ring[t] := bp], size', ring[t + 1 := bp], t)
  {
    TakeInLinks(base, ptr, size, ring, t, bp);
    RingLinks(base, ptr, size, ring, -1);
    var ring', size' := ring[t + 1 := bp], size[bp := size[bp] + size[ring[t + 1]]];
    forall i | 0 <= i < |ring'| - 1 && i != t
      ensures GapAt(size', ring', i)
    {
      assert GapAt(size, ring, i);
    }
  }

  lemma TakeInBytes(base: int, ptr: Memory, size: Memory, ring: seq<int>, t: nat, bp: int, x: int)
    requires RingOk(base, ptr, size, ring) && Fits(base, size, ring, t, bp)
    requires t + 1 < |ring| && End(size, bp) == ring[t + 1]
    ensures FreeByte(size[bp := size[bp] + size[ring[t + 1]]], ring[t + 1 := bp], x) <==>
            FreeByte(size, ring, x) || bp <= x < End(size, bp)
  {
    RingLinks(base, ptr, size, ring, -1);
    var ring', size' := ring[t + 1 := bp], size[bp := size[bp] + size[ring[t + 1]]];
    if i :| 0 <= i < |ring| && FreeAt(size, ring, i, x) {
      assert FreeAt(size', ring', i, x);
    }
    if bp <= x < End(size, bp) {
      assert FreeAt(size', ring', t + 1, x);
    }
    if i :| 0 <= i < |ring'| && FreeAt(size', ring', i, x) {
      assert FreeAt(size, ring, i, x) || bp <= x < End(size, bp);
    }
  }

  // Block t takes in the block behind it, which it touches.
  lemma MergeLinks(ptr: Memory, ring: seq<int>, t: nat)
    requires Linked(ptr, ring) && t + 1 < |ring|
    requires forall i, j | 0 <= i < j < |ring| :: ring[i] < ring[j]
    ensures ring[t + 1] in ptr && Linked(ptr[ring[t] := ptr[ring[t + 1]]], RemoveAt(ring, t + 1))
  {
    hide RemoveAt;
    assert LinkAt(ptr, ring, t + 1);
    var ring', ptr' := RemoveAt(ring, t + 1), ptr[ring[t] := ptr[ring[t + 1]]];
    assert LinkAt(ptr, ring, t) && LinkAt(ptr, ring, t + 1);
    forall i | 0 <= i < |ring'|
      ensures LinkAt(ptr', ring', i)
    {
      assert LinkAt(ptr, ring, if i <= t then i else i + 1);
    }
  }

  lemma Merge(base: int, ptr: Memory, size: Memory, ring: seq<int>, t: nat)
    requires RingBut(base, ptr, size, ring, t) && t + 1 < |ring| && End(size, ring[t]) == ring[t + 1]
    ensures var size' := size[ring[t] := size[ring[t]] + size[ring[t + 1]]];
      RingOk(base, ptr[ring[t] := ptr[ring[t + 1]]], size', RemoveAt(ring, t + 1))
  {
    hide RemoveAt;
    RingLinks(base, ptr, size, ring, t);
    MergeLinks(ptr, ring, t);
    var ring', size' := RemoveAt(ring, t + 1), size[ring[t] := size[ring[t]] + size[ring[t + 1]]];
    forall i | 0 <= i < |ring'| - 1
      ensures GapAt(size', ring', i)
    {
      assert GapAt(size, ring, if i < t then i else i + 1);
    }
  }

  lemma MergeBytes(base: int, ptr: Memory, size: Memory, ring: seq<int>, t: nat, x: int)
    requires RingBut(base, ptr, size, ring, t) && t + 1 < |ring| && End(size, ring[t]) == ring[t + 1]
    ensures FreeByte(size[ring[t] := size[ring[t]] + size[ring[t + 1]]], RemoveAt(ring, t + 1), x) <==>
            FreeByte(size, ring, x)
  {
    hide RemoveAt;
    RingLinks(base, ptr, size, ring, t);
    var ring', size' := RemoveAt(ring, t + 1), size[ring[t] := size[ring[t]] + size[ring[t + 1]]];
    if i :| 0 <= i < |ring| && FreeAt(size, ring, i, x) {
      assert FreeAt(size', ring', if i <= t then i else i - 1, x);
    }
    if i :| 0 <= i < |ring'| && FreeAt(size', ring', i, x) {
      if i == t {
        assert FreeAt(size, ring, t, x) || FreeAt(size, ring, t + 1, x);
      } else {
        assert FreeAt(size, ring, if i < t then i else i + 1, x);
      }
    }
  }

  // ---- Taking a block out ----------------------------------------------------------------

  // Block t + 1 is taken whole.
  lemma Unlink(base: int, ptr: Memory, size: Memory, ring: seq<int>, t: nat)
    requires RingOk(base, ptr, size, ring) && t + 1 < |ring|
    ensures RingOk(base, ptr[ring[t] := ptr[ring[t + 1]]], size, RemoveAt(ring, t + 1))
  {
    hide RemoveAt;
    RingLinks(base, ptr, size, ring, -1);
    MergeLinks(ptr, ring, t);
    var ring' := RemoveAt(ring, t + 1);
    forall i | 0 <= i < |ring'| - 1
      ensures GapAt(size, ring', i)
    {
      assert GapAt(size, ring, if i < t then i else i + 1);
      assert GapAt(size, ring, i);
    }
  }

  lemma UnlinkBytes(base: int, ptr: Memory, size: Memory, ring: seq<int>, t: nat, x: int)
    requires RingOk(base, ptr, size, ring) && t + 1 < |ring|
    ensures FreeByte(size, RemoveAt(ring, t + 1), x) <==> FreeByte(size, ring, x) && !FreeAt(size, ring, t + 1, x)
  {
    hide RemoveAt;
    var ring' := RemoveAt(ring, t + 1);
    if i :| 0 <= i < |ring| && FreeAt(size, ring, i, x) && i != t + 1 {
      assert FreeAt(size, ring', if i <= t then i else i - 1, x);
    }
    if i :| 0 <= i < |ring'| && FreeAt(size, ring', i, x) {
      var j := if i <= t then i else i + 1;
      assert FreeAt(size, ring, j, x);
      if j < t + 1 {
        RingSorted(base, ptr, size, ring, j, t + 1);
      } else {
        RingSorted(base, ptr, size, ring, t + 1, j);
      }
    }
  }

  // The last n units of block t are taken.
  function Shrunk(size: Memory, p: int, n: int): Memory
    requires p in size
  {
    size[p := size[p] - n][p + HEADER * (size[p] - n) := n]
  }

  lemma Split(base: int, ptr: Memory, size: Memory, ring: seq<int>, t: nat, n: int)
    requires RingOk(base, ptr, size, ring) && t < |ring| && 0 < n < size[ring[t]]
    ensures RingOk(base, ptr, Shrunk(size, ring[t], n), ring)
  {
    RingLinks(base, ptr, size, ring, -1);
    var size', h := Shrunk(size, ring[t], n), ring[t] + HEADER * (size[ring[t]] - n);
    forall i | 0 <= i < |ring|
      ensures ring[i] != h
    {
      if i > t {
        RingSorted(base, ptr, size, ring, t, i);
      }
    }
    forall i | 0 <= i < |ring| - 1
      ensures GapAt(size', ring, i)
    {
      assert GapAt(size, ring, i);
    }
  }

  lemma SplitBytes(base: int, ptr: Memory, size: Memory, ring: seq<int>, t: nat, n: int, x: int)
    requires RingOk(base, ptr, size, ring) && t < |ring| && 0 < n < size[ring[t]]
    ensures var h := ring[t] + HEADER * (size[ring[t]] - n);
      FreeByte(Shrunk(size, ring[t], n), ring, x) <==> FreeByte(size, ring, x) && !(h <= x < h + HEADER * n)
  {
    var size', h := Shrunk(size, ring[t], n), ring[t] + HEADER * (size[ring[t]] - n);
    Split(base, ptr, size, ring, t, n);
    RingLinks(base, ptr, size, ring, -1);
    forall i | 0 <= i < |ring|
      ensures ring[i] != h && (i != t && FreeAt(size, ring, i, x) ==> !(h <= x < h + HEADER * n))
    {
      if i > t {
        RingSorted(base, ptr, size, ring, t, i);
      } else if i < t {
        RingSorted(base, ptr, size, ring, i, t);
      }
    }
    if i :| 0 <= i < |ring| && FreeAt(size, ring, i, x) && !(h <= x < h + HEADER * n) {
      assert FreeAt(size', ring, i, x);
    }
    if i :| 0 <= i < |ring| && FreeAt(size', ring, i, x) {
      assert FreeAt(size, ring, i, x);
    }
  }

  // ---- free as a function of the list -------------------------------------------------------

  datatype Chain = Chain(ptr: Memory, size: Memory, ring: seq<int>)

  predicate ChainOk(base: int, c: Chain) {
    RingOk(base, c.ptr, c.size, c.ring)
  }

  predicate Touches(size: Memory, ring: seq<int>, t: nat, bp: int) {
    t + 1 < |ring| && End(size, bp) == ring[t + 1]
  }

  // bp linked in behind block t, taking in the block after it if they touch.
  function Joined(c: Chain, t: nat, bp: int): Chain
    requires Linked(c.ptr, c.ring) && t < |c.ring| && bp in c.size
    requires forall a | a in c.ring :: a in c.size && a in c.ptr
  {
    var p := c.ring[t];
    if Touches(c.size, c.ring, t, bp) then
      var q := c.ring[t + 1];
      Chain(c.ptr[bp := c.ptr[q]][p := bp], c.size[bp := c.size[bp] + c.size[q]], c.ring[t + 1 := bp])
    else
      Chain(PtrIn(c.ptr, c.ring, t, bp), c.size, InsertAt(c.ring, t, bp))
  }

  function Freed(c: Chain, t: nat, bp: int): Chain
    requires Linked(c.ptr, c.ring) && t < |c.ring| && bp in c.size
    requires forall a | a in c.ring :: a in c.size && a in c.ptr
  {
    var p, j := c.ring[t], Joined(c, t, bp);
    if End(j.size, p) == bp then
      Chain(j.ptr[p := j.ptr[bp]], j.size[p := j.size[p] + j.size[bp]], RemoveAt(j.ring, t + 1))
    else j
  }

  lemma JoinedOk(base: int, c: Chain, t: nat, bp: int)
    requires ChainOk(base, c) && Fits(base, c.size, c.ring, t, bp)
    ensures var j := Joined(c, t, bp); RingBut(base, j.ptr, j.size, j.ring, t)
    ensures var j := Joined(c, t, bp); t + 1 < |j.ring| && j.ring[t] == c.ring[t] && j.ring[t + 1] == bp
    ensures var j := Joined(c, t, bp); End(j.size, j.ring[t]) == End(c.size, c.ring[t])
  {
    if Touches(c.size, c.ring, t, bp) {
      TakeIn(base, c.ptr, c.size, c.ring, t, bp);
    } else {
      LinkIn(base, c.ptr, c.size, c.ring, t, bp);
    }
  }

  lemma JoinedBytes(base: int, c: Chain, t: nat, bp: int, x: int)
    requires ChainOk(base, c) && Fits(base, c.size, c.ring, t, bp)
    ensures var j := Joined(c, t, bp);
      FreeByte(j.size, j.ring, x) <==> FreeByte(c.size, c.ring, x) || bp <= x < End(c.size, bp)
  {
    if Touches(c.size, c.ring, t, bp) {
      TakeInBytes(base, c.ptr, c.size, c.ring, t, bp, x);
    } else {
      LinkInBytes(base, c.size, c.ring, t, bp, x);
    }
  }

  lemma AllGaps(base: int, j: Chain, t: nat)
    requires RingBut(base, j.ptr, j.size, j.ring, t) && t + 1 < |j.ring|
    requires End(j.size, j.ring[t]) != j.ring[t + 1]
    ensures ChainOk(base, j)
  {
    assert GapAt(j.size, j.ring, t);
  }

  lemma ListFacts(base: int, c: Chain)
    requires ChainOk(base, c)
    ensures Linked(c.ptr, c.ring) && forall a | a in c.ring :: a in c.size && a in c.ptr
  {
  }

  // The list stays valid and gains exactly the bytes of bp.
  lemma FreedOk(base: int, c: Chain, t: nat, bp: int)
    requires ChainOk(base, c) && Fits(base, c.size, c.ring, t, bp)
    ensures var f := Freed(c, t, bp); ChainOk(base, f) && c.ring[t] in f.ring
    ensures var f := Freed(c, t, bp);
      forall x :: FreeByte(f.size, f.ring, x) <==> FreeByte(c.size, c.ring, x) || bp <= x < End(c.size, bp)
  {
    hide Joined, FreeByte, RingBut;
    ListFacts(base, c);
    var j, f := Joined(c, t, bp), Freed(c, t, bp);
    JoinedOk(base, c, t, bp);
    if End(j.size, j.ring[t]) == bp {
      Merge(base, j.ptr, j.size, j.ring, t);
    } else {
      AllGaps(base, j, t);
    }
    forall x
      ensures FreeByte(f.size, f.ring, x) <==> FreeByte(c.size, c.ring, x) || bp <= x < End(c.size, bp)
    {
      JoinedBytes(base, c, t, bp, x);
      if End(j.size, j.ring[t]) == bp {
        MergeBytes(base, j.ptr, j.size, j.ring, t, x);
      }
    }
  }

  // ---- Free and live blocks together --------------------------------------------------------

  lemma Apart(base: int, c: Chain, live: Memory, arena: set<int>, i: nat, a: int)
    requires ChainOk(base, c) && LiveOk(base, c.size, live) && Partition(arena, c.size, c.ring, live)
    requires i < |c.ring| && a in live
    ensures End(c.size, c.ring[i]) <= a || a + HEADER * live[a] <= c.ring[i]
    ensures c.ring[i] != a
  {
    assert LiveAt(live, a, a) && LiveByte(live, a);
    assert FreeAt(c.size, c.ring, i, a) ==> FreeByte(c.size, c.ring, a);
    if i > 0 {
      var x := c.ring[i];
      assert FreeAt(c.size, c.ring, i, x) && FreeByte(c.size, c.ring, x);
      assert LiveAt(live, a, x) ==> LiveByte(live, x);
    }
  }

  lemma LiveFits(base: int, c: Chain, live: Memory, arena: set<int>, t: nat, bp: int)
    requires ChainOk(base, c) && LiveOk(base, c.size, live) && Partition(arena, c.size, c.ring, live)
    requires bp in live && t < |c.ring| && c.ring[t] < bp && (t + 1 < |c.ring| ==> bp < c.ring[t + 1])
    ensures Fits(base, c.size, c.ring, t, bp)
  {
    Apart(base, c, live, arena, t, bp);
    if t + 1 < |c.ring| {
      Apart(base, c, live, arena, t + 1, bp);
    }
  }

  predicate SameSizes(size: Memory, size': Memory, live: Memory) {
    forall a | a in live :: a in size && a in size' && size[a] == size'[a]
  }

  // The sizes free changes are those of the freed block and of the free block before it.
  lemma FreedLive(base: int, c: Chain, live: Memory, arena: set<int>, t: nat, bp: int)
    requires ChainOk(base, c) && LiveOk(base, c.size, live) && Partition(arena, c.size, c.ring, live)
    requires bp in live && t < |c.ring|
    ensures SameSizes(c.size, Freed(c, t, bp).size, live - {bp})
  {
    hide FreeByte, LiveByte;
    if c.ring[t] in live {
      Apart(base, c, live, arena, t, c.ring[t]);
    }
  }

  // Moving a block from the live to the free ones keeps the partition.
  lemma MovedToFree(base: int, size: Memory, ring: seq<int>, size': Memory, ring': seq<int>,
                    live: Memory, arena: set<int>, bp: int)
    requires LiveOk(base, size, live) && Partition(arena, size, ring, live) && bp in live
    requires SameSizes(size, size', live - {bp})
    requires forall x :: FreeByte(size', ring', x) <==> FreeByte(size, ring, x) || bp <= x < End(size, bp)
    ensures LiveOk(base, size', live - {bp}) && Partition(arena, size', ring', live - {bp})
  {
    hide FreeByte;
    var live' := live - {bp};
    forall x
      ensures LiveByte(live', x) <==> LiveByte(live, x) && !LiveAt(live, bp, x)
    {
      if a :| a in live && LiveAt(live, a, x) && !LiveAt(live, bp, x) {
        assert LiveAt(live', a, x);
      }
      if a :| a in live' && LiveAt(live', a, x) {
        assert LiveAt(live, a, x);
      }
    }
    forall x
      ensures LiveAt(live, bp, x) ==> LiveByte(live, x)
    {
    }
  }

  // Moving n units at h from the free to the live ones keeps the partition.
  lemma MovedToLive(base: int, size: Memory, ring: seq<int>, size': Memory, ring': seq<int>,
                    live: Memory, arena: set<int>, h: int, n: int)
    requires LiveOk(base, size, live) && Partition(arena, size, ring, live) && n > 0 && base + HEADER <= h
    requires SameSizes(size, size', live) && h in size' && size'[h] == n
    requires forall x :: FreeByte(size', ring', x) <==> FreeByte(size, ring, x) && !(h <= x < h + HEADER * n)
    requires forall x | h <= x < h + HEADER * n :: FreeByte(size, ring, x)
    ensures h !in live && LiveOk(base, size', live[h := n]) && Partition(arena, size', ring', live[h := n])
  {
    hide FreeByte;
    var live' := live[h := n];
    forall a, x | a in live && LiveAt(live, a, x)
      ensures !(h <= x < h + HEADER * n)
    {
      assert LiveByte(live, x);
    }
    forall a | a in live
      ensures h != a && (a < h ==> a + HEADER * live[a] <= h) && (h < a ==> h + HEADER * n <= a)
    {
      assert LiveAt(live, a, a);
      assert a <= h < a + HEADER * live[a] ==> LiveAt(live, a, h);
    }
    forall x
      ensures LiveByte(live', x) <==> LiveByte(live, x) || h <= x < h + HEADER * n
    {
      if a :| a in live && LiveAt(live, a, x) {
        assert LiveAt(live', a, x);
      }
      if h <= x < h + HEADER * n {
        assert LiveAt(live', h, x);
      }
      if a :| a in live' && LiveAt(live', a, x) {
        assert a == h || LiveAt(live, a, x);
      }
    }
  }

  // ---- The allocator ---------------------------------------------------------------------------

  function Dist(i: nat, t: nat, n: nat): (d: int)
    ensures i < n ==> d >= 0
  {
    if i <= t then t - i else n - i + t
  }

  class Allocator {
    const base: int
    var ptr: Memory
    var size: Memory
    var freep: int                // 0 until the first malloc
    ghost var ring: seq<int>      // the free list, from base on
    ghost var live: Memory        // the headers of the blocks handed out, and their units
    ghost var arena: set<int>     // every byte obtained from sbrk
    ghost var top: int            // nothing at or above top has been obtained yet

    ghost function List(): Chain
      reads this
    {
      Chain(ptr, size, ring)
    }

    ghost predicate IsFree(x: int)
      reads this
    {
      FreeByte(size, ring, x)
    }

    ghost predicate Valid()
      reads this
    {
      && 0 < base && base + HEADER <= top <= KERNBASE
      && (forall x | x in arena :: base + HEADER <= x < top)
      && LiveOk(base, size, live) && Partition(arena, size, ring, live)
      && if freep == 0 then ring == [] && live == map[] else ChainOk(base, List()) && freep in ring
    }

    constructor (base: int, top: int)
      requires 0 < base && base + HEADER <= top <= KERNBASE
      ensures Valid() && freep == 0 && arena == {} && live == map[] && this.base == base && this.top == top
    {
      this.base := base;
      ptr, size, freep, ring, live, arena, this.top := map[], map[], 0, [], map[], {}, top;
    }

    // free's loop: it halts from any roving freep, behind the place of bp.
    method Search(bp: int) returns (p: int)
      requires freep != 0 && freep in ring && ChainOk(base, List()) && base < bp && bp !in ring
      ensures p == ring[Place(ring, bp)]
    {
      p := freep;
      ghost var t: nat :| t < |ring| && ring[t] == p;
      ghost var n, target := |ring|, Place(ring, bp);
      while !(bp > p && bp < ptr[p])
        invariant t < n && ring[t] == p
        decreases Dist(t, target, n)
      {
        StepOrder(base, ptr, size, ring, t, target);
        if p >= ptr[p] && (bp > p || bp < ptr[p]) {
          break;
        }
        p := ptr[p];
        t := Succ(t, n);
      }
      StepOrder(base, ptr, size, ring, t, target);
    }

    // The block goes back: its bytes, and no others, become free.
    method Free(ap: int)
      requires Valid() && ap - HEADER in live
      modifies this
      ensures Valid() && freep != 0 && arena == old(arena) && top == old(top)
      ensures live == old(live) - {ap - HEADER}
      ensures old(|ring| > 0 && ring[0] < ap - HEADER) && freep == old(ring[Place(ring, ap - HEADER)])
      ensures forall x :: IsFree(x) <==> old(IsFree(x)) || LiveAt(old(live), ap - HEADER, x)
    {
      hide Joined, FreeByte, LiveByte, RingOk, Fits, Touches;
      var bp := ap - HEADER;
      ghost var c, live0 := List(), live;
      NotListed(base, c, live, arena, bp);
      var p := Search(bp);
      ghost var t := Place(ring, bp);
      LiveFits(base, c, live, arena, t, bp);
      FreedOk(base, c, t, bp);
      FreedLive(base, c, live, arena, t, bp);
      StepOrder(base, ptr, size, ring, t, t);
      Release(bp, p, t);
      MovedToFree(base, c.size, c.ring, size, ring, live, arena, bp);
      live := live - {bp};
      freep := p;
    }

    // The first call makes base the whole list.
    method Start()
      requires Valid() && freep == 0
      modifies this
      ensures Valid() && freep == base && ring == [base]
      ensures live == old(live) && arena == old(arena) && top == old(top)
      ensures forall x :: IsFree(x) <==> old(IsFree(x))
      ensures forall n | n > 0 :: !HasFit(size, ring, n) && !old(HasFit(size, ring, n))
    {
      size := size[base := 0];
      ptr := ptr[base := base];
      freep := base;
      ring := [base];
    }

    // A block of at least nbytes from the free list, which is grown at most once; `at` is what
    // sbrk answers if it is asked. 0 exactly when nothing fits and sbrk has nothing either.
    method Malloc(nbytes: int, at: int) returns (ap: int)
      requires Valid() && 0 <= nbytes < TWO32 && Units(nbytes) < 0x1000_0000
      requires at == -1 || (top <= at && at + HEADER * Grown(Units(nbytes)) <= KERNBASE)
      modifies this
      ensures Valid()
      ensures ap == 0 <==> !old(HasFit(size, ring, Units(nbytes))) && at == -1
      ensures ap == 0 ==> live == old(live) && forall x :: IsFree(x) <==> old(IsFree(x))
      ensures ap == 0 ==> freep == if old(freep) == 0 then base else old(freep)
      ensures ap != 0 ==> ap - HEADER !in old(live) && live == old(live)[ap - HEADER := Units(nbytes)]
      ensures old(HasFit(size, ring, Units(nbytes))) ==>
                NextFit(old(List()), old(freep), freep, ap - HEADER, Units(nbytes))
      ensures !old(HasFit(size, ring, Units(nbytes))) && ap != 0 ==>
                ap - HEADER + HEADER * Units(nbytes) == at + HEADER * Grown(Units(nbytes))
      ensures arena == old(arena) + Obtained(old(HasFit(size, ring, Units(nbytes))), Units(nbytes), at)
      ensures ap != 0 ==> forall x :: IsFree(x) <==>
                (old(IsFree(x)) || x in Obtained(old(HasFit(size, ring, Units(nbytes))), Units(nbytes), at))
                && !LiveAt(live, ap - HEADER, x)
    {
      hide FreeByte, LiveByte, RingOk, NextFit, HasFit, Units, Obtained;
      var nunits := Units(nbytes);
      if freep == 0 {
        Start();
      }
      ap := Scan(nunits, at);
    }

    // malloc's loop. It halts: each block is looked at once before sbrk is asked and once after.
    method Scan(nunits: int, at: int) returns (ap: int)
      requires Valid() && freep != 0 && 1 <= nunits < 0x1000_0000
      requires at == -1 || (top <= at && at + HEADER * Grown(nunits) <= KERNBASE)
      modifies this
      ensures Valid()
      ensures ap == 0 <==> !old(HasFit(size, ring, nunits)) && at == -1
      ensures ap == 0 ==> live == old(live) && List() == old(List()) && freep == old(freep)
      ensures ap != 0 ==> ap - HEADER !in old(live) && live == old(live)[ap - HEADER := nunits]
      ensures old(HasFit(size, ring, nunits)) ==> NextFit(old(List()), old(freep), freep, ap - HEADER, nunits)
      ensures !old(HasFit(size, ring, nunits)) && ap != 0 ==>
                ap - HEADER + HEADER * nunits == at + HEADER * Grown(nunits)
      ensures arena == old(arena) + Obtained(old(HasFit(size, ring, nunits)), nunits, at)
      ensures ap != 0 ==> forall x :: IsFree(x) <==>
                (old(IsFree(x)) || x in Obtained(old(HasFit(size, ring, nunits)), nunits, at))
                && !LiveAt(live, ap - HEADER, x)
    {
      hide FreeByte, LiveByte, RingOk, NoneBefore, Succ, Dist, HasFit, NextFit, LiveOk, Range;
      var prevp := freep;
      FreeBelow(base, List(), live, arena, top);
      ghost var f: nat :| f < |ring| && ring[f] == freep;
      ScanStart(base, List(), f, nunits);
      var p := ptr[prevp];
      ghost var j: nat := f;
      ghost var grown := false;
      while true
        invariant Valid() && freep != 0 && live == old(live)
        invariant f < |ring| && ring[f] == freep && j < |ring| && ring[j] == prevp && p == ring[Succ(j, |ring|)]
        invariant p in size
        invariant NoneBefore(size, ring, f, Succ(j, |ring|), nunits)
        invariant !grown ==> List() == old(List()) && freep == old(freep) && arena == old(arena) && top == old(top)
        invariant grown ==> at != -1 && !old(HasFit(size, ring, nunits)) && HasFit(size, ring, nunits)
        invariant grown ==> arena == old(arena) + Range(at, at + HEADER * Grown(nunits))
        invariant grown ==> forall x :: IsFree(x) <==> old(IsFree(x)) || at <= x < at + HEADER * Grown(nunits)
        decreases if grown then 0 else 1, Dist(Succ(j, |ring|), f, |ring|)
      {
        SameIndex(base, List(), Succ(j, |ring|), f);
        if size[p] >= nunits {
          FitHere(List(), f, j, nunits);
          if grown {
            FitInNew(base, old(List()), List(), Succ(j, |ring|), nunits, at, Grown(nunits));
          }
          ap := Take(prevp, p, nunits, j);
          return;
        }
        ScanStep(size, ring, f, Succ(j, |ring|), nunits);
        if p == freep {
          p := Morecore(nunits, at);
          if p == 0 {
            return 0;
          }
          grown := true;
          f :| f < |ring| && ring[f] == freep;
          j := f;
        } else {
          j := Succ(j, |ring|);
        }
        ScanStart(base, List(), j, nunits);
        prevp := p;
        p := ptr[p];
      }
    }

    // Takes nunits from the end of p, the block after prevp, which is unlinked if that is all of it.
    method Take(prevp: int, p: int, nunits: int, ghost j: nat) returns (ap: int)
      requires Valid() && freep != 0 && j < |ring| && ring[j] == prevp && ring[Succ(j, |ring|)] == p
      requires p in size && size[p] >= nunits > 0
      modifies this
      ensures Valid() && arena == old(arena) && top == old(top) && freep == prevp
      ensures ap == old(End(size, p)) - HEADER * nunits + HEADER && ap > 0
      ensures ap - HEADER !in old(live) && live == old(live)[ap - HEADER := nunits]
      ensures forall x :: IsFree(x) <==> old(IsFree(x)) && !LiveAt(live, ap - HEADER, x)
    {
      hide FreeByte, LiveByte, RemoveAt, RingOk;
      ghost var c := List();
      ghost var h := End(size, p) - HEADER * nunits;
      TakeFacts(base, c, live, arena, j, nunits);
      var q := p;
      if size[p] == nunits {
        ptr := ptr[prevp := ptr[p]];
        ring := RemoveAt(ring, j + 1);
      } else {
        size := size[p := size[p] - nunits];
        q := p + HEADER * size[p];
        size := size[q := nunits];
      }
      freep := prevp;
      assert List() == Taken(c, j, nunits);
      MovedToLive(base, c.size, c.ring, size, ring, live, arena, h, nunits);
      live := live[h := nunits];
      return q + HEADER;
    }

    // Asks for at least nu units; `at` is sbrk's answer, -1 for none. The new bytes become free.
    method Morecore(nu: int, at: int) returns (r: int)
      requires Valid() && freep != 0 && 0 < nu
      requires at == -1 || (top <= at && at + HEADER * Grown(nu) <= KERNBASE)
      modifies this
      ensures Valid() && live == old(live)
      ensures at == -1 ==> r == 0 && List() == old(List()) && freep == old(freep)
      ensures at == -1 ==> arena == old(arena) && top == old(top)
      ensures at != -1 ==> r == freep != 0 && HasFit(size, ring, nu)
      ensures at != -1 ==> arena == old(arena) + Range(at, at + HEADER * Grown(nu)) && top == at + HEADER * Grown(nu)
      ensures at != -1 ==> forall x :: IsFree(x) <==> old(IsFree(x)) || at <= x < at + HEADER * Grown(nu)
      ensures at != -1 ==> top - at >= HEADER * MIN_UNITS && top - at >= HEADER * nu
      ensures at != -1 ==> top - at == HEADER * MIN_UNITS || top - at == HEADER * nu
    {
      hide FreeByte, LiveByte, RingOk, LiveOk, Partition, HasFit, Range, FitAt;
      var n := if nu < MIN_UNITS then MIN_UNITS else nu;
      var p := at;
      if p == -1 {
        return 0;
      }
      Grow(base, List(), live, arena, top, p, n);
      size := size[p := n];
      live := live[p := n];
      arena := arena + Range(p, p + HEADER * n);
      top := p + HEADER * n;
      Free(p + HEADER);
      assert live == old(live);
      forall x | p <= x < p + HEADER * n
        ensures FreeByte(size, ring, x)
      {
        assert IsFree(x);
      }
      RunInOneBlock(base, List(), p, n);
      FitIsEnough(size, ring, n, nu);
      return freep;
    }

    // The two list updates of free: bp goes in behind p, merging with what it touches.
    method Release(bp: int, p: int, ghost t: nat)
      requires ChainOk(base, List()) && t < |ring| && ring[t] == p && Fits(base, size, ring, t, bp)
      modifies `ptr, `size, `ring
      ensures List() == Freed(old(List()), t, bp)
    {
      hide ChainOk, Fits, FreeByte, Touches;
      ghost var c := List();
      ReleaseFacts(base, c, t, bp);
      if bp + HEADER * size[bp] == ptr[p] {
        size := size[bp := size[bp] + size[ptr[p]]];
        ptr := ptr[bp := ptr[ptr[p]]];
      } else {
        ptr := ptr[bp := ptr[p]];
      }
      ghost var j := Joined(c, t, bp);
      assert size == j.size && ptr[p := bp] == j.ptr;
      if p + HEADER * size[p] == bp {
        size := size[p := size[p] + size[bp]];
        ptr := ptr[p := ptr[bp]];
      } else {
        ptr := ptr[p := bp];
      }
      ring := Freed(c, t, bp).ring;
    }
  }

  // The list after n units are taken from the end of block j + 1.
  function Taken(c: Chain, j: nat, n: int): Chain
    requires j + 1 < |c.ring| && c.ring[j + 1] in c.size && c.ring[j + 1] in c.ptr
  {
    var p := c.ring[j + 1];
    if c.size[p] == n then Chain(c.ptr[c.ring[j] := c.ptr[p]], c.size, RemoveAt(c.ring, j + 1))
    else Chain(c.ptr, Shrunk(c.size, p, n), c.ring)
  }

  lemma TakenOk(base: int, c: Chain, j: nat, n: int)
    requires ChainOk(base, c) && j + 1 < |c.ring| && c.ring[j + 1] in c.size && c.ring[j + 1] in c.ptr
    requires 0 < n <= c.size[c.ring[j + 1]]
    ensures var h := End(c.size, c.ring[j + 1]) - HEADER * n; var k := Taken(c, j, n);
      && ChainOk(base, k) && j < |k.ring| && k.ring[j] == c.ring[j] && h in k.size && k.size[h] == n
      && (forall x :: FreeByte(k.size, k.ring, x) <==> FreeByte(c.size, c.ring, x) && !(h <= x < h + HEADER * n))
  {
    hide FreeByte, RingOk, RemoveAt;
    var p := c.ring[j + 1];
    var h, k := End(c.size, p) - HEADER * n, Taken(c, j, n);
    if c.size[p] == n {
      Unlink(base, c.ptr, c.size, c.ring, j);
    } else {
      Split(base, c.ptr, c.size, c.ring, j + 1, n);
    }
    forall x
      ensures FreeByte(k.size, k.ring, x) <==> FreeByte(c.size, c.ring, x) && !(h <= x < h + HEADER * n)
    {
      if c.size[p] == n {
        UnlinkBytes(base, c.ptr, c.size, c.ring, j, x);
      } else {
        SplitBytes(base, c.ptr, c.size, c.ring, j + 1, n, x);
      }
    }
  }

  lemma TakeFacts(base: int, c: Chain, live: Memory, arena: set<int>, j: nat, n: int)
    requires ChainOk(base, c) && LiveOk(base, c.size, live) && Partition(arena, c.size, c.ring, live)
    requires j < |c.ring| && n > 0
    requires var p := c.ring[Succ(j, |c.ring|)]; p in c.size && c.size[p] >= n
    ensures j + 1 < |c.ring| && c.ring[j + 1] in c.ptr && c.ring[j] in c.ptr && base <= c.ring[j]
    ensures var p := c.ring[j + 1]; var h := End(c.size, p) - HEADER * n; var k := Taken(c, j, n);
      && ChainOk(base, k) && c.ring[j] in k.ring && h in k.size && k.size[h] == n && base + HEADER <= h
      && SameSizes(c.size, k.size, live)
      && (forall x | h <= x < h + HEADER * n :: FreeByte(c.size, c.ring, x))
      && (forall x :: FreeByte(k.size, k.ring, x) <==> FreeByte(c.size, c.ring, x) && !(h <= x < h + HEADER * n))
  {
    StepOrder(base, c.ptr, c.size, c.ring, j, j);
    assert j + 1 < |c.ring|;
    var p := c.ring[j + 1];
    var h, k := End(c.size, p) - HEADER * n, Taken(c, j, n);
    StepOrder(base, c.ptr, c.size, c.ring, j + 1, j + 1);
    TakenOk(base, c, j, n);
    assert c.ring[j] == k.ring[j];
    if j > 0 {
      RingSorted(base, c.ptr, c.size, c.ring, 1, j + 1);
    }
    forall x | h <= x < h + HEADER * n
      ensures FreeByte(c.size, c.ring, x)
    {
      assert FreeAt(c.size, c.ring, j + 1, x);
    }
    TakeSizes(base, c, live, arena, j, n);
  }

  lemma TakeSizes(base: int, c: Chain, live: Memory, arena: set<int>, j: nat, n: int)
    requires ChainOk(base, c) && LiveOk(base, c.size, live) && Partition(arena, c.size, c.ring, live)
    requires j + 1 < |c.ring| && 0 < n <= c.size[c.ring[j + 1]]
    ensures SameSizes(c.size, Taken(c, j, n).size, live)
  {
    var p := c.ring[j + 1];
    var h := End(c.size, p) - HEADER * n;
    assert FreeAt(c.size, c.ring, j + 1, h) && FreeByte(c.size, c.ring, h);
    assert FreeAt(c.size, c.ring, j + 1, p) && FreeByte(c.size, c.ring, p);
    forall a | a in live
      ensures a != h && a != p
    {
      assert LiveAt(live, a, a) && LiveByte(live, a);
    }
  }

  predicate SameList(c: Chain, f: Chain) {
    && c.ring == f.ring
    && forall a | a in c.ring ::
         a in c.size && a in f.size && a in c.ptr && a in f.ptr && c.size[a] == f.size[a] && c.ptr[a] == f.ptr[a]
  }

  predicate Listed(c: Chain, i: nat) {
    i < |c.ring| && c.ring[i] in c.size && c.ring[i] in c.ptr
  }

  // Freeing what was just taken gives back the very same list.
  lemma FreeUndoesTake(base: int, c: Chain, j: nat, n: int, k: Chain, t: nat, h: int)
    requires ChainOk(base, c) && Listed(c, j + 1) && 0 < n <= c.size[c.ring[j + 1]]
    requires k == Taken(c, j, n) && h == End(c.size, c.ring[j + 1]) - HEADER * n
    requires t < |k.ring| && k.ring[t] < h && (t + 1 < |k.ring| ==> h < k.ring[t + 1])
    ensures ChainOk(base, k) && h in k.size && SameList(c, Freed(k, t, h))
  {
    hide FreeByte, Taken, Freed;
    TakenOk(base, c, j, n);
    RingLinks(base, c.ptr, c.size, c.ring, -1);
    forall x | h <= x < h + HEADER * n
      ensures FreeByte(c.size, c.ring, x)
    {
      HasByte(c.size, c.ring, j + 1, x);
    }
    HoleFits(base, k, t, h, n);
    FreedOk(base, k, t, h);
    var f := Freed(k, t, h);
    CanonicalList(base, c.ptr, c.size, c.ring, f.ptr, f.size, f.ring);
  }

  lemma HasByte(size: Memory, ring: seq<int>, i: nat, x: int)
    requires i < |ring| && FreeAt(size, ring, i, x)
    ensures FreeByte(size, ring, x)
  {
  }

  // Bytes that no block of the list has lie between two blocks.
  lemma HoleFits(base: int, k: Chain, t: nat, h: int, n: int)
    requires ChainOk(base, k) && h in k.size && k.size[h] == n > 0 && base + HEADER <= h
    requires t < |k.ring| && k.ring[t] < h && (t + 1 < |k.ring| ==> h < k.ring[t + 1])
    requires forall x | h <= x < h + HEADER * n :: !FreeByte(k.size, k.ring, x)
    ensures Fits(base, k.size, k.ring, t, h)
  {
    assert FreeAt(k.size, k.ring, t, h) ==> FreeByte(k.size, k.ring, h);
    if t + 1 < |k.ring| {
      assert FreeAt(k.size, k.ring, t + 1, k.ring[t + 1]) && FreeByte(k.size, k.ring, k.ring[t + 1]);
    }
  }

  // A block of at least n units on the list.
  predicate FitAt(size: Memory, ring: seq<int>, n: int, i: nat)
    requires i < |ring|
  {
    ring[i] in size && size[ring[i]] >= n
  }

  predicate HasFit(size: Memory, ring: seq<int>, n: int) {
    exists i | 0 <= i < |ring| :: FitAt(size, ring, n, i)
  }

  // Because the list is coalesced, a run of free bytes lies in one block.
  lemma RunInOneBlock(base: int, c: Chain, lo: int, n: int)
    requires ChainOk(base, c) && n > 0 && forall x | lo <= x < lo + HEADER * n :: FreeByte(c.size, c.ring, x)
    ensures HasFit(c.size, c.ring, n)
  {
    assert FreeByte(c.size, c.ring, lo);
    var i :| 0 <= i < |c.ring| && FreeAt(c.size, c.ring, i, lo);
    var e := End(c.size, c.ring[i]);
    if e < lo + HEADER * n {
      assert FreeByte(c.size, c.ring, e);
      var j :| 0 <= j < |c.ring| && FreeAt(c.size, c.ring, j, e);
      if j < i {
        RingSorted(base, c.ptr, c.size, c.ring, j, i);
      } else if i < j {
        RingSorted(base, c.ptr, c.size, c.ring, i, j);
      }
      assert false;
    }
    assert FitAt(c.size, c.ring, n, i);
  }

  // A fresh header at or above top disturbs nothing.
  lemma Grow(base: int, c: Chain, live: Memory, arena: set<int>, top: int, h: int, n: int)
    requires ChainOk(base, c) && LiveOk(base, c.size, live) && Partition(arena, c.size, c.ring, live)
    requires (forall x | x in arena :: base + HEADER <= x < top) && base + HEADER <= top <= h && n > 0
    ensures var size', live' := c.size[h := n], live[h := n];
      && RingOk(base, c.ptr, size', c.ring) && LiveOk(base, size', live')
      && Partition(arena + Range(h, h + HEADER * n), size', c.ring, live')
      && h !in live && (forall x :: FreeByte(size', c.ring, x) <==> FreeByte(c.size, c.ring, x))
  {
    var size', live' := c.size[h := n], live[h := n];
    forall a | a in live
      ensures a + HEADER * live[a] <= top
    {
      var last := a + HEADER * live[a] - 1;
      assert LiveAt(live, a, last) && LiveByte(live, last) && last in arena;
    }
    BlocksBelow(base, c, live, arena, top);
    assert h !in c.ring;
    assert RingOk(base, c.ptr, size', c.ring) by {
      forall i | 0 <= i < |c.ring| - 1
        ensures GapAt(size', c.ring, i)
      {
        assert GapAt(c.size, c.ring, i);
      }
    }
    forall x
      ensures FreeByte(size', c.ring, x) <==> FreeByte(c.size, c.ring, x)
      ensures LiveByte(live', x) <==> LiveByte(live, x) || h <= x < h + HEADER * n
    {
      GrowBytes(c.size, c.ring, live, h, n, x);
    }
  }

  lemma BlocksBelow(base: int, c: Chain, live: Memory, arena: set<int>, top: int)
    requires ChainOk(base, c) && Partition(arena, c.size, c.ring, live)
    requires (forall x | x in arena :: base + HEADER <= x < top) && base + HEADER <= top
    ensures forall i | 0 <= i < |c.ring| :: c.ring[i] < top
  {
    forall i | 0 <= i < |c.ring|
      ensures c.ring[i] < top
    {
      if i > 0 {
        assert FreeAt(c.size, c.ring, i, c.ring[i]) && FreeByte(c.size, c.ring, c.ring[i]);
      }
    }
  }

  lemma GrowBytes(size: Memory, ring: seq<int>, live: Memory, h: int, n: int, x: int)
    requires h !in ring && h !in live
    ensures FreeByte(size[h := n], ring, x) <==> FreeByte(size, ring, x)
    ensures LiveByte(live[h := n], x) <==> LiveByte(live, x) || h <= x < h + HEADER * n
  {
    var size', live' := size[h := n], live[h := n];
    if i :| 0 <= i < |ring| && FreeAt(size, ring, i, x) {
      assert FreeAt(size', ring, i, x);
    }
    if i :| 0 <= i < |ring| && FreeAt(size', ring, i, x) {
      assert FreeAt(size, ring, i, x);
    }
    if a :| a in live && LiveAt(live, a, x) {
      assert LiveAt(live', a, x);
    }
    if h <= x < h + HEADER * n {
      assert LiveAt(live', h, x);
    }
    if a :| a in live' && LiveAt(live', a, x) {
      assert a == h || LiveAt(live, a, x);
    }
  }

  // No block on the way from the one after f up to but not including i has n units.
  predicate NoneBefore(size: Memory, ring: seq<int>, f: nat, i: nat, n: int) {
    forall k | 0 <= k < |ring| && Dist(Succ(f, |ring|), k, |ring|) < Dist(Succ(f, |ring|), i, |ring|) ::
      !FitAt(size, ring, n, k)
  }

  // h is the last n units of the first block that has them, going round from the one after
  // freep; prevp is the block before it.
  predicate NextFit(c: Chain, freep: int, prevp: int, h: int, n: int) {
    exists f, j | 0 <= f < |c.ring| && 0 <= j < |c.ring| && c.ring[f] == freep && c.ring[j] == prevp ::
      NextFitAt(c, f, j, h, n)
  }

  predicate NextFitAt(c: Chain, f: nat, j: nat, h: int, n: int)
    requires f < |c.ring| && j < |c.ring|
  {
    var i := Succ(j, |c.ring|);
    FitAt(c.size, c.ring, n, i) && NoneBefore(c.size, c.ring, f, i, n) && h == End(c.size, c.ring[i]) - HEADER * n
  }

  lemma ScanStart(base: int, c: Chain, j: nat, n: int)
    requires ChainOk(base, c) && j < |c.ring|
    ensures c.ring[j] in c.ptr && Succ(j, |c.ring|) < |c.ring| && c.ptr[c.ring[j]] == c.ring[Succ(j, |c.ring|)]
    ensures c.ring[Succ(j, |c.ring|)] in c.size
    ensures NoneBefore(c.size, c.ring, j, Succ(j, |c.ring|), n)
  {
    assert LinkAt(c.ptr, c.ring, j);
  }

  lemma SameIndex(base: int, c: Chain, i: nat, k: nat)
    requires ChainOk(base, c) && i < |c.ring| && k < |c.ring|
    ensures c.ring[i] == c.ring[k] <==> i == k
  {
    RingLinks(base, c.ptr, c.size, c.ring, -1);
  }

  lemma FitHere(c: Chain, f: nat, j: nat, n: int)
    requires f < |c.ring| && j < |c.ring| && NoneBefore(c.size, c.ring, f, Succ(j, |c.ring|), n)
    requires var p := c.ring[Succ(j, |c.ring|)]; p in c.size && c.size[p] >= n
    ensures HasFit(c.size, c.ring, n)
    ensures NextFit(c, c.ring[f], c.ring[j], End(c.size, c.ring[Succ(j, |c.ring|)]) - HEADER * n, n)
  {
    assert FitAt(c.size, c.ring, n, Succ(j, |c.ring|));
    assert NextFitAt(c, f, j, End(c.size, c.ring[Succ(j, |c.ring|)]) - HEADER * n, n);
  }

  // Going round from address f, a comes no later than b.
  predicate NoLater(f: int, a: int, b: int) {
    if a > f then b <= f || a <= b else b <= f && a <= b
  }

  // NextFit told by addresses: of the blocks that fit, p is the one that comes first after freep.
  lemma NextFitIsFirst(base: int, c: Chain, freep: int, prevp: int, h: int, n: int)
    requires ChainOk(base, c) && NextFit(c, freep, prevp, h, n)
    ensures prevp in c.ptr && c.ptr[prevp] in c.ring && c.ptr[prevp] in c.size
    ensures var p := c.ptr[prevp];
      && c.size[p] >= n && h + HEADER * n == p + HEADER * c.size[p]
      && forall b | b in c.ring && b in c.size && c.size[b] >= n :: NoLater(freep, p, b)
  {
    var f, j :| 0 <= f < |c.ring| && 0 <= j < |c.ring| && c.ring[f] == freep && c.ring[j] == prevp
      && NextFitAt(c, f, j, h, n);
    var i := Succ(j, |c.ring|);
    assert LinkAt(c.ptr, c.ring, j);
    RingLinks(base, c.ptr, c.size, c.ring, -1);
    hide RingOk, NoLater;
    forall b | b in c.ring && b in c.size && c.size[b] >= n
      ensures NoLater(freep, c.ring[i], b)
    {
      var k: nat :| k < |c.ring| && c.ring[k] == b;
      assert FitAt(c.size, c.ring, n, k);
      NearerIsFirst(c.ring, f, i, k);
    }
  }

  lemma NearerIsFirst(ring: seq<int>, f: nat, i: nat, k: nat)
    requires f < |ring| && i < |ring| && k < |ring| && forall i, j | 0 <= i < j < |ring| :: ring[i] < ring[j]
    requires Dist(Succ(f, |ring|), i, |ring|) <= Dist(Succ(f, |ring|), k, |ring|)
    ensures NoLater(ring[f], ring[i], ring[k])
  {
  }

  lemma FreeBelow(base: int, c: Chain, live: Memory, arena: set<int>, top: int)
    requires Partition(arena, c.size, c.ring, live) && forall x | x in arena :: base + HEADER <= x < top
    ensures forall x | FreeByte(c.size, c.ring, x) :: x < top
  {
  }

  // If nothing fitted before the m units at `at` were added, a block that fits now ends with them.
  lemma FitInNew(base: int, c0: Chain, c: Chain, i: nat, n: int, at: int, m: int)
    requires ChainOk(base, c0) && ChainOk(base, c) && i < |c.ring| && n > 0 && FitAt(c.size, c.ring, n, i)
    requires !HasFit(c0.size, c0.ring, n) && forall x | FreeByte(c0.size, c0.ring, x) :: x < at
    requires forall x :: FreeByte(c.size, c.ring, x) <==> FreeByte(c0.size, c0.ring, x) || at <= x < at + HEADER * m
    ensures End(c.size, c.ring[i]) == at + HEADER * m
  {
    hide RingOk, HasFit;
    var p, e := c.ring[i], End(c.size, c.ring[i]);
    if e <= at {
      forall x | p <= x < p + HEADER * n
        ensures FreeByte(c0.size, c0.ring, x)
      {
        HasByte(c.size, c.ring, i, x);
      }
      RunInOneBlock(base, c0, p, n);
    }
    HasByte(c.size, c.ring, i, e - 1);
    if e < at + HEADER * m {
      assert FreeByte(c.size, c.ring, e);
      NotAdjacent(base, c, i);
    }
  }

  // The byte behind a free block is not free.
  lemma NotAdjacent(base: int, c: Chain, i: nat)
    requires ChainOk(base, c) && i < |c.ring| && c.ring[i] in c.size && c.size[c.ring[i]] > 0
    ensures !FreeByte(c.size, c.ring, End(c.size, c.ring[i]))
  {
    var e := End(c.size, c.ring[i]);
    if FreeByte(c.size, c.ring, e) {
      var j :| 0 <= j < |c.ring| && FreeAt(c.size, c.ring, j, e);
      if j < i {
        RingSorted(base, c.ptr, c.size, c.ring, j, i);
      } else if i < j {
        RingSorted(base, c.ptr, c.size, c.ring, i, j);
      }
    }
  }

  // What a call of malloc gets from sbrk: nothing if something fits already.
  function Obtained(fit: bool, n: int, at: int): set<int> {
    if fit || at == -1 then {} else Range(at, at + HEADER * Grown(n))
  }

  // One more block looked at: either there is a next one, or the circle is closed.
  lemma ScanStep(size: Memory, ring: seq<int>, f: nat, i: nat, n: int)
    requires f < |ring| && i < |ring| && NoneBefore(size, ring, f, i, n)
    requires ring[i] in size && size[ring[i]] < n
    ensures i == f ==> !HasFit(size, ring, n)
    ensures i != f ==> NoneBefore(size, ring, f, Succ(i, |ring|), n)
    ensures i != f ==> Dist(Succ(i, |ring|), f, |ring|) < Dist(i, f, |ring|)
  {
    var s := Succ(f, |ring|);
    forall k | 0 <= k < |ring| && Dist(s, k, |ring|) <= Dist(s, i, |ring|)
      ensures !FitAt(size, ring, n, k)
    {
      if k != i {
        assert Dist(s, k, |ring|) < Dist(s, i, |ring|);
      }
    }
    if i == f {
      forall k | 0 <= k < |ring|
        ensures !FitAt(size, ring, n, k)
      {
        assert Dist(s, k, |ring|) <= Dist(s, f, |ring|);
      }
    } else {
      assert Dist(s, Succ(i, |ring|), |ring|) == Dist(s, i, |ring|) + 1;
    }
  }

  lemma FitIsEnough(size: Memory, ring: seq<int>, n: int, nu: int)
    requires HasFit(size, ring, n) && n >= nu
    ensures HasFit(size, ring, nu)
  {
    var i :| 0 <= i < |ring| && FitAt(size, ring, n, i);
    assert FitAt(size, ring, nu, i);
  }

  // What the two list updates of free read.
  lemma ReleaseFacts(base: int, c: Chain, t: nat, bp: int)
    requires ChainOk(base, c) && Fits(base, c.size, c.ring, t, bp)
    ensures t < |c.ring| && bp in c.size && bp !in c.ring && Linked(c.ptr, c.ring)
    ensures forall a | a in c.ring :: a in c.size && a in c.ptr
    ensures var p := c.ring[t]; var q := c.ptr[p];
      q in c.ring && q in c.size && q in c.ptr && q != bp
      && (bp + HEADER * c.size[bp] == q <==> Touches(c.size, c.ring, t, bp))
      && (Touches(c.size, c.ring, t, bp) ==> t + 1 < |c.ring| && q == c.ring[t + 1] && q != p)
  {
    StepOrder(base, c.ptr, c.size, c.ring, t, t);
    RingLinks(base, c.ptr, c.size, c.ring, -1);
  }

  lemma NotListed(base: int, c: Chain, live: Memory, arena: set<int>, a: int)
    requires ChainOk(base, c) && LiveOk(base, c.size, live) && Partition(arena, c.size, c.ring, live) && a in live
    ensures a !in c.ring && |c.ring| > 0 && c.ring[0] == base
  {
    forall i | 0 <= i < |c.ring|
      ensures c.ring[i] != a
    {
      Apart(base, c, live, arena, i, a);
    }
  }

  // The last block before address bp.
  function Place(ring: seq<int>, bp: int): (t: nat)
    requires |ring| > 0 && ring[0] < bp
    ensures t < |ring| && ring[t] < bp && (t + 1 < |ring| ==> bp <= ring[t + 1])
  {
    var n := |ring|;
    if n == 1 then 0
    else if ring[1] < bp then 1 + Place(ring[1..], bp)
    else 0
  }

  lemma StepOrder(base: int, ptr: Memory, size: Memory, ring: seq<int>, i: nat, t: nat)
    requires RingOk(base, ptr, size, ring) && i < |ring| && t < |ring|
    ensures ptr[ring[i]] == ring[Succ(i, |ring|)]
    ensures ptr[ring[i]] <= ring[i] <==> i + 1 == |ring|
    ensures base <= ring[i]
    ensures i < t ==> i + 1 < |ring| && ring[i + 1] <= ring[t]
    ensures i > t ==> ring[t + 1] <= ring[i]
  {
    assert LinkAt(ptr, ring, i);
    RingLinks(base, ptr, size, ring, -1);
  }
}
