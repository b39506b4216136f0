/**
 The buffer cache of bio.c over the synchronous disk of memide.c: a ring of buffers in order of
 last release, changed in place. Whatever the cache holds or evicts, it shows one logical disk.
 */
module Bio {
  import opened Blocks
  import opened Counting

  // One buffer; holder is the process that has its sleeplock, 0 if none.
  datatype Buf = Buf(dev: int, blockno: int, valid: bool, dirty: bool, refcnt: nat, holder: int, data: Block)

  predicate Holds(b: Buf, dev: int, blockno: int) {
    b.dev == dev && b.blockno == blockno
  }

  // The buffer of a block, -1 if it has none.
  function IndexOf(buf: seq<Buf>, dev: int, blockno: int): (i: int)
    ensures -1 <= i < |buf|
    ensures i >= 0 ==> Holds(buf[i], dev, blockno)
    ensures i < 0 ==> forall j | 0 <= j < |buf| :: !Holds(buf[j], dev, blockno)
  {
    if buf == [] then -1
    else
      var i := IndexOf(buf[..|buf| - 1], dev, blockno);
      if i >= 0 then i else if Holds(buf[|buf| - 1], dev, blockno) then |buf| - 1 else -1
  }

  // What a reader sees as block b of disk 1.
  function Logical(buf: seq<Buf>, disk: seq<Block>, b: int): Block
    requires 0 <= b < |disk|
  {
    var i := IndexOf(buf, 1, b);
    if i >= 0 && buf[i].valid then buf[i].data else disk[b]
  }

  // ---- The ring ----------------------------------------------------------------------------

  type Links = seq<int>

  predicate LinkAt(next: Links, prev: Links, ring: seq<int>, i: nat)
    requires i < |ring|
  {
    var a, b := ring[i], ring[Succ(i, |ring|)];
    0 <= a < |next| && 0 <= b < |prev| && next[a] == b && prev[b] == a
  }

  predicate Linked(next: Links, prev: Links, ring: seq<int>) {
    forall i | 0 <= i < |ring| :: LinkAt(next, prev, ring, i)
  }

  predicate Distinct(ring: seq<int>) {
    forall i, j | 0 <= i < j < |ring| :: ring[i] != ring[j]
  }

  // ring goes once through the list, from the head (numbered n) to the least recently used.
  predicate RingOk(next: Links, prev: Links, ring: seq<int>, n: nat) {
    && |next| == n + 1 && |prev| == n + 1 && |ring| > 0 && ring[0] == n
    && (forall i | 0 <= i < |ring| :: 0 <= ring[i] <= n)
    && Distinct(ring) && Linked(next, prev, ring)
  }

  function Without(ring: seq<int>, k: nat): (r: seq<int>)
    requires 0 < k < |ring|
    ensures |r| == |ring| - 1
    ensures forall i | 0 <= i < k :: r[i] == ring[i]
    ensures forall i | k <= i < |r| :: r[i] == ring[i + 1]
  {
    ring[..k] + ring[k + 1..]
  }

  function Fronted(ring: seq<int>, b: int): (r: seq<int>)
    requires |ring| > 0
    ensures |r| == |ring| + 1 && r[0] == ring[0] && r[1] == b
    ensures forall i | 2 <= i < |r| :: r[i] == ring[i - 1]
  {
    [ring[0], b] + ring[1..]
  }

  // b->next->prev = b->prev; b->prev->next = b->next
  lemma Unlink(next: Links, prev: Links, ring: seq<int>, n: nat, k: nat)
    requires RingOk(next, prev, ring, n) && 0 < k < |ring|
    ensures var b := ring[k]; 0 <= b < n && 0 <= next[b] <= n && 0 <= prev[b] <= n
    ensures var b := ring[k]; RingOk(next[prev[b] := next[b]], prev[next[b] := prev[b]], Without(ring, k), n)
  {
    hide Without;
    var b, m := ring[k], |ring|;
    assert LinkAt(next, prev, ring, k) && LinkAt(next, prev, ring, k - 1);
    var next', prev', ring' := next[prev[b] := next[b]], prev[next[b] := prev[b]], Without(ring, k);
    forall i | 0 <= i < |ring'|
      ensures LinkAt(next', prev', ring', i)
    {
      assert LinkAt(next, prev, ring, if i < k then i else i + 1);
    }
    forall i, j | 0 <= i < j < |ring'|
      ensures ring'[i] != ring'[j]
    {
      assert ring[if i < k then i else i + 1] != ring[if j < k then j else j + 1];
    }
  }

  // b->next = head.next; b->prev = &head; head.next->prev = b; head.next = b
  lemma PushFront(next: Links, prev: Links, ring: seq<int>, n: nat, b: int)
    requires RingOk(next, prev, ring, n) && 0 <= b < n && b !in ring
    ensures 0 <= next[n] <= n
    ensures RingOk(next[b := next[n]][n := b], prev[b := n][next[n] := b], Fronted(ring, b), n)
  {
    hide Fronted;
    assert LinkAt(next, prev, ring, 0);
    var next', prev', ring' := next[b := next[n]][n := b], prev[b := n][next[n] := b], Fronted(ring, b);
    forall i | 0 <= i < |ring'|
      ensures LinkAt(next', prev', ring', i)
    {
      if i > 1 {
        assert LinkAt(next, prev, ring, i - 1);
      }
    }
    forall i, j | 0 <= i < j < |ring'|
      ensures ring'[i] != ring'[j]
    {
      if i > 1 {
        assert ring[i - 1] != ring[j - 1];
      }
    }
  }

  // Buffers nearer the front were released later.
  predicate Recent(ring: seq<int>, stamp: seq<int>) {
    forall i, j | 1 <= i < j < |ring| && 0 <= ring[i] < |stamp| && 0 <= ring[j] < |stamp| ::
      stamp[ring[i]] > stamp[ring[j]]
  }

  // ---- What holds of the buffers ------------------------------------------------------------

  // Nobody uses it and it holds nothing that is not on disk.
  predicate Idle(b: Buf) {
    b.refcnt == 0 && !b.dirty
  }

  // The idle buffer released longest ago.
  predicate Victim(buf: seq<Buf>, stamp: seq<int>, v: int) {
    && |stamp| == |buf| && 0 <= v < |buf| && Idle(buf[v])
    && forall j | 0 <= j < |buf| && Idle(buf[j]) :: stamp[v] <= stamp[j]
  }

  // No block has two buffers.
  predicate Unique(buf: seq<Buf>) {
    forall i, j | 0 <= i < j < |buf| :: buf[i].dev != 0 ==> !Holds(buf[j], buf[i].dev, buf[i].blockno)
  }

  // A clean buffer that nobody has locked agrees with the disk.
  predicate BufOk(b: Buf, disk: seq<Block>) {
    && (b.dirty ==> b.valid) && (b.holder != 0 ==> b.refcnt > 0)
    && (b.valid ==> b.dev == 1 && 0 <= b.blockno < |disk|)
    && (b.valid && !b.dirty && b.holder == 0 ==> b.data == disk[b.blockno])
  }

  predicate BufsOk(buf: seq<Buf>, disk: seq<Block>) {
    Unique(buf) && forall i | 0 <= i < |buf| :: BufOk(buf[i], disk)
  }

  ghost predicate SameLogical(buf: seq<Buf>, disk: seq<Block>, buf': seq<Buf>, disk': seq<Block>) {
    |disk'| == |disk| && forall b | 0 <= b < |disk| :: Logical(buf', disk', b) == Logical(buf, disk, b)
  }

  lemma IndexIs(buf: seq<Buf>, dev: int, blockno: int, i: nat)
    requires Unique(buf) && i < |buf| && Holds(buf[i], dev, blockno) && dev != 0
    ensures IndexOf(buf, dev, blockno) == i
  {
    var k := IndexOf(buf, dev, blockno);
  }

  // Changing a buffer without changing the block it is for.
  lemma PutSame(buf: seq<Buf>, i: nat, b: Buf, blk: int)
    requires Unique(buf) && i < |buf| && Holds(b, buf[i].dev, buf[i].blockno)
    ensures Unique(buf[i := b]) && IndexOf(buf[i := b], 1, blk) == IndexOf(buf, 1, blk)
  {
    var buf' := buf[i := b];
    var k, k' := IndexOf(buf, 1, blk), IndexOf(buf', 1, blk);
    if k >= 0 {
      assert Holds(buf'[k], 1, blk);
    }
  }

  lemma PutKeeps(buf: seq<Buf>, disk: seq<Block>, i: nat, b: Buf)
    requires BufsOk(buf, disk) && i < |buf| && Holds(b, buf[i].dev, buf[i].blockno) && BufOk(b, disk)
    requires b.valid == buf[i].valid && b.data == buf[i].data
    ensures BufsOk(buf[i := b], disk) && SameLogical(buf, disk, buf[i := b], disk)
  {
    PutSame(buf, i, b, 0);
    forall blk | 0 <= blk < |disk|
      ensures Logical(buf[i := b], disk, blk) == Logical(buf, disk, blk)
    {
      PutSame(buf, i, b, blk);
    }
  }

  // Eviction: the buffer of one block becomes an empty buffer of another, uncached one.
  lemma Evict(buf: seq<Buf>, disk: seq<Block>, v: nat, b: Buf)
    requires BufsOk(buf, disk) && v < |buf| && Idle(buf[v]) && b.dev != 0 && IndexOf(buf, b.dev, b.blockno) < 0
    requires !b.valid && !b.dirty && b.refcnt == 1 && b.holder == buf[v].holder
    ensures BufsOk(buf[v := b], disk) && SameLogical(buf, disk, buf[v := b], disk)
    ensures IndexOf(buf[v := b], b.dev, b.blockno) == v
  {
    var buf' := buf[v := b];
    assert BufOk(buf[v], disk);
    assert forall j | 0 <= j < |buf| :: !Holds(buf[j], b.dev, b.blockno);
    IndexIs(buf', b.dev, b.blockno, v);
    forall blk | 0 <= blk < |disk|
      ensures Logical(buf', disk, blk) == Logical(buf, disk, blk)
    {
      var k := IndexOf(buf, 1, blk);
      if k >= 0 && k != v {
        IndexIs(buf', 1, blk, k);
      }
    }
  }

  // iderw: a valid dirty buffer goes to disk, an empty one is read from it.
  lemma Transfer(buf: seq<Buf>, disk: seq<Block>, i: nat, b: Buf, disk': seq<Block>)
    requires BufsOk(buf, disk) && i < |buf| && buf[i].dev == 1 && 0 <= buf[i].blockno < |disk| && buf[i].holder != 0
    requires buf[i].dirty || !buf[i].valid
    requires var o := buf[i]; var blk := o.blockno;
      if o.dirty then b == o.(dirty := false) && disk' == disk[blk := o.data]
      else b == o.(valid := true, data := disk[blk]) && disk' == disk
    ensures BufsOk(buf[i := b], disk') && SameLogical(buf, disk, buf[i := b], disk')
  {
    var buf', blk := buf[i := b], buf[i].blockno;
    PutSame(buf, i, b, blk);
    IndexIs(buf, 1, blk, i);
    forall j | 0 <= j < |buf|
      ensures BufOk(buf'[j], disk')
    {
      assert BufOk(buf[j], disk);
      assert j != i ==> !Holds(buf[j], 1, blk);
    }
    forall c | 0 <= c < |disk|
      ensures Logical(buf', disk', c) == Logical(buf, disk, c)
    {
      PutSame(buf, i, b, c);
      assert c != blk ==> IndexOf(buf, 1, c) != i;
    }
  }

  lemma Modified(buf: seq<Buf>, disk: seq<Block>, i: nat, data: Block)
    requires BufsOk(buf, disk) && i < |buf| && buf[i].valid && buf[i].holder != 0
    ensures BufsOk(buf[i := buf[i].(data := data)], disk)
  {
    assert BufOk(buf[i], disk);
    Modify(buf, disk, i, data, buf[i].blockno);
  }

  // The holder of a valid buffer changes its contents.
  lemma Modify(buf: seq<Buf>, disk: seq<Block>, i: nat, data: Block, c: int)
    requires BufsOk(buf, disk) && i < |buf| && buf[i].valid && buf[i].holder != 0 && 0 <= c < |disk|
    ensures BufsOk(buf[i := buf[i].(data := data)], disk)
    ensures Logical(buf[i := buf[i].(data := data)], disk, c) ==
            if c == buf[i].blockno then data else Logical(buf, disk, c)
  {
    var b := buf[i].(data := data);
    assert BufOk(buf[i], disk);
    PutSame(buf, i, b, c);
    IndexIs(buf, 1, buf[i].blockno, i);
    assert c != buf[i].blockno ==> IndexOf(buf, 1, c) != i;
  }

  // ---- The steps of the processes that use the cache -----------------------------------------

  datatype Shot = Shot(buf: seq<Buf>, disk: seq<Block>, stamp: seq<int>, clock: int)

  datatype Action =
    | Get(dev: int, blockno: int, b: int)         // bget up to the buffer's lock; b < 0: the panic
    | Acquire(b: int, pid: int)                   // acquiresleep, once nobody has the buffer
    | Sync(b: int)                                // iderw
    | Change(b: int, pid: int, data: Block)       // the holder works on the data
    | PinDown(b: int)                             // log_write's part in the cache
    | Release(b: int, pid: int)                   // brelse

  ghost predicate Step(s: Shot, a: Action, t: Shot) {
    match a
    case Get(dev, blockno, b) =>
      var i := IndexOf(s.buf, dev, blockno);
      && dev != 0 && t == s.(buf := t.buf)
      && if i >= 0 then
           b == i && t.buf == s.buf[i := s.buf[i].(refcnt := s.buf[i].refcnt + 1)]
         else if b < 0 then
           t.buf == s.buf && forall j | 0 <= j < |s.buf| :: !Idle(s.buf[j])
         else
           Victim(s.buf, s.stamp, b) && t.buf == s.buf[b := Buf(dev, blockno, false, false, 1, 0, s.buf[b].data)]
    case Acquire(b, pid) =>
      && 0 <= b < |s.buf| && s.buf[b].refcnt > 0 && s.buf[b].holder == 0 && pid != 0
      && t == s.(buf := s.buf[b := s.buf[b].(holder := pid)])
    case Sync(b) =>
      && 0 <= b < |s.buf| && s.buf[b].holder != 0 && (s.buf[b].dirty || !s.buf[b].valid)
      && s.buf[b].dev == 1 && 0 <= s.buf[b].blockno < |s.disk|
      && var o := s.buf[b]; var c := if o.dirty then o.data else s.disk[o.blockno];
         t == s.(buf := s.buf[b := o.(valid := true, dirty := false, data := c)], disk := s.disk[o.blockno := c])
    case Change(b, pid, data) =>
      && 0 <= b < |s.buf| && s.buf[b].holder == pid != 0 && s.buf[b].valid
      && t == s.(buf := s.buf[b := s.buf[b].(data := data)])
    case PinDown(b) =>
      && 0 <= b < |s.buf| && s.buf[b].holder != 0 && s.buf[b].valid
      && t == s.(buf := s.buf[b := s.buf[b].(dirty := true)])
    case Release(b, pid) =>
      && 0 <= b < |s.buf| && |s.stamp| == |s.buf| && s.buf[b].holder == pid != 0 && s.buf[b].refcnt > 0
      && (s.buf[b].valid && !s.buf[b].dirty ==>
            0 <= s.buf[b].blockno < |s.disk| && s.buf[b].data == s.disk[s.buf[b].blockno])
      && t.disk == s.disk
      && t.buf == s.buf[b := s.buf[b].(holder := 0, refcnt := s.buf[b].refcnt - 1)]
      && if t.buf[b].refcnt == 0 then t.stamp == s.stamp[b := s.clock] && t.clock == s.clock + 1
         else t.stamp == s.stamp && t.clock == s.clock
  }

  class Cache {
    const n: nat                  // NBUF; index n is the list head
    var buf: seq<Buf>
    var next: Links
    var prev: Links
    var disk: seq<Block>
    ghost var ring: seq<int>      // the list from the head on, most recently released first
    ghost var stamp: seq<int>     // when each buffer was last released
    ghost var clock: int

    ghost predicate Listed()
      reads this
    {
      && |buf| == n && |stamp| == n && RingOk(next, prev, ring, n)
      && (forall i | 0 <= i < n :: i in ring)
      && (forall i | 0 <= i < n :: stamp[i] < clock)
      && Recent(ring, stamp)
    }

    ghost predicate Valid()
      reads this
    {
      Listed() && BufsOk(buf, disk)
    }

    ghost function Now(): Shot
      reads this
    {
      Shot(buf, disk, stamp, clock)
    }

    // binit: every buffer goes to the front of the list in turn.
    constructor (n: nat, disk: seq<Block>)
      ensures Valid() && this.n == n && this.disk == disk
      ensures forall i | 0 <= i < n :: buf[i] == Buf(0, 0, false, false, 0, 0, ZERO)
      ensures stamp == seq(n, i => i)
    {
      this.n := n;
      this.disk := disk;
      buf := seq(n, _ => Buf(0, 0, false, false, 0, 0, ZERO));
      next, prev := seq(n + 1, _ => n), seq(n + 1, _ => n);
      ring, stamp, clock := [n], seq(n, i => i), n;
      new;
      var b := 0;
      while b < n
        invariant 0 <= b <= n && BuiltUpTo(b)
        invariant this.n == n && this.disk == disk && clock == n
        invariant buf == seq(n, _ => Buf(0, 0, false, false, 0, 0, ZERO)) && stamp == seq(n, i => i)
      {
        Insert(b);
        b := b + 1;
      }
    }

    ghost predicate BuiltUpTo(b: int)
      reads this
    {
      && RingOk(next, prev, ring, n) && Recent(ring, stamp)
      && (forall i | 0 <= i < b :: i in ring) && forall i | 1 <= i < |ring| :: ring[i] < b
    }

    method Insert(b: int)
      requires 0 <= b < n && BuiltUpTo(b) && stamp == seq(n, i => i)
      modifies `next, `prev, `ring
      ensures BuiltUpTo(b + 1)
    {
      hide Fronted, RingOk;
      NotBefore(next, prev, ring, n, b);
      PushFront(next, prev, ring, n, b);
      next := next[b := next[n]];
      prev := prev[b := n];
      prev := prev[next[n] := b];
      next := next[n := b];
      FrontedElements(ring, b);
      ring := Fronted(ring, b);
    }

    // bget up to where it waits for the buffer's lock: the buffer of the block, which becomes the
    // idle buffer released longest ago if the block had none; -1 where the source panics.
    method Bget(dev: int, blockno: int) returns (b: int)
      requires Valid() && dev != 0
      modifies `buf
      ensures Valid() && SameLogical(old(buf), disk, buf, disk) && Step(old(Now()), Get(dev, blockno, b), Now())
      ensures -1 <= b < n
      ensures b >= 0 ==> IndexOf(buf, dev, blockno) == b
      ensures old(IndexOf(buf, dev, blockno)) >= 0 ==>
                b >= 0 && buf == old(buf)[b := old(buf)[b].(refcnt := old(buf)[b].refcnt + 1)]
      ensures old(IndexOf(buf, dev, blockno)) < 0 ==>
                if b < 0 then buf == old(buf) && forall j | 0 <= j < n :: !Idle(buf[j])
                else Victim(old(buf), stamp, b) && old(buf)[b].holder == 0
                     && buf == old(buf)[b := Buf(dev, blockno, false, false, 1, 0, old(buf)[b].data)]
      ensures b < 0 ==> forall j | 0 <= j < n :: buf[j].refcnt > 0 || buf[j].dirty
      ensures b >= 0 && old(IndexOf(buf, dev, blockno)) < 0 ==>
                && old(buf)[b].refcnt == 0 && !old(buf)[b].dirty
                && forall j | 0 <= j < n && old(buf)[j].refcnt == 0 && !old(buf)[j].dirty :: stamp[b] <= stamp[j]
    {
      hide RingOk, Recent, Logical;
      b := Lookup(dev, blockno);
      if b >= 0 {
        PutKeeps(buf, disk, b, buf[b].(refcnt := buf[b].refcnt + 1));
        buf := buf[b := buf[b].(refcnt := buf[b].refcnt + 1)];
        IndexIs(buf, dev, blockno, b);
        return;
      }
      b := FindIdle();
      if b >= 0 {
        assert BufOk(buf[b], disk);
        Evict(buf, disk, b, Buf(dev, blockno, false, false, 1, 0, buf[b].data));
        buf := buf[b := Buf(dev, blockno, false, false, 1, 0, buf[b].data)];
      }
    }

    // bget's first loop.
    method Lookup(dev: int, blockno: int) returns (b: int)
      requires Valid() && dev != 0
      ensures b == IndexOf(buf, dev, blockno)
    {
      ghost var k := 1;
      assert LinkAt(next, prev, ring, 0);
      b := next[n];
      while b != n
        invariant 1 <= k <= |ring| && b == ring[if k == |ring| then 0 else k]
        invariant forall j | 1 <= j < k :: !Holds(buf[ring[j]], dev, blockno)
        decreases |ring| - k
      {
        if buf[b].dev == dev && buf[b].blockno == blockno {
          IndexIs(buf, dev, blockno, b);
          return;
        }
        assert LinkAt(next, prev, ring, k);
        b := next[b];
        k := k + 1;
      }
      assert forall j | 1 <= j < |ring| :: !Holds(buf[ring[j]], dev, blockno);
      NobodyHolds(buf, ring, n, dev, blockno);
      b := -1;
    }

    // bget's second loop, from the other end.
    method FindIdle() returns (b: int)
      requires Valid()
      ensures -1 <= b < n
      ensures b >= 0 ==> Victim(buf, stamp, b)
      ensures b < 0 ==> forall j | 0 <= j < n :: !Idle(buf[j])
    {
      ghost var k := |ring| - 1;
      assert LinkAt(next, prev, ring, |ring| - 1);
      b := prev[n];
      while b != n
        invariant 0 <= k < |ring| && b == ring[k]
        invariant forall j | k < j < |ring| :: !Idle(buf[ring[j]])
        decreases k
      {
        if buf[b].refcnt == 0 && !buf[b].dirty {
          LastIdle(buf, ring, stamp, n, k);
          return;
        }
        assert LinkAt(next, prev, ring, k - 1);
        b := prev[b];
        k := k - 1;
      }
      NoneIdle(buf, ring, n);
      b := -1;
    }

    // acquiresleep on a buffer, once nobody has it.
    method Lock(b: int, pid: int)
      requires Valid() && 0 <= b < n && buf[b].refcnt > 0 && buf[b].holder == 0 && pid != 0
      modifies `buf
      ensures Valid() && SameLogical(old(buf), disk, buf, disk) && Step(old(Now()), Acquire(b, pid), Now())
      ensures buf == old(buf)[b := old(buf)[b].(holder := pid)]
    {
      PutKeeps(buf, disk, b, buf[b].(holder := pid));
      buf := buf[b := buf[b].(holder := pid)];
    }

    // Synchronises a locked buffer with the disk.
    method Iderw(b: int)
      requires Valid() && 0 <= b < n && buf[b].holder != 0 && (buf[b].dirty || !buf[b].valid)
      requires buf[b].dev == 1 && 0 <= buf[b].blockno < |disk|
      modifies `buf, `disk
      ensures Valid() && SameLogical(old(buf), old(disk), buf, disk) && Step(old(Now()), Sync(b), Now())
      ensures var o := old(buf)[b]; var c := if o.dirty then o.data else old(disk)[o.blockno];
        && buf == old(buf)[b := o.(valid := true, dirty := false, data := c)]
        && disk == old(disk)[o.blockno := c]
    {
      hide RingOk, Recent, SameLogical, Unique, BufOk;
      ghost var was, disk0 := buf, disk;
      var blk := buf[b].blockno;
      if buf[b].dirty {
        buf := buf[b := buf[b].(dirty := false)];
        disk := disk[blk := buf[b].data];
      } else {
        buf := buf[b := buf[b].(data := disk[blk])];
      }
      buf := buf[b := buf[b].(valid := true)];
      WasValid(was, disk0, b);
      assert buf == was[b := buf[b]];
      Transfer(was, disk0, b, buf[b], disk);
    }

    // A locked buffer with the contents of block blockno of disk 1. If another process has the
    // buffer, bread waits inside acquiresleep with its reference taken, and Awake finishes it.
    method Bread(blockno: int, pid: int) returns (b: int, waits: bool)
      requires Valid() && 0 <= blockno < |disk| && pid != 0
      modifies `buf, `disk
      ensures Valid() && disk == old(disk) && SameLogical(old(buf), old(disk), buf, disk)
      ensures b < 0 ==> !waits && buf == old(buf)
                        && old(IndexOf(buf, 1, blockno)) < 0
                        && forall j | 0 <= j < n :: buf[j].refcnt > 0 || buf[j].dirty
      ensures b >= 0 ==> b == IndexOf(buf, 1, blockno) && buf[b].refcnt > 0
      ensures waits <==> b >= 0 && old(IndexOf(buf, 1, blockno)) == b && old(buf)[b].holder != 0
      ensures waits ==> buf == old(buf)[b := old(buf)[b].(refcnt := old(buf)[b].refcnt + 1)]
      ensures b >= 0 && !waits ==>
                buf[b].valid && buf[b].holder == pid && buf[b].data == old(Logical(buf, disk, blockno))
      ensures forall i | 0 <= i < n && i != b :: buf[i] == old(buf)[i]
      ensures b >= 0 && old(IndexOf(buf, 1, blockno)) < 0 ==> Victim(old(buf), stamp, b) && buf[b].refcnt == 1
      ensures b >= 0 && old(IndexOf(buf, 1, blockno)) >= 0 ==> buf[b].refcnt == old(buf)[b].refcnt + 1
      ensures old(IndexOf(buf, 1, blockno)) >= 0 ==>
                b == old(IndexOf(buf, 1, blockno)) && buf[b].dirty == old(buf)[b].dirty
    {
      hide Step, RingOk, Recent;
      b := Bget(1, blockno);
      if b < 0 {
        return b, false;
      }
      if buf[b].holder != 0 {
        return b, true;
      }
      Awake(b, blockno, pid);
      waits := false;
    }

    // The rest of bread, once nobody has the buffer.
    method Awake(b: int, blockno: int, pid: int)
      requires Valid() && 0 <= blockno < |disk| && pid != 0
      requires b == IndexOf(buf, 1, blockno) >= 0 && buf[b].refcnt > 0 && buf[b].holder == 0
      modifies `buf, `disk
      ensures Valid() && disk == old(disk) && SameLogical(old(buf), old(disk), buf, disk)
      ensures b == IndexOf(buf, 1, blockno) && buf[b].valid && buf[b].holder == pid
      ensures buf[b].data == old(Logical(buf, disk, blockno))
      ensures buf == old(buf)[b := buf[b]] && buf[b].dirty == old(buf)[b].dirty && buf[b].refcnt == old(buf)[b].refcnt
    {
      hide Step, RingOk, Recent;
      Lock(b, pid);
      if !buf[b].valid {
        Iderw(b);
      }
      IndexIs(buf, 1, blockno, b);
    }

    // The holder works on the data.
    method SetData(b: int, pid: int, data: Block)
      requires Valid() && 0 <= b < n && buf[b].holder == pid != 0 && buf[b].valid
      modifies `buf
      ensures Valid() && Step(old(Now()), Change(b, pid, data), Now())
      ensures buf == old(buf)[b := old(buf)[b].(data := data)]
      ensures forall c | 0 <= c < |disk| ::
                Logical(buf, disk, c) == if c == old(buf)[b].blockno then data else old(Logical(buf, disk, c))
    {
      hide RingOk, Recent, Logical, BufsOk;
      ghost var was := buf;
      Modified(buf, disk, b, data);
      buf := buf[b := buf[b].(data := data)];
      forall c | 0 <= c < |disk|
        ensures Logical(buf, disk, c) == if c == was[b].blockno then data else Logical(was, disk, c)
      {
        Modify(was, disk, b, data, c);
      }
    }

    // The part of log_write that concerns the cache: the buffer is pinned.
    method Pin(b: int)
      requires Valid() && 0 <= b < n && buf[b].holder != 0 && buf[b].valid
      modifies `buf
      ensures Valid() && SameLogical(old(buf), disk, buf, disk) && Step(old(Now()), PinDown(b), Now())
      ensures buf == old(buf)[b := old(buf)[b].(dirty := true)]
    {
      PutKeeps(buf, disk, b, buf[b].(dirty := true));
      buf := buf[b := buf[b].(dirty := true)];
    }

    method Bwrite(b: int, pid: int)
      requires Valid() && 0 <= b < n && buf[b].holder == pid != 0 && buf[b].valid
      modifies `buf, `disk
      ensures Valid() && SameLogical(old(buf), old(disk), buf, disk)
      ensures buf == old(buf)[b := old(buf)[b].(dirty := false)]
      ensures disk == old(disk)[old(buf)[b].blockno := old(buf)[b].data]
    {
      assert BufOk(buf[b], disk);
      Pin(b);
      Iderw(b);
    }

    // Lets go of a locked buffer, whose contents are on disk or pinned; the last one to do so
    // puts it at the front of the list.
    method Brelse(b: int, pid: int)
      requires Valid() && 0 <= b < n && buf[b].holder == pid != 0
      requires buf[b].valid && !buf[b].dirty ==> buf[b].data == disk[buf[b].blockno]
      modifies this
      ensures Valid() && disk == old(disk) && SameLogical(old(buf), disk, buf, disk)
      ensures Step(old(Now()), Release(b, pid), Now())
      ensures buf == old(buf)[b := old(buf)[b].(holder := 0, refcnt := old(buf)[b].refcnt - 1)]
      ensures if buf[b].refcnt == 0 then stamp == old(stamp)[b := old(clock)] && clock == old(clock) + 1
              else stamp == old(stamp) && clock == old(clock)
    {
      hide RingOk, Recent, Logical, Unique, SameLogical;
      assert BufOk(buf[b], disk);
      PutKeeps(buf, disk, b, buf[b].(holder := 0, refcnt := buf[b].refcnt - 1));
      buf := buf[b := buf[b].(holder := 0)];
      buf := buf[b := buf[b].(refcnt := buf[b].refcnt - 1)];
      assert buf == old(buf)[b := old(buf)[b].(holder := 0, refcnt := old(buf)[b].refcnt - 1)];
      if buf[b].refcnt == 0 {
        ToFront(b);
      }
    }

    method ToFront(b: int)
      requires Listed() && 0 <= b < n
      modifies `next, `prev, `ring, `stamp, `clock
      ensures Listed() && stamp == old(stamp)[b := old(clock)] && clock == old(clock) + 1
    {
      hide RingOk, Fronted, Without, Recent;
      ghost var k := Position(next, prev, ring, n, b);
      Unlink(next, prev, ring, n, k);
      PushFront(next[prev[b] := next[b]], prev[next[b] := prev[b]], Without(ring, k), n, b);
      prev := prev[next[b] := prev[b]];
      next := next[prev[b] := next[b]];
      next := next[b := next[n]];
      prev := prev[b := n];
      prev := prev[next[n] := b];
      next := next[n := b];
      MovedToFront(ring, stamp, k, clock);
      ring := Fronted(Without(ring, k), b);
      stamp := stamp[b := clock];
      clock := clock + 1;
    }
  }

  lemma Position(next: Links, prev: Links, ring: seq<int>, n: nat, b: int) returns (k: nat)
    requires RingOk(next, prev, ring, n) && 0 <= b < n && b in ring
    ensures 0 < k < |ring| && ring[k] == b && b !in Without(ring, k)
    ensures |next| == n + 1 == |prev| && ring[0] == n && Distinct(ring)
    ensures 0 <= next[b] <= n && 0 <= prev[b] <= n && next[b] != b && prev[b] != b
    ensures forall i | 1 <= i < |ring| :: 0 <= ring[i] < n
  {
    k :| 0 <= k < |ring| && ring[k] == b;
    assert LinkAt(next, prev, ring, k) && LinkAt(next, prev, ring, k - 1);
  }

  lemma WasValid(buf: seq<Buf>, disk: seq<Block>, b: int)
    requires BufsOk(buf, disk) && 0 <= b < |buf|
    ensures buf[b].dirty ==> buf[b].valid
  {
    assert BufOk(buf[b], disk);
  }

  lemma NotBefore(next: Links, prev: Links, ring: seq<int>, n: nat, b: int)
    requires RingOk(next, prev, ring, n) && 0 <= b < n && forall i | 1 <= i < |ring| :: ring[i] < b
    ensures b !in ring && |next| == n + 1 && |prev| == n + 1 && |ring| > 0
  {
  }

  lemma FrontedElements(ring: seq<int>, b: int)
    requires |ring| > 0
    ensures forall x | x in ring :: x in Fronted(ring, b)
    ensures b in Fronted(ring, b)
  {
    var r := Fronted(ring, b);
    forall x | x in ring
      ensures x in r
    {
      var i :| 0 <= i < |ring| && ring[i] == x;
      assert r[if i == 0 then 0 else i + 1] == x;
    }
    assert r[1] == b;
  }

  lemma NobodyHolds(buf: seq<Buf>, ring: seq<int>, n: nat, dev: int, blockno: int)
    requires |buf| == n && |ring| > 0 && ring[0] == n && forall i | 0 <= i < n :: i in ring
    requires forall j | 1 <= j < |ring| :: 0 <= ring[j] < n && !Holds(buf[ring[j]], dev, blockno)
    ensures IndexOf(buf, dev, blockno) == -1
  {
    var i := IndexOf(buf, dev, blockno);
    assert i >= 0 ==> i in ring;
  }

  lemma NoneIdle(buf: seq<Buf>, ring: seq<int>, n: nat)
    requires |buf| == n && |ring| > 0 && ring[0] == n && forall i | 0 <= i < n :: i in ring
    requires forall j | 1 <= j < |ring| :: 0 <= ring[j] < n && !Idle(buf[ring[j]])
    ensures forall i | 0 <= i < n :: !Idle(buf[i])
  {
    forall i | 0 <= i < n
      ensures !Idle(buf[i])
    {
      assert i in ring;
    }
  }

  // The first idle buffer from the end of the list is the one released longest ago.
  lemma LastIdle(buf: seq<Buf>, ring: seq<int>, stamp: seq<int>, n: nat, k: nat)
    requires |buf| == n == |stamp| && 0 < k < |ring| && ring[0] == n && Recent(ring, stamp)
    requires (forall i | 0 <= i < n :: i in ring) && forall j | 1 <= j < |ring| :: 0 <= ring[j] < n
    requires Idle(buf[ring[k]]) && forall j | k < j < |ring| :: !Idle(buf[ring[j]])
    ensures Victim(buf, stamp, ring[k])
  {
    forall i | 0 <= i < n && Idle(buf[i])
      ensures stamp[ring[k]] <= stamp[i]
    {
      assert i in ring;
      var j :| 0 <= j < |ring| && ring[j] == i;
    }
  }

  lemma MovedToFront(ring: seq<int>, stamp: seq<int>, k: nat, clock: int)
    requires 0 < k < |ring| && Distinct(ring) && Recent(ring, stamp) && ring[0] == |stamp|
    requires forall i | 1 <= i < |ring| :: 0 <= ring[i] < |stamp|
    requires forall i | 0 <= i < |stamp| :: i in ring && stamp[i] < clock
    ensures var r := Fronted(Without(ring, k), ring[k]);
      Recent(r, stamp[ring[k] := clock]) && forall i | 0 <= i < |stamp| :: i in r
  {
    hide Fronted, Without;
    var r, b := Fronted(Without(ring, k), ring[k]), ring[k];
    forall i | 0 <= i < |stamp|
      ensures i in r
    {
      assert i in ring;
      var j :| 0 <= j < |ring| && ring[j] == i;
      assert r[if j == k then 1 else if j < k then j + 1 else j] == i;
    }
    forall i, j | 1 <= i < j < |r| && 0 <= r[i] < |stamp| && 0 <= r[j] < |stamp|
      ensures stamp[b := clock][r[i]] > stamp[b := clock][r[j]]
    {
      var i', j' := if i <= k then i - 1 else i, if j <= k then j - 1 else j;
      assert r[j] == ring[j'] && ring[j'] != ring[k];
      if i > 1 {
        assert r[i] == ring[i'] && ring[i'] != ring[k];
      }
    }
  }
}
