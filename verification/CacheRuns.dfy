/**
 Runs of the buffer cache: any interleaving of the steps of any number of processes. The cache
 stays a plain disk to its readers, a pinned block stays where it is, and bread is what the log
 takes it for.
 */
module CacheRuns {
  import opened Bio
  import opened Blocks
  import LogDisk

  ghost predicate Ran(run: seq<Shot>, acts: seq<Action>) {
    |run| == |acts| + 1 && forall k | 0 <= k < |acts| :: Step(run[k], acts[k], run[k + 1])
  }

  predicate Ok(s: Shot) {
    |s.stamp| == |s.buf| && BufsOk(s.buf, s.disk)
  }

  // ---- One logical disk -----------------------------------------------------------------------

  function Shown(s: Shot): (m: seq<Block>)
    ensures |m| == |s.disk|
  {
    seq(|s.disk|, b requires 0 <= b < |s.disk| => Logical(s.buf, s.disk, b))
  }

  // What an action means on a plain disk: only a holder's store is one.
  function Meaning(m: seq<Block>, s: Shot, a: Action): (m': seq<Block>)
    ensures |m'| == |m|
  {
    if a.Change? && 0 <= a.b < |s.buf| && 0 <= s.buf[a.b].blockno < |m| then m[s.buf[a.b].blockno := a.data] else m
  }

  lemma StepShows(s: Shot, a: Action, t: Shot)
    requires Ok(s) && Step(s, a, t)
    ensures Ok(t) && Shown(t) == Meaning(Shown(s), s, a)
  {
    match a
    case Get(dev, blockno, b) =>
      if IndexOf(s.buf, dev, blockno) >= 0 {
        PutKeeps(s.buf, s.disk, b, t.buf[b]);
      } else if b >= 0 {
        assert BufOk(s.buf[b], s.disk);
        Evict(s.buf, s.disk, b, t.buf[b]);
      }
    case Acquire(b, pid) =>
      PutKeeps(s.buf, s.disk, b, t.buf[b]);
    case Sync(b) =>
      assert BufOk(s.buf[b], s.disk);
      assert t.disk == if s.buf[b].dirty then t.disk else s.disk;
      Transfer(s.buf, s.disk, b, t.buf[b], t.disk);
    case Change(b, pid, data) =>
      Changed(s, b, data);
    case PinDown(b) =>
      PutKeeps(s.buf, s.disk, b, t.buf[b]);
    case Release(b, pid) =>
      assert BufOk(s.buf[b], s.disk);
      PutKeeps(s.buf, s.disk, b, t.buf[b]);
  }

  lemma Changed(s: Shot, b: nat, data: Block)
    requires Ok(s) && b < |s.buf| && s.buf[b].valid && s.buf[b].holder != 0
    ensures var t := s.(buf := s.buf[b := s.buf[b].(data := data)]);
      Ok(t) && 0 <= s.buf[b].blockno < |s.disk| && Shown(t) == Shown(s)[s.buf[b].blockno := data]
  {
    hide Logical, BufsOk;
    var buf', blk := s.buf[b := s.buf[b].(data := data)], s.buf[b].blockno;
    ValidBlock(s.buf, s.disk, b);
    Modified(s.buf, s.disk, b, data);
    var m, m' := Shown(s), Shown(s.(buf := buf'));
    forall c | 0 <= c < |s.disk|
      ensures m'[c] == m[blk := data][c]
    {
      Modify(s.buf, s.disk, b, data, c);
    }
    assert m' == m[blk := data];
  }

  lemma ValidBlock(buf: seq<Buf>, disk: seq<Block>, b: nat)
    requires BufsOk(buf, disk) && b < |buf| && buf[b].valid
    ensures 0 <= buf[b].blockno < |disk|
  {
    assert BufOk(buf[b], disk);
  }

  function Meanings(m: seq<Block>, run: seq<Shot>, acts: seq<Action>): (m': seq<Block>)
    requires |run| == |acts| + 1
    ensures |m'| == |m|
  {
    if acts == [] then m
    else
      var k := |acts| - 1;
      Meaning(Meanings(m, run[..k + 1], acts[..k]), run[k], acts[k])
  }

  lemma RanPrefix(run: seq<Shot>, acts: seq<Action>, k: nat)
    requires Ran(run, acts) && k < |acts|
    ensures Ran(run[..k + 1], acts[..k]) && run[..k + 1][k] == run[k] && run[..k + 1][0] == run[0]
  {
  }

  // Whatever is cached, written back, pinned or evicted meanwhile, a run does to the blocks that
  // readers see exactly what its stores do to a plain disk.
  lemma {:induction false} RunShows(run: seq<Shot>, acts: seq<Action>)
    requires Ran(run, acts) && Ok(run[0])
    ensures Ok(run[|acts|]) && Shown(run[|acts|]) == Meanings(Shown(run[0]), run, acts)
    decreases |acts|
  {
    if acts != [] {
      var k := |acts| - 1;
      RanPrefix(run, acts, k);
      RunShows(run[..k + 1], acts[..k]);
      StepShows(run[k], acts[k], run[k + 1]);
    }
  }

  // ---- Pinned blocks ----------------------------------------------------------------------------

  // Buffer i is pinned with block blk, which looking it up finds.
  predicate PinnedAs(s: Shot, i: int, blk: int) {
    0 <= i < |s.buf| && 0 <= blk < |s.disk| && s.buf[i].dirty && s.buf[i].valid && IndexOf(s.buf, 1, blk) == i
  }

  lemma PinnedStep(s: Shot, a: Action, t: Shot, i: int, blk: int)
    requires Ok(s) && Step(s, a, t) && PinnedAs(s, i, blk) && a != Sync(i)
    ensures PinnedAs(t, i, blk) && t.disk[blk] == s.disk[blk]
    ensures t.buf[i].data == if a.Change? && a.b == i then a.data else s.buf[i].data
  {
    StepShows(s, a, t);
    assert t.buf[i].dirty && t.buf[i].valid && Holds(t.buf[i], 1, blk);
    IndexIs(t.buf, 1, blk, i);
    if a.Sync? {
      assert !Holds(s.buf[a.b], 1, blk);
    }
  }

  // A pinned block stays in its buffer, where looking it up finds it, and its place on disk is
  // not written, until that buffer itself goes through iderw.
  lemma {:induction false} PinnedStays(run: seq<Shot>, acts: seq<Action>, i: int, blk: int)
    requires Ran(run, acts) && Ok(run[0]) && PinnedAs(run[0], i, blk) && Sync(i) !in acts
    ensures var t := run[|acts|]; PinnedAs(t, i, blk) && t.disk[blk] == run[0].disk[blk]
    decreases |acts|
  {
    if acts != [] {
      var k := |acts| - 1;
      RanPrefix(run, acts, k);
      assert acts[k] in acts;
      PinnedStays(run[..k + 1], acts[..k], i, blk);
      RunShows(run[..k + 1], acts[..k]);
      PinnedStep(run[k], acts[k], run[k + 1], i, blk);
    }
  }

  // ---- The log's view ------------------------------------------------------------------------------

  // dirty is the log's map of pinned blocks: those of the dirty buffers, with their contents.
  predicate CollectsAt(buf: seq<Buf>, dirty: map<nat, Block>, blk: nat) {
    var i := IndexOf(buf, 1, blk);
    if i >= 0 && buf[i].dirty then blk in dirty && dirty[blk] == buf[i].data else blk !in dirty
  }

  ghost predicate Collects(buf: seq<Buf>, dirty: map<nat, Block>) {
    forall blk: nat :: CollectsAt(buf, dirty, blk)
  }

  // A buffer that only its holder can have changed: locked but not pinned.
  predicate InWork(buf: seq<Buf>, blk: int) {
    var i := IndexOf(buf, 1, blk);
    i >= 0 && buf[i].holder != 0 && !buf[i].dirty
  }

  // The log's bread, pinned copy or disk block, is what a reader of the cache gets.
  lemma BreadAgrees(s: Shot, dirty: map<nat, Block>, blk: nat)
    requires Ok(s) && Collects(s.buf, dirty) && blk < |s.disk| && !InWork(s.buf, blk)
    ensures LogDisk.Bread(s.disk, dirty, blk) == Logical(s.buf, s.disk, blk)
  {
    assert CollectsAt(s.buf, dirty, blk);
    var i := IndexOf(s.buf, 1, blk);
    if i >= 0 {
      assert BufOk(s.buf[i], s.disk);
    }
  }

  // What an action does to the log's map: a pin adds the block, writing the buffer back takes it
  // out, and a store to a pinned buffer is a store to the map.
  function Tracked(dirty: map<nat, Block>, s: Shot, a: Action): map<nat, Block> {
    if (a.PinDown? || a.Sync? || a.Change?) && 0 <= a.b < |s.buf| && 0 <= s.buf[a.b].blockno && s.buf[a.b].dev == 1 then
      var o := s.buf[a.b];
      if a.PinDown? then dirty[o.blockno := o.data]
      else if a.Sync? then dirty - {o.blockno}
      else if o.dirty then dirty[o.blockno := a.data] else dirty
    else dirty
  }

  lemma StepTracks(s: Shot, a: Action, t: Shot, dirty: map<nat, Block>)
    requires Ok(s) && Step(s, a, t) && Collects(s.buf, dirty)
    ensures Collects(t.buf, Tracked(dirty, s, a))
  {
    StepShows(s, a, t);
    forall blk: nat
      ensures CollectsAt(t.buf, Tracked(dirty, s, a), blk)
    {
      assert CollectsAt(s.buf, dirty, blk);
      TracksAt(s, a, t, dirty, blk);
    }
  }

  lemma TracksAt(s: Shot, a: Action, t: Shot, dirty: map<nat, Block>, blk: nat)
    requires Ok(s) && Ok(t) && Step(s, a, t) && CollectsAt(s.buf, dirty, blk)
    ensures CollectsAt(t.buf, Tracked(dirty, s, a), blk)
  {
    var i := IndexOf(s.buf, 1, blk);
    if i >= 0 {
      assert BufOk(s.buf[i], s.disk);
    }
    if a.Get? {
      if IndexOf(s.buf, a.dev, a.blockno) >= 0 {
        PutSame(s.buf, a.b, t.buf[a.b], blk);
      } else if a.b >= 0 {
        if i >= 0 && i != a.b {
          IndexIs(t.buf, 1, blk, i);
        }
      }
    } else {
      var o := s.buf[a.b];
      assert BufOk(o, s.disk);
      PutSame(s.buf, a.b, t.buf[a.b], blk);
      if o.dev == 1 {
        IndexIs(s.buf, 1, o.blockno, a.b);
      }
    }
  }

  function TrackedAll(dirty: map<nat, Block>, run: seq<Shot>, acts: seq<Action>): map<nat, Block>
    requires |run| == |acts| + 1
  {
    if acts == [] then dirty
    else
      var k := |acts| - 1;
      Tracked(TrackedAll(dirty, run[..k + 1], acts[..k]), run[k], acts[k])
  }

  // The map the log keeps by its own rules stays the map of the dirty buffers, so throughout a run
  // its bread is the cache's.
  lemma {:induction false} RunTracks(run: seq<Shot>, acts: seq<Action>, dirty: map<nat, Block>)
    requires Ran(run, acts) && Ok(run[0]) && Collects(run[0].buf, dirty)
    ensures var t, d := run[|acts|], TrackedAll(dirty, run, acts);
      && Ok(t) && Collects(t.buf, d)
      && forall blk: nat | blk < |t.disk| && !InWork(t.buf, blk) ::
           LogDisk.Bread(t.disk, d, blk) == Logical(t.buf, t.disk, blk)
    decreases |acts|
  {
    RunShows(run, acts);
    var t, d := run[|acts|], TrackedAll(dirty, run, acts);
    if acts != [] {
      var k := |acts| - 1;
      RanPrefix(run, acts, k);
      RunTracks(run[..k + 1], acts[..k], dirty);
      StepTracks(run[k], acts[k], run[k + 1], TrackedAll(dirty, run[..k + 1], acts[..k]));
    }
    forall blk: nat | blk < |t.disk| && !InWork(t.buf, blk)
      ensures LogDisk.Bread(t.disk, d, blk) == Logical(t.buf, t.disk, blk)
    {
      BreadAgrees(t, d, blk);
    }
  }

  // ---- A cache full of pinned blocks -------------------------------------------------------------

  predicate PinnedIn(buf: seq<Buf>, blk: int) {
    exists i | 0 <= i < |buf| :: buf[i].dirty && buf[i].blockno == blk
  }

  lemma {:induction false} CountPinned(buf: seq<Buf>, blks: set<int>)
    requires forall b | b in blks :: PinnedIn(buf, b)
    ensures |blks| <= |buf|
    ensures |blks| == |buf| ==> forall j | 0 <= j < |buf| :: buf[j].dirty
  {
    if buf == [] {
      assert forall b :: !PinnedIn(buf, b);
      assert forall b :: b !in blks;
      assert blks == {};
    } else {
      var init, last := buf[..|buf| - 1], buf[|buf| - 1];
      var rest := if last.dirty then blks - {last.blockno} else blks;
      forall b | b in rest
        ensures PinnedIn(init, b)
      {
        assert PinnedIn(buf, b);
        var i :| 0 <= i < |buf| && buf[i].dirty && buf[i].blockno == b;
        assert init[i] == buf[i];
      }
      CountPinned(init, rest);
      assert forall j | 0 <= j < |init| :: buf[j] == init[j];
    }
  }

  // No more blocks are pinned than there are buffers; and when as many are, whoever wants a block
  // that is not cached, as write_log does with the first block of the log, ends in bget's panic.
  lemma FullCachePanics(s: Shot, dirty: map<nat, Block>, dev: int, blk: int, b: int, t: Shot)
    requires Ok(s) && Collects(s.buf, dirty)
    ensures |dirty| <= |s.buf|
    ensures |dirty| == |s.buf| && IndexOf(s.buf, dev, blk) < 0 && Step(s, Get(dev, blk, b), t) ==> b < 0
  {
    forall d | d in dirty.Keys
      ensures PinnedIn(s.buf, d)
    {
      assert CollectsAt(s.buf, dirty, d);
    }
    CountPinned(s.buf, dirty.Keys);
    assert |dirty| == |dirty.Keys|;
  }
}
