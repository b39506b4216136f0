/**
 The redo log of log.c: the global log structure, the disk and the pinned buffers, updated
 in place. Every block write is recorded in `history`, so that the contracts speak about the
 disk after each of them and not only about the last one.
 */
module Log {
  import opened Blocks
  import opened LogDisk

  // Position of b in bs, or |bs|: where log_write's absorption loop stops.
  function IndexOf(bs: seq<nat>, b: nat): (i: nat)
    ensures i <= |bs|
    ensures i < |bs| ==> bs[i] == b
    ensures forall j | 0 <= j < i :: bs[j] != b
  {
    if bs == [] || bs[0] == b then 0 else 1 + IndexOf(bs[1..], b)
  }

  function Absorb(bs: seq<nat>, b: nat): (r: seq<nat>)
    ensures b in r && (forall x | x in bs :: x in r) && (forall x | x in r :: x == b || x in bs)
    ensures |r| == if b in bs then |bs| else |bs| + 1
  {
    if IndexOf(bs, b) < |bs| then bs else bs + [b]
  }

  // begin_op sleeps under exactly this condition.
  predicate MustWait(g: Geometry, n: nat, outstanding: nat, committing: bool) {
    committing || n + (outstanding + 1) * g.maxop > g.logsize
  }

  // log_write panics under exactly this condition.
  predicate WritePanics(g: Geometry, n: nat, outstanding: nat) {
    n >= g.logsize || n as int >= g.size as int - 1 || outstanding < 1
  }

  // The disks written between two moments are, in order, those of the commit of bs.
  ghost predicate Passed(before: seq<Disk>, after: seq<Disk>,
                         g: Geometry, d: Disk, dirty: map<nat, Block>, bs: seq<nat>)
    requires GeometryOk(g, |d|) && Copyable(g, |d|, bs)
  {
    && |after| == |before| + CommitLength(bs) && after[..|before|] == before
    && forall k | |before| <= k < |after| :: after[k] == CommitDisk(g, d, dirty, bs, k - |before| + 1)
  }

  lemma TraceIsDisks(before: seq<Disk>, g: Geometry, d: Disk, dirty: map<nat, Block>, bs: seq<nat>)
    requires GeometryOk(g, |d|) && Copyable(g, |d|, bs)
    ensures Passed(before, before + CommitTrace(g, d, dirty, bs), g, d, dirty, bs)
  {
    hide CommitTrace, CommitDisk;
    CommitTraceAt(g, d, dirty, bs);
  }

  class LogManager {
    const g: Geometry
    var disk: Disk
    var dirty: map<nat, Block>
    var n: nat
    const block: array<nat>
    var outstanding: int
    var committing: bool
    ghost var history: seq<Disk>

    ghost predicate Valid()
      reads this, block
    {
      && GeometryOk(g, |disk|)
      && block.Length == g.logsize
      && n <= g.logsize
      && Listed(g, |disk|, block[..n])
      && Within(dirty, block[..n])
    }

    function Lh(): seq<nat>
      reads this, block
      requires n <= block.Length
    {
      block[..n]
    }

    // initlog: an image is mounted with nothing cached and brought up to its last commit.
    constructor (g: Geometry, image: Disk)
      requires HeaderOk(g, image)
      ensures Valid() && fresh(block) && this.g == g
      ensures n == 0 && dirty == map[] && !committing && outstanding == 0
      ensures disk == RecoverDisk(g, image, RecoverLength(g, image)) && |history| == RecoverLength(g, image)
      ensures forall k | 0 <= k < |history| :: history[k] == RecoverDisk(g, image, k + 1)
      ensures Logged(g, disk) == [] && HomeEq(g, disk, Recovered(g, image))
    {
      this.g := g;
      disk, dirty, n, outstanding, committing, history := image, map[], 0, 0, false, [];
      block := new nat[g.logsize];
      new;
      RecoverFromLog();
    }

    // bwrite: one block reaches the disk, and its buffer is clean again.
    method Bwrite(b: nat, data: Block)
      requires b < |disk|
      modifies `disk, `dirty, `history
      ensures disk == old(disk)[b := data]
      ensures dirty == old(dirty) - {b}
      ensures history == old(history) + [disk]
    {
      disk := disk[b := data];
      dirty := dirty - {b};
      history := history + [disk];
    }

    // Each block of the transaction goes to its place in the log, as the cache shows it; if the list
    // has outgrown the log, the last ones go to the blocks behind it, which lose their pins.
    method WriteLog()
      requires Valid() && g.start + n < |disk|
      modifies `disk, `dirty, `history
      ensures Valid() && dirty == Unpinned(g, old(dirty), n) && Apart(g, dirty, n)
      ensures n < g.size ==> dirty == old(dirty)
      ensures disk == LogCopied(g, old(disk), old(dirty), Lh(), n)
      ensures history == old(history) + LogCopiedTrace(g, old(disk), old(dirty), Lh(), n)
    {
      hide Listed, Copyable, Within, Apart, Unpinned, LogCopied, LogCopiedTrace;
      var tail := 0;
      ghost var d0, dirty0, bs := disk, dirty, Lh();
      ListedAfter(g, |disk|, bs);
      CopyStarts(g, disk, dirty, bs);
      while tail < n
        invariant tail <= n && bs == Lh() && |disk| == |d0| && dirty == Unpinned(g, dirty0, tail)
        invariant disk == LogCopied(g, d0, dirty0, bs, tail)
        invariant history == old(history) + LogCopiedTrace(g, d0, dirty0, bs, tail)
      {
        assert bs[tail] == block[tail];
        var from := Bread(disk, dirty, block[tail]);
        CopyStep(g, d0, dirty0, bs, tail);
        Bwrite(g.start + tail + 1, from);
        tail := tail + 1;
      }
      UnpinnedWithin(g, dirty0, bs, n);
      UnpinnedApart(g, dirty0, n);
      if n < g.size {
        NoneUnpinned(g, dirty0, bs, |disk|);
      }
    }

    // The header on disk lists the transaction from here on.
    method WriteHead()
      requires Valid() && g.start + n < |disk|
      modifies `disk, `dirty, `history
      ensures Valid() && dirty == old(dirty)
      ensures disk == HeadWritten(g, old(disk), Lh())
      ensures history == old(history) + [disk]
    {
      var buf := Bread(disk, dirty, g.start);
      buf := SetWord(buf, 0, n);
      var i := 0;
      while i < n
        invariant i <= n
        invariant buf == HeadImage(disk[g.start], Lh(), i)
      {
        buf := SetWord(buf, i + 1, block[i]);
        i := i + 1;
      }
      assert g.start !in dirty;
      Bwrite(g.start, buf);
    }

    // Each logged block goes home.
    method InstallTrans()
      requires Valid() && g.start + n < |disk| && Apart(g, dirty, n)
      modifies `disk, `dirty, `history
      ensures Valid() && dirty == map[]
      ensures disk == Installed(g, old(disk), Lh(), n)
      ensures history == old(history) + InstalledTrace(g, old(disk), Lh(), n)
    {
      hide Listed, Copyable, Within, Apart;
      var tail := 0;
      ghost var d0, bs := disk, Lh();
      ListedAfter(g, |disk|, bs);
      assert bs[0..] == bs;
      while tail < n
        invariant tail <= n && bs == Lh() && |disk| == |d0|
        invariant Within(dirty, bs[tail..]) && Apart(g, dirty, n)
        invariant disk == Installed(g, d0, bs, tail)
        invariant history == old(history) + InstalledTrace(g, d0, bs, tail)
      {
        assert bs[tail] == block[tail];
        var lbuf := Bread(disk, dirty, g.start + tail + 1);
        FromLog(g, disk, dirty, tail + 1, n);
        NextInstalled(g, dirty, bs, tail, n);
        Bwrite(block[tail], lbuf);
        tail := tail + 1;
      }
      assert bs[n..] == [];
      NonePinned(dirty);
      NothingWithin(bs);
    }

    // Afterwards the header in memory lists what the one on disk does.
    method ReadHead()
      requires Valid() && HeaderOk(g, disk) && dirty == map[]
      modifies `n, block
      ensures Valid() && Lh() == Logged(g, disk) && n < g.size
    {
      var buf := Bread(disk, dirty, g.start);
      n := GetWord(buf, 0);
      var i := 0;
      while i < n
        invariant i <= n <= block.Length && n == GetWord(buf, 0)
        invariant forall j | 0 <= j < i :: block[j] == GetWord(buf, j + 1)
      {
        block[i] := GetWord(buf, i + 1);
        i := i + 1;
      }
      assert Lh() == Logged(g, disk);
    }

    // The disk goes through exactly the recovery sequence, and the log ends up empty.
    method RecoverFromLog()
      requires Valid() && HeaderOk(g, disk) && dirty == map[]
      modifies `disk, `dirty, `history, `n, block
      ensures Valid() && dirty == map[] && n == 0
      ensures disk == RecoverDisk(g, old(disk), RecoverLength(g, old(disk)))
      ensures |history| == |old(history)| + RecoverLength(g, old(disk)) && history[..|old(history)|] == old(history)
      ensures forall k | |old(history)| <= k < |history| ::
                history[k] == RecoverDisk(g, old(disk), k - |old(history)| + 1)
      ensures HeaderOk(g, disk) && Logged(g, disk) == []
      ensures HomeEq(g, disk, Recovered(g, old(disk)))
    {
      hide Listed, Copyable, HeadWritten, Installed, InstalledTrace, Logged, HomeEq, Recovered;
      ghost var d0 := disk;
      RecoverTraceAt(g, d0);
      NothingListed(g, |disk|);
      ReadHead();
      InstallTrans();
      n := 0;
      assert Lh() == [];
      WriteHead();
      assert history == old(history) + RecoverTrace(g, d0);
      RecoveryRestarts(g, d0, RecoverLength(g, d0));
    }

    // The disk goes through exactly the commit sequence. A false `ok` is the panic "bget: no
    // buffers": NBUF pinned blocks leave write_log no buffer for its first log block.
    method Commit() returns (ok: bool)
      requires Valid() && g.start + n < |disk|
      modifies `disk, `dirty, `history, `n
      ensures Valid()
      ensures ok <==> old(n) == 0 || old(n) < g.nbuf
      ensures !ok ==> n == old(n) && dirty == old(dirty) && disk == old(disk) && history == old(history)
      ensures ok ==>
        && dirty == map[] && n == 0
        && disk == CommitDisk(g, old(disk), old(dirty), old(Lh()), CommitLength(old(Lh())))
        && Passed(old(history), history, g, old(disk), old(dirty), old(Lh()))
    {
      hide Listed, Copyable, LogCopied, HeadWritten, Installed, LogCopiedTrace, InstalledTrace, Passed, CommitDisk;
      ghost var d0, dirty0, bs := disk, dirty, Lh();
      ListedAfter(g, |disk|, bs);
      NothingListed(g, |disk|);
      TraceIsDisks(history, g, disk, dirty, bs);
      if n > 0 {
        if n >= g.nbuf {
          return false;
        }
        CommitEnd(g, disk, dirty, bs);
        WriteLog();
        WriteHead();
        InstallTrans();
        n := 0;
        assert Lh() == [];
        WriteHead();
        assert history == old(history) + CommitTrace(g, d0, dirty0, bs);
      } else {
        assert history == old(history) + CommitTrace(g, d0, dirty0, bs);
        CommitNothing(g, d0, dirty0, bs);
      }
      ok := true;
    }

    // One pass through begin_op's loop: an operation that is let in has its blocks reserved, and
    // one is kept out only while a commit runs or its blocks would not fit.
    method BeginOp() returns (admitted: bool)
      requires Valid() && outstanding >= 0
      modifies `outstanding
      ensures admitted ==> !committing && n + outstanding * g.maxop <= g.logsize
      ensures !admitted ==> committing || n + (outstanding + 1) * g.maxop > g.logsize
      ensures admitted == !MustWait(g, n, old(outstanding), committing)
      ensures outstanding == old(outstanding) + if admitted then 1 else 0
    {
      if committing {
        return false;
      } else if n + (outstanding + 1) * g.maxop > g.logsize {
        return false;
      } else {
        outstanding := outstanding + 1;
        return true;
      }
    }

    // The first half of end_op, under the log lock. Exactly the last operation out is told to
    // commit, and from then on no other one gets in; a false `ok` is the panic.
    method EndOpEnter() returns (ok: bool, doCommit: bool)
      requires Valid()
      modifies `outstanding, `committing
      ensures outstanding == old(outstanding) - 1
      ensures ok == !old(committing)
      ensures doCommit == (ok && outstanding == 0)
      ensures committing == (old(committing) || doCommit)
    {
      doCommit := false;
      outstanding := outstanding - 1;
      if committing {
        return false, false;
      }
      if outstanding == 0 {
        doCommit := true;
        committing := true;
      }
      ok := true;
    }

    // end_op as a whole. When it commits, the disk passes through the commit sequence. A false `ok` is
    // a panic: a commit is running already, or there is no buffer to begin it with.
    method EndOp() returns (ok: bool)
      requires Valid() && g.start + n < |disk|
      modifies `disk, `dirty, `history, `n, `outstanding, `committing
      ensures Valid()
      ensures ok <==> !old(committing) && (outstanding == 0 ==> old(n) == 0 || old(n) < g.nbuf)
      ensures outstanding == old(outstanding) - 1
      ensures ok ==> !committing
      ensures ok && outstanding == 0 ==>
        && n == 0 && dirty == map[]
        && disk == CommitDisk(g, old(disk), old(dirty), old(Lh()), CommitLength(old(Lh())))
        && Passed(old(history), history, g, old(disk), old(dirty), old(Lh()))
      ensures outstanding != 0 || !ok ==>
        n == old(n) && dirty == old(dirty) && disk == old(disk) && history == old(history)
    {
      var doCommit;
      ok, doCommit := EndOpEnter();
      if !ok {
        return;
      }
      if doCommit {
        ok := Commit();
        if !ok {
          return;
        }
        committing := false;
      }
    }

    // The start of log_write, before it takes log.lock. A false `ok` is one of the two panics.
    method Check() returns (ok: bool)
      requires Valid()
      ensures ok <==> n < g.logsize && n + 1 < g.size && outstanding >= 1
      ensures ok == !WritePanics(g, n, if outstanding < 0 then 0 else outstanding)
    {
      if n >= g.logsize || n as int >= g.size as int - 1 {
        return false;
      }
      ok := outstanding >= 1;
    }

    // The rest of log_write, under log.lock: the caller has put `data` into the buffer of block b,
    // which is recorded and pinned. Other processes may have recorded blocks since Check, so the
    // list may no longer fit the log: it does exactly if there is still room or b is on it already.
    method Record(b: nat, data: Block)
      requires Valid() && n < g.logsize && b < |disk| && !InLog(g, b)
      modifies `n, `dirty, block
      ensures Valid() && Lh() == Absorb(old(Lh()), b) && dirty == old(dirty)[b := data]
      ensures Lh() == if b in old(Lh()) then old(Lh()) else old(Lh()) + [b]
      ensures old(n) < g.size ==> (n < g.size <==> b in old(Lh()) || old(n) + 1 < g.size)
    {
      ghost var bs := Lh();
      var i := 0;
      while i < n
        invariant i <= n
        invariant forall j | 0 <= j < i :: block[j] != b
      {
        if block[i] == b {
          break;
        }
        i := i + 1;
      }
      assert i == IndexOf(bs, b);
      block[i] := b;
      if i == n {
        n := n + 1;
      }
      dirty := dirty[b := data];
      assert Lh() == Absorb(bs, b);
    }

    // log_write when no other process logs a block in between.
    method LogWrite(b: nat, data: Block) returns (ok: bool)
      requires Valid() && b < |disk| && !InLog(g, b) && outstanding >= 0
      modifies `n, `dirty, block
      ensures Valid()
      ensures ok == !WritePanics(g, old(n), outstanding)
      ensures ok ==> Lh() == Absorb(old(Lh()), b) && dirty == old(dirty)[b := data] && n < g.size
      ensures !ok ==> Lh() == old(Lh()) && dirty == old(dirty)
    {
      ok := Check();
      if ok {
        Record(b, data);
      }
    }
  }
}
