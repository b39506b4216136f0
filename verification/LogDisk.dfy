/**
 What the redo log means: functions on the disk that say which disk every single block
 write of commit() and of recover_from_log() leaves behind, and which home blocks an
 uninterrupted recovery would produce from each of them.
 */
module LogDisk {
  import opened Blocks

  type Disk = seq<Block>

  // The log occupies blocks start .. start+size: the header, then the data blocks.
  // logsize, maxop and nbuf are LOGSIZE, MAXOPBLOCKS and NBUF.
  datatype Geometry = Geometry(start: nat, size: nat, logsize: nat, maxop: nat, nbuf: nat)

  // initlog refuses a header that does not fit in a block; the log itself must lie on the disk.
  predicate GeometryOk(g: Geometry, blocks: nat) {
    1 <= g.size && g.start + g.size <= blocks <= TWO32 && g.logsize + 1 < WORDS
  }

  predicate InLog(g: Geometry, a: nat) {
    g.start <= a < g.start + g.size
  }

  // A list of home blocks that fits the in-memory header and the log.
  ghost predicate Loggable(g: Geometry, blocks: nat, bs: seq<nat>) {
    && |bs| <= g.logsize
    && |bs| <= g.size - 1
    && (forall i | 0 <= i < |bs| :: bs[i] < blocks && !InLog(g, bs[i]))
    && (forall i, j | 0 <= i < j < |bs| :: bs[i] != bs[j])
  }

  // A list of home blocks that fits the in-memory header, whether or not it fits the log.
  ghost predicate Listed(g: Geometry, blocks: nat, bs: seq<nat>) {
    && |bs| <= g.logsize
    && (forall i | 0 <= i < |bs| :: bs[i] < blocks && !InLog(g, bs[i]))
    && (forall i, j | 0 <= i < j < |bs| :: bs[i] != bs[j])
  }

  lemma NothingListed(g: Geometry, blocks: nat)
    requires GeometryOk(g, blocks)
    ensures Listed(g, blocks, []) && Copyable(g, blocks, [])
  {
  }

  lemma ListedAfter(g: Geometry, blocks: nat, bs: seq<nat>)
    requires Listed(g, blocks, bs) && g.start + |bs| < blocks
    ensures Copyable(g, blocks, bs) && |bs| <= g.logsize
  {
  }

  // What write_log needs of a list to get through it: each block it writes is on the disk. Whether
  // that block is still in the log is another matter; behind the log, it may be the home of a block
  // that is pinned itself, which then loses both its contents and its pin.
  ghost predicate Copyable(g: Geometry, blocks: nat, bs: seq<nat>) {
    |bs| <= g.logsize && g.start + |bs| < blocks && forall i | 0 <= i < |bs| :: bs[i] < blocks
  }

  // What bread returns: the pinned (dirty) copy if there is one, and the disk block otherwise.
  function Bread(d: Disk, dirty: map<nat, Block>, b: nat): Block
    requires b < |d|
  {
    if b in dirty then dirty[b] else d[b]
  }

  // ---- The header block ---------------------------------------------------------

  function HeaderOf(h: Block): (bs: seq<nat>)
    requires GetWord(h, 0) < WORDS
    ensures |bs| == GetWord(h, 0)
    ensures forall i | 0 <= i < |bs| :: bs[i] == GetWord(h, i + 1)
  {
    var n: nat := GetWord(h, 0);
    seq(n, i requires 0 <= i < n => GetWord(h, i + 1))
  }

  // The header on disk describes a transaction (possibly empty) of this log.
  ghost predicate HeaderOk(g: Geometry, d: Disk) {
    && GeometryOk(g, |d|)
    && GetWord(d[g.start], 0) < WORDS
    && Loggable(g, |d|, HeaderOf(d[g.start]))
  }

  function Logged(g: Geometry, d: Disk): seq<nat>
    requires HeaderOk(g, d)
  {
    HeaderOf(d[g.start])
  }

  // The first k steps of write_head's loop.
  function HeadImage(h: Block, bs: seq<nat>, k: nat): Block
    requires k <= |bs| < WORDS && forall i | 0 <= i < |bs| :: bs[i] < TWO32
  {
    if k == 0 then SetWord(h, 0, |bs|) else SetWord(HeadImage(h, bs, k - 1), k, bs[k - 1])
  }

  lemma {:induction false} HeadImageWords(h: Block, bs: seq<nat>, k: nat)
    requires k <= |bs| < WORDS && forall i | 0 <= i < |bs| :: bs[i] < TWO32
    ensures GetWord(HeadImage(h, bs, k), 0) == |bs|
    ensures forall i | 0 <= i < k :: GetWord(HeadImage(h, bs, k), i + 1) == bs[i]
  {
    if k == 0 {
      GetSetWord(h, 0, |bs|);
    } else {
      HeadImageWords(h, bs, k - 1);
      GetSetWord(HeadImage(h, bs, k - 1), k, bs[k - 1]);
    }
  }

  // write_head followed by read_head gives back the list that was written.
  lemma HeadRoundTrip(h: Block, bs: seq<nat>)
    requires |bs| < WORDS && forall i | 0 <= i < |bs| :: bs[i] < TWO32
    ensures GetWord(HeadImage(h, bs, |bs|), 0) < WORDS
    ensures HeaderOf(HeadImage(h, bs, |bs|)) == bs
  {
    HeadImageWords(h, bs, |bs|);
  }

  // ---- The three phases of a commit ----------------------------------------------

  // Only listed blocks are pinned.
  ghost predicate Within(dirty: map<nat, Block>, bs: seq<nat>) {
    forall b | b in dirty :: b in bs
  }

  lemma UnpinnedWithin(g: Geometry, dirty: map<nat, Block>, bs: seq<nat>, k: nat)
    requires Within(dirty, bs)
    ensures Within(Unpinned(g, dirty, k), bs)
  {
  }

  // Nothing that write_log has written is pinned.
  ghost predicate Apart(g: Geometry, dirty: map<nat, Block>, k: nat) {
    forall b | b in dirty :: !(g.start < b <= g.start + k)
  }

  lemma UnpinnedApart(g: Geometry, dirty: map<nat, Block>, k: nat)
    ensures Apart(g, Unpinned(g, dirty, k), k)
  {
  }

  // install_trans writes the next listed block, which loses its pin.
  lemma NextInstalled(g: Geometry, dirty: map<nat, Block>, bs: seq<nat>, k: nat, n: nat)
    requires k < |bs| && Within(dirty, bs[k..]) && Apart(g, dirty, n)
    ensures Within(dirty - {bs[k]}, bs[k + 1..]) && Apart(g, dirty - {bs[k]}, n)
  {
    assert bs[k..] == [bs[k]] + bs[k + 1..];
  }

  lemma FromLog(g: Geometry, d: Disk, dirty: map<nat, Block>, k: nat, n: nat)
    requires 0 < k <= n && g.start + k < |d| && Apart(g, dirty, n)
    ensures Bread(d, dirty, g.start + k) == d[g.start + k]
  {
  }

  lemma NothingWithin(bs: seq<nat>)
    ensures Within(map[], bs)
  {
  }

  lemma NonePinned(dirty: map<nat, Block>)
    ensures Within(dirty, []) ==> dirty == map[]
  {
  }

  // A list that fits the log costs no block its pin.
  lemma NoneUnpinned(g: Geometry, dirty: map<nat, Block>, bs: seq<nat>, blocks: nat)
    requires Listed(g, blocks, bs) && |bs| < g.size && Within(dirty, bs)
    ensures Unpinned(g, dirty, |bs|) == dirty
  {
    forall b | b in dirty
      ensures !(g.start < b <= g.start + |bs|)
    {
      assert b in bs;
    }
  }

  // What is pinned after k iterations of write_log: bwrite unpins what it writes.
  function Unpinned(g: Geometry, dirty: map<nat, Block>, k: nat): (r: map<nat, Block>)
    ensures forall b :: b in r <==> b in dirty && !(g.start < b <= g.start + k)
    ensures forall b | b in r :: r[b] == dirty[b]
  {
    if k == 0 then dirty else Unpinned(g, dirty, k - 1) - {g.start + k}
  }

  // The disk after k iterations of write_log.
  function LogCopied(g: Geometry, d: Disk, dirty: map<nat, Block>, bs: seq<nat>, k: nat): (r: Disk)
    requires GeometryOk(g, |d|) && Copyable(g, |d|, bs) && k <= |bs|
    ensures |r| == |d|
  {
    if k == 0 then d
    else
      var c := LogCopied(g, d, dirty, bs, k - 1);
      c[g.start + k := Bread(c, Unpinned(g, dirty, k - 1), bs[k - 1])]
  }

  // The disk after write_head.
  function HeadWritten(g: Geometry, d: Disk, bs: seq<nat>): (r: Disk)
    requires GeometryOk(g, |d|) && Copyable(g, |d|, bs)
    ensures |r| == |d|
  {
    d[g.start := HeadImage(d[g.start], bs, |bs|)]
  }

  // The disk after k iterations of install_trans.
  function Installed(g: Geometry, d: Disk, bs: seq<nat>, k: nat): (r: Disk)
    requires GeometryOk(g, |d|) && Copyable(g, |d|, bs) && k <= |bs|
    ensures |r| == |d|
  {
    if k == 0 then d
    else
      var e := Installed(g, d, bs, k - 1);
      e[bs[k - 1] := e[g.start + k]]
  }

  // The disk k block writes after the header bs was written: install_trans, then write_head.
  function AfterHead(g: Geometry, e: Disk, bs: seq<nat>, k: nat): (r: Disk)
    requires GeometryOk(g, |e|) && Copyable(g, |e|, bs) && k <= |bs| + 1
    ensures |r| == |e|
  {
    if k <= |bs| then Installed(g, e, bs, k) else HeadWritten(g, Installed(g, e, bs, |bs|), [])
  }

  function CommitPoint(bs: seq<nat>): nat {
    |bs| + 1
  }

  function CommitLength(bs: seq<nat>): nat {
    if |bs| == 0 then 0 else 2 * |bs| + 2
  }

  // The disk after the i-th block write of commit().
  function CommitDisk(g: Geometry, d: Disk, dirty: map<nat, Block>, bs: seq<nat>, i: nat): (r: Disk)
    requires GeometryOk(g, |d|) && Copyable(g, |d|, bs) && i <= CommitLength(bs)
    ensures |r| == |d|
  {
    if i < CommitPoint(bs) then LogCopied(g, d, dirty, bs, i)
    else AfterHead(g, HeadWritten(g, LogCopied(g, d, dirty, bs, |bs|), bs), bs, i - CommitPoint(bs))
  }

  // The last disk of a commit that has something to write.
  lemma CommitEnd(g: Geometry, d: Disk, dirty: map<nat, Block>, bs: seq<nat>)
    requires GeometryOk(g, |d|) && Copyable(g, |d|, bs) && bs != []
    ensures var e := HeadWritten(g, LogCopied(g, d, dirty, bs, |bs|), bs);
      CommitDisk(g, d, dirty, bs, CommitLength(bs)) == HeadWritten(g, Installed(g, e, bs, |bs|), [])
  {
  }

  lemma CommitNothing(g: Geometry, d: Disk, dirty: map<nat, Block>, bs: seq<nat>)
    requires GeometryOk(g, |d|) && Copyable(g, |d|, bs) && bs == []
    ensures CommitDisk(g, d, dirty, bs, CommitLength(bs)) == d
  {
  }

  function RecoverLength(g: Geometry, d: Disk): nat
    requires HeaderOk(g, d)
  {
    |Logged(g, d)| + 1
  }

  // The disk after the i-th block write of recover_from_log().
  function RecoverDisk(g: Geometry, d: Disk, i: nat): (r: Disk)
    requires HeaderOk(g, d) && i <= RecoverLength(g, d)
    ensures |r| == |d|
  {
    AfterHead(g, d, Logged(g, d), i)
  }

  // ---- The same sequences as lists of disks, in the order they are written ------------

  function LogCopiedTrace(g: Geometry, d: Disk, dirty: map<nat, Block>, bs: seq<nat>, k: nat): seq<Disk>
    requires GeometryOk(g, |d|) && Copyable(g, |d|, bs) && k <= |bs|
  {
    if k == 0 then [] else LogCopiedTrace(g, d, dirty, bs, k - 1) + [LogCopied(g, d, dirty, bs, k)]
  }

  function InstalledTrace(g: Geometry, d: Disk, bs: seq<nat>, k: nat): seq<Disk>
    requires GeometryOk(g, |d|) && Copyable(g, |d|, bs) && k <= |bs|
  {
    if k == 0 then [] else InstalledTrace(g, d, bs, k - 1) + [Installed(g, d, bs, k)]
  }

  // write_log, write_head, install_trans, write_head.
  function CommitTrace(g: Geometry, d: Disk, dirty: map<nat, Block>, bs: seq<nat>): seq<Disk>
    requires GeometryOk(g, |d|) && Copyable(g, |d|, bs)
  {
    if bs == [] then []
    else
      var c := LogCopied(g, d, dirty, bs, |bs|);
      var e := HeadWritten(g, c, bs);
      var f := Installed(g, e, bs, |bs|);
      LogCopiedTrace(g, d, dirty, bs, |bs|) + [e] + InstalledTrace(g, e, bs, |bs|) + [HeadWritten(g, f, [])]
  }

  // install_trans, write_head.
  function RecoverTrace(g: Geometry, d: Disk): seq<Disk>
    requires HeaderOk(g, d)
  {
    var bs := Logged(g, d);
    InstalledTrace(g, d, bs, |bs|) + [HeadWritten(g, Installed(g, d, bs, |bs|), [])]
  }

  lemma CopyStarts(g: Geometry, d: Disk, dirty: map<nat, Block>, bs: seq<nat>)
    requires GeometryOk(g, |d|) && Copyable(g, |d|, bs)
    ensures LogCopied(g, d, dirty, bs, 0) == d && Unpinned(g, dirty, 0) == dirty
    ensures LogCopiedTrace(g, d, dirty, bs, 0) == []
  {
  }

  // One turn of write_log's loop.
  lemma CopyStep(g: Geometry, d: Disk, dirty: map<nat, Block>, bs: seq<nat>, k: nat)
    requires GeometryOk(g, |d|) && Copyable(g, |d|, bs) && k < |bs|
    ensures var c, p := LogCopied(g, d, dirty, bs, k), Unpinned(g, dirty, k);
      && LogCopied(g, d, dirty, bs, k + 1) == c[g.start + k + 1 := Bread(c, p, bs[k])]
      && Unpinned(g, dirty, k + 1) == p - {g.start + k + 1}
    ensures LogCopiedTrace(g, d, dirty, bs, k + 1)
      == LogCopiedTrace(g, d, dirty, bs, k) + [LogCopied(g, d, dirty, bs, k + 1)]
  {
  }

  lemma {:induction false} LogCopiedTraceAt(g: Geometry, d: Disk, dirty: map<nat, Block>, bs: seq<nat>, k: nat)
    requires GeometryOk(g, |d|) && Copyable(g, |d|, bs) && k <= |bs|
    ensures |LogCopiedTrace(g, d, dirty, bs, k)| == k
    ensures forall i | 0 <= i < k :: LogCopiedTrace(g, d, dirty, bs, k)[i] == LogCopied(g, d, dirty, bs, i + 1)
  {
    if k > 0 {
      LogCopiedTraceAt(g, d, dirty, bs, k - 1);
    }
  }

  lemma {:induction false} InstalledTraceAt(g: Geometry, d: Disk, bs: seq<nat>, k: nat)
    requires GeometryOk(g, |d|) && Copyable(g, |d|, bs) && k <= |bs|
    ensures |InstalledTrace(g, d, bs, k)| == k
    ensures forall i | 0 <= i < k :: InstalledTrace(g, d, bs, k)[i] == Installed(g, d, bs, i + 1)
  {
    if k > 0 {
      InstalledTraceAt(g, d, bs, k - 1);
    }
  }

  // The writes a commit or a recovery makes one after the other lead through the disks that a
  // crash can leave behind.
  lemma CommitTraceAt(g: Geometry, d: Disk, dirty: map<nat, Block>, bs: seq<nat>)
    requires GeometryOk(g, |d|) && Copyable(g, |d|, bs)
    ensures |CommitTrace(g, d, dirty, bs)| == CommitLength(bs)
    ensures forall i | 0 <= i < CommitLength(bs) ::
              CommitTrace(g, d, dirty, bs)[i] == CommitDisk(g, d, dirty, bs, i + 1)
  {
    hide LogCopied, HeadWritten, LogCopiedTrace, InstalledTrace;
    LogCopiedTraceAt(g, d, dirty, bs, |bs|);
    var e := HeadWritten(g, LogCopied(g, d, dirty, bs, |bs|), bs);
    InstalledTraceAt(g, e, bs, |bs|);
    var tr := CommitTrace(g, d, dirty, bs);
    forall i | 0 <= i < CommitLength(bs)
      ensures tr[i] == CommitDisk(g, d, dirty, bs, i + 1)
    {
      var k := i - |bs| - 1;
      assert i > |bs| && k < |bs| ==> tr[i] == InstalledTrace(g, e, bs, |bs|)[k];
    }
  }

  lemma RecoverTraceAt(g: Geometry, d: Disk)
    requires HeaderOk(g, d)
    ensures |RecoverTrace(g, d)| == RecoverLength(g, d)
    ensures forall i | 0 <= i < RecoverLength(g, d) :: RecoverTrace(g, d)[i] == RecoverDisk(g, d, i + 1)
  {
    InstalledTraceAt(g, d, Logged(g, d), |Logged(g, d)|);
  }

  // ---- Recovered contents ----------------------------------------------------------

  // Equal outside the log area.
  ghost predicate HomeEq(g: Geometry, d: Disk, e: Disk) {
    && |d| == |e|
    && forall a: nat | a < |d| && !InLog(g, a) :: d[a] == e[a]
  }

  // What an uninterrupted recovery makes of d.
  function Recovered(g: Geometry, d: Disk): Disk
    requires HeaderOk(g, d)
  {
    Installed(g, d, Logged(g, d), |Logged(g, d)|)
  }

  lemma {:induction false} LogCopiedAt(g: Geometry, d: Disk, dirty: map<nat, Block>, bs: seq<nat>, k: nat)
    requires GeometryOk(g, |d|) && Loggable(g, |d|, bs) && k <= |bs|
    ensures var r := LogCopied(g, d, dirty, bs, k);
      && HomeEq(g, r, d) && r[g.start] == d[g.start]
      && forall i | 0 <= i < k :: r[g.start + i + 1] == Bread(d, dirty, bs[i])
  {
    if k > 0 {
      LogCopiedAt(g, d, dirty, bs, k - 1);
    }
  }

  // r is d with the first k logged blocks in their home locations.
  ghost predicate InstalledOf(g: Geometry, d: Disk, bs: seq<nat>, k: nat, r: Disk)
    requires GeometryOk(g, |d|) && Loggable(g, |d|, bs) && k <= |bs| && |r| == |d|
  {
    && (forall i | 0 <= i < k :: r[bs[i]] == d[g.start + i + 1])
    && (forall a: nat | a < |d| && a !in bs[..k] :: r[a] == d[a])
    && (forall a: nat | a < |d| && InLog(g, a) :: r[a] == d[a])
  }

  // install_trans touches exactly the first k listed home blocks.
  lemma {:induction false} InstalledAt(g: Geometry, d: Disk, bs: seq<nat>, k: nat)
    requires GeometryOk(g, |d|) && Loggable(g, |d|, bs) && k <= |bs|
    ensures InstalledOf(g, d, bs, k, Installed(g, d, bs, k))
  {
    if k > 0 {
      InstalledAt(g, d, bs, k - 1);
      InstallStep(g, d, bs, k);
    }
  }

  lemma InstallStep(g: Geometry, d: Disk, bs: seq<nat>, k: nat)
    requires GeometryOk(g, |d|) && Loggable(g, |d|, bs) && 0 < k <= |bs|
    requires InstalledOf(g, d, bs, k - 1, Installed(g, d, bs, k - 1))
    ensures InstalledOf(g, d, bs, k, Installed(g, d, bs, k))
  {
    var e, r := Installed(g, d, bs, k - 1), Installed(g, d, bs, k);
    hide Installed;
    assert r == e[bs[k - 1] := e[g.start + k]];
    assert bs[..k] == bs[..k - 1] + [bs[k - 1]];
    assert InLog(g, g.start + k) && e[g.start + k] == d[g.start + k];
    forall i | 0 <= i < k
      ensures r[bs[i]] == d[g.start + i + 1]
    {
      assert i < k - 1 ==> bs[i] != bs[k - 1];
    }
  }

  lemma RecoveredAt(g: Geometry, d: Disk, bs: seq<nat>)
    requires HeaderOk(g, d) && Logged(g, d) == bs
    ensures |Recovered(g, d)| == |d|
    ensures forall i | 0 <= i < |bs| :: Recovered(g, d)[bs[i]] == d[g.start + i + 1]
    ensures forall a: nat | a < |d| && a !in bs :: Recovered(g, d)[a] == d[a]
  {
    InstalledAt(g, d, bs, |bs|);
    assert bs[..|bs|] == bs;
  }

  lemma InstalledKeepsLog(g: Geometry, d: Disk, k: nat)
    requires HeaderOk(g, d) && k <= |Logged(g, d)|
    ensures var e := Installed(g, d, Logged(g, d), k);
      HeaderOk(g, e) && Logged(g, e) == Logged(g, d)
  {
    InstalledAt(g, d, Logged(g, d), k);
  }

  // Recovery from d produces m if m holds the logged copy of every listed block and agrees
  // with d on every other home block.
  lemma RecoveredIs(g: Geometry, d: Disk, bs: seq<nat>, m: Disk)
    requires HeaderOk(g, d) && Logged(g, d) == bs && |m| == |d|
    requires forall i | 0 <= i < |bs| :: m[bs[i]] == d[g.start + i + 1]
    requires forall a: nat | a < |d| && !InLog(g, a) && a !in bs :: m[a] == d[a]
    ensures HomeEq(g, Recovered(g, d), m)
  {
    var r := Recovered(g, d);
    RecoveredAt(g, d, bs);
    forall a: nat | a < |d| && !InLog(g, a)
      ensures r[a] == m[a]
    {
      if a in bs {
        var i :| 0 <= i < |bs| && bs[i] == a;
      }
    }
  }

  lemma PartlyInstalled(g: Geometry, d: Disk, k: nat)
    requires HeaderOk(g, d) && k <= |Logged(g, d)|
    ensures var e := Installed(g, d, Logged(g, d), k);
      HeaderOk(g, e) && Logged(g, e) == Logged(g, d) && HomeEq(g, Recovered(g, e), Recovered(g, d))
  {
    var bs := Logged(g, d);
    var e := Installed(g, d, bs, k);
    InstalledKeepsLog(g, d, k);
    RecoveredAt(g, d, bs);
    InstalledAt(g, d, bs, k);
    RecoveredIs(g, e, bs, Recovered(g, d));
  }

  lemma ErasedHead(g: Geometry, d: Disk)
    requires GeometryOk(g, |d|)
    ensures var e := HeadWritten(g, d, []);
      HeaderOk(g, e) && Logged(g, e) == [] && Recovered(g, e) == e && HomeEq(g, e, d)
  {
    HeadRoundTrip(d[g.start], []);
  }

  // Whatever recovery would have produced from the disk e whose header lists bs, it still
  // produces after any number of the writes that follow.
  lemma AfterHeadWrite(g: Geometry, e: Disk, bs: seq<nat>, m: Disk, k: nat)
    requires HeaderOk(g, e) && Logged(g, e) == bs && HomeEq(g, Recovered(g, e), m)
    requires k <= |bs| + 1
    ensures var f := AfterHead(g, e, bs, k);
      && HeaderOk(g, f)
      && HomeEq(g, Recovered(g, f), m)
      && (k == |bs| + 1 ==> Logged(g, f) == [] && HomeEq(g, f, m))
  {
    if k <= |bs| {
      PartlyInstalled(g, e, k);
    } else {
      ErasedHead(g, Recovered(g, e));
    }
  }

  // Recovery is idempotent: cut short after any of its writes and started again,
  // it still produces what it would have produced from d.
  lemma RecoveryRestarts(g: Geometry, d: Disk, i: nat)
    requires HeaderOk(g, d) && i <= RecoverLength(g, d)
    ensures var e := RecoverDisk(g, d, i);
      && HeaderOk(g, e)
      && HomeEq(g, Recovered(g, e), Recovered(g, d))
      && (i == RecoverLength(g, d) ==> Logged(g, e) == [] && HomeEq(g, e, Recovered(g, d)))
  {
    AfterHeadWrite(g, d, Logged(g, d), Recovered(g, d), i);
  }

  // ---- The commit point -----------------------------------------------------------

  // The home blocks as seen through the cache.
  ghost predicate Shows(g: Geometry, d: Disk, dirty: map<nat, Block>, m: Disk) {
    && |m| == |d|
    && forall a: nat | a < |d| && !InLog(g, a) :: Bread(d, dirty, a) == m[a]
  }

  lemma CommittedHead(g: Geometry, c: Disk, bs: seq<nat>)
    requires GeometryOk(g, |c|) && Loggable(g, |c|, bs)
    ensures var e := HeadWritten(g, c, bs); HeaderOk(g, e) && Logged(g, e) == bs
  {
    HeadRoundTrip(c[g.start], bs);
  }

  // Once the header is written, recovery produces the cached contents of every block.
  lemma CommittedContents(g: Geometry, d: Disk, dirty: map<nat, Block>, bs: seq<nat>, m: Disk)
    requires GeometryOk(g, |d|) && Loggable(g, |d|, bs) && (forall b | b in dirty :: b in bs)
    requires Shows(g, d, dirty, m)
    ensures var e := HeadWritten(g, LogCopied(g, d, dirty, bs, |bs|), bs);
      HeaderOk(g, e) && Logged(g, e) == bs && HomeEq(g, Recovered(g, e), m)
  {
    var c := LogCopied(g, d, dirty, bs, |bs|);
    CommittedHead(g, c, bs);
    LogCopiedAt(g, d, dirty, bs, |bs|);
    RecoveredIs(g, HeadWritten(g, c, bs), bs, m);
  }

  // A crash before the header write loses the whole transaction ...
  lemma BeforeCommitPoint(g: Geometry, d: Disk, dirty: map<nat, Block>, bs: seq<nat>, i: nat)
    requires HeaderOk(g, d) && Logged(g, d) == []
    requires Loggable(g, |d|, bs) && i < CommitPoint(bs) && i <= CommitLength(bs)
    ensures var e := CommitDisk(g, d, dirty, bs, i);
      HeaderOk(g, e) && Logged(g, e) == [] && HomeEq(g, Recovered(g, e), d)
  {
    LogCopiedAt(g, d, dirty, bs, i);
  }

  // ... and from the header write on it loses none of it.
  lemma AfterCommitPoint(g: Geometry, d: Disk, dirty: map<nat, Block>, bs: seq<nat>, m: Disk, i: nat)
    requires GeometryOk(g, |d|) && Loggable(g, |d|, bs) && (forall b | b in dirty :: b in bs)
    requires Shows(g, d, dirty, m)
    requires CommitPoint(bs) <= i <= CommitLength(bs)
    ensures var e := CommitDisk(g, d, dirty, bs, i);
      && HeaderOk(g, e)
      && HomeEq(g, Recovered(g, e), m)
      && (i == CommitLength(bs) ==> Logged(g, e) == [] && HomeEq(g, e, m))
  {
    hide Recovered, HomeEq, LogCopied, HeadWritten, AfterHead, Shows;
    var e := HeadWritten(g, LogCopied(g, d, dirty, bs, |bs|), bs);
    CommittedContents(g, d, dirty, bs, m);
    AfterHeadWrite(g, e, bs, m, i - |bs| - 1);
  }

  ghost predicate OneWrite(d: Disk, e: Disk) {
    |e| == |d| && exists a: nat :: a < |d| && e == d[a := e[a]]
  }

  // Each step of either sequence is one block write, so the crash points considered are
  // exactly the points between two block writes.
  lemma CommitStepIsOneWrite(g: Geometry, d: Disk, dirty: map<nat, Block>, bs: seq<nat>, i: nat)
    requires GeometryOk(g, |d|) && Copyable(g, |d|, bs) && i < CommitLength(bs)
    ensures OneWrite(CommitDisk(g, d, dirty, bs, i), CommitDisk(g, d, dirty, bs, i + 1))
  {
    var r := CommitDisk(g, d, dirty, bs, i + 1);
    var a := if i < |bs| then g.start + i + 1
      else if i == |bs| || i == 2 * |bs| + 1 then g.start else bs[i - |bs| - 1];
    assert r == CommitDisk(g, d, dirty, bs, i)[a := r[a]];
  }

  lemma RecoverStepIsOneWrite(g: Geometry, d: Disk, i: nat)
    requires HeaderOk(g, d) && i < RecoverLength(g, d)
    ensures OneWrite(RecoverDisk(g, d, i), RecoverDisk(g, d, i + 1))
  {
    var bs := Logged(g, d);
    var r := RecoverDisk(g, d, i + 1);
    var a := if i < |bs| then bs[i] else g.start;
    assert r == RecoverDisk(g, d, i)[a := r[a]];
  }
}
