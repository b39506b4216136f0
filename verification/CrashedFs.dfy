/**
 The file system of fs.c on the log of log.c: after a crash and recovery the disk is a file system
 in order again, because recovery goes back to a moment when no operation was in progress.
 */
module CrashedFs {
  import opened Blocks
  import opened FsLayout
  import LogDisk
  import LogProtocol

  // The inode table as it is stored: a function of the disk outside the log.
  ghost predicate StoredAtHome(g: LogDisk.Geometry, table: Disk -> seq<Inode>) {
    forall d, e | LogDisk.HomeEq(g, d, e) :: table(d) == table(e)
  }

  ghost predicate InOrder(sb: Superblock, table: Disk -> seq<Inode>, d: Disk) {
    exists owner :: FsOk(sb, d, table(d), owner)
  }

  // The log lies before the free map and the data, so the file system is a matter of the other blocks.
  lemma HomeOrder(g: LogDisk.Geometry, sb: Superblock, table: Disk -> seq<Inode>, d: Disk, e: Disk)
    requires StoredAtHome(g, table) && g.start + g.size <= sb.bmapstart
    requires LogDisk.HomeEq(g, d, e) && InOrder(sb, table, d)
    ensures InOrder(sb, table, e)
  {
    var owner :| FsOk(sb, d, table(d), owner);
    SameOrder(g, sb, d, e, table(d), owner);
  }

  lemma SameOrder(g: LogDisk.Geometry, sb: Superblock, d: Disk, e: Disk, inodes: seq<Inode>, owner: Owner)
    requires g.start + g.size <= sb.bmapstart && LogDisk.HomeEq(g, d, e) && FsOk(sb, d, inodes, owner)
    ensures FsOk(sb, e, inodes, owner)
  {
    LayoutFrame(sb, d, e, inodes, owner);
    forall b: nat | b < sb.size
      ensures Used(sb, e, b) == Used(sb, d, b)
    {
      assert !LogDisk.InLog(g, BBlock(sb, b));
    }
    forall i | 0 <= i < |inodes|
      ensures Mapped(e, inodes[i])
    {
      SameMapped(sb, d, e, inodes, owner, i);
    }
  }

  lemma SameMapped(sb: Superblock, d: Disk, e: Disk, inodes: seq<Inode>, owner: Owner, i: nat)
    requires FsOk(sb, d, inodes, owner) && i < |inodes|
    requires forall s | 0 <= s < SLOTS :: At(e, inodes[i], s) == At(d, inodes[i], s)
    ensures Mapped(e, inodes[i])
  {
    assert Mapped(d, inodes[i]);
    forall bn: nat | bn * BSIZE < inodes[i].size
      ensures BlockNo(e, inodes[i], bn) != 0
    {
      assert BlockNo(d, inodes[i], bn) != 0 && SlotOf(bn) < SLOTS;
    }
  }

  // If the file system that bread shows is in order whenever no operation is in progress, which is
  // what the operations of fs.c see to, then recovering from any state of any run, with crashes
  // anywhere, yields a file system in order.
  lemma RecoveredInOrder(g: LogDisk.Geometry, sb: Superblock, table: Disk -> seq<Inode>, image: Disk,
                         s: LogProtocol.State, steps: seq<LogProtocol.Step>, t: LogProtocol.State)
    requires LogProtocol.Fits(g) && LogProtocol.Initial(g, image, s) && LogProtocol.Reaches(g, s, steps, t)
    requires StoredAtHome(g, table) && g.start + g.size <= sb.bmapstart
    requires forall k: nat, u | k <= |steps| && LogProtocol.Reaches(g, s, steps[..k], u) && u.outstanding == 0 ::
               InOrder(sb, table, LogProtocol.Replay(LogDisk.Recovered(g, image), u.done))
    ensures LogDisk.HeaderOk(g, t.disk) && InOrder(sb, table, LogDisk.Recovered(g, t.disk))
  {
    hide InOrder, StoredAtHome, LogProtocol.Reaches, LogDisk.HomeEq;
    var base := LogDisk.Recovered(g, image);
    var k, u := LogProtocol.DurableIsQuiet(g, image, s, steps, t);
    LogProtocol.CrashAtomicity(g, image, s, steps, t);
    var m := LogProtocol.Replay(base, u.done);
    HomeSymmetric(g, LogDisk.Recovered(g, t.disk), m);
    HomeOrder(g, sb, table, m, LogDisk.Recovered(g, t.disk));
  }

  lemma HomeSymmetric(g: LogDisk.Geometry, d: Disk, e: Disk)
    requires LogDisk.HomeEq(g, d, e)
    ensures LogDisk.HomeEq(g, e, d)
  {
  }
}
