/**
 Blocks, files and directories of fs.c over the disk as seen through bread and log_write.
 A method that can stop the kernel says so in its result; nothing runs after a panic, so the
 contracts speak about the state only when there was none.
 */
module Fs {
  import opened Blocks
  import opened FsLayout

  function Min(a: nat, b: nat): nat {
    if a < b then a else b
  }

  // Device: the call is handed to the device table.
  datatype IoResult = Done(n: nat) | Refused | Panic | Device

  // Bit bi of the k-th block of the free map.
  lemma BitPlace(sb: Superblock, k: nat, bi: nat)
    requires bi < BPB
    ensures BBlock(sb, BPB * k + bi) == BBlock(sb, BPB * k) && (BPB * k + bi) % BPB == bi
  {
  }

  lemma OwnedBlocks(sb: Superblock, d: Disk, inodes: seq<Inode>, owner: Owner)
    requires Layout(sb, d, inodes, owner)
    ensures SbOk(sb, d) && forall i | 0 <= i < |inodes| :: |inodes[i].addrs| == NDIRECT + 1
  {
  }

  // Marking and zeroing a free block.
  lemma Claim(sb: Superblock, d: Disk, used: set<nat>, r: nat)
    requires SbOk(sb, d) && BitsAre(sb, d, used) && r < sb.size && !Used(sb, d, r)
    ensures sb.datastart <= r && r !in used
    ensures var e := PutUsed(sb, d, r, true)[r := ZERO];
      && SbOk(sb, e) && BitsAre(sb, e, used + {r}) && MetaKept(sb, d, e)
      && forall x: nat | sb.datastart <= x < sb.size && x != r :: e[x] == d[x]
  {
    BitsAfterPut(sb, d, used, r, true);
    PutKeepsMeta(sb, d, r, true);
    var marked := PutUsed(sb, d, r, true);
    BitsFrame(sb, marked, marked[r := ZERO], used + {r});
  }

  lemma SizeBound(sb: Superblock, d: Disk, inodes: seq<Inode>, owner: Owner, i: nat)
    requires FsOk(sb, d, inodes, owner) && i < |inodes|
    ensures inodes[i].size <= MAXFILE * BSIZE
  {
  }

  lemma NothingSet(sb: Superblock, d: Disk, inodes: seq<Inode>, owner: Owner)
    requires Layout(sb, d, inodes, owner)
    ensures SameFiles(d, inodes, owner, d, inodes, owner) && SameShape(inodes, owner, inodes, owner)
  {
  }

  lemma ShapeKept(d: Disk, inodes: seq<Inode>, owner: Owner, e: Disk, js: seq<Inode>, owner': Owner)
    requires SameFiles(d, inodes, owner, e, js, owner')
    ensures SameShape(inodes, owner, js, owner')
  {
  }

  lemma StillOwned(inodes: seq<Inode>, owner: Owner, js: seq<Inode>, owner': Owner, b: nat)
    requires SameShape(inodes, owner, js, owner')
    ensures b in owner ==> b in owner'
  {
  }

  // The word that bmap reads for file block bn.
  lemma PointerWord(sb: Superblock, d: Disk, inodes: seq<Inode>, owner: Owner, i: nat, bn: nat)
    requires Layout(sb, d, inodes, owner) && i < |inodes| && bn < MAXFILE
    ensures |inodes[i].addrs| == NDIRECT + 1 && SbOk(sb, d) && At(d, inodes[i], NDIRECT) == inodes[i].addrs[NDIRECT]
    ensures BlockNo(d, inodes[i], bn) == At(d, inodes[i], SlotOf(bn))
    ensures bn < NDIRECT ==> BlockNo(d, inodes[i], bn) == inodes[i].addrs[bn]
    ensures var ind := inodes[i].addrs[NDIRECT];
      bn >= NDIRECT ==> if ind == 0 then BlockNo(d, inodes[i], bn) == 0
                        else ind < |d| && BlockNo(d, inodes[i], bn) == GetWord(d[ind], bn - NDIRECT)
  {
    assert At(d, inodes[i], NDIRECT) == inodes[i].addrs[NDIRECT];
  }

  // A block that is not in use shows that there is room.
  lemma BallocFound(sb: Superblock, d: Disk, b: nat)
    requires SbOk(sb, d) && b < sb.size && !Used(sb, d, b)
    ensures !forall x: nat | x < sb.size :: Used(sb, d, x)
  {
  }

  class FileSystem {
    const sb: Superblock
    var disk: Disk
    var inodes: seq<Inode>
    ghost var owner: Owner

    ghost predicate Valid()
      reads this
    {
      FsOk(sb, disk, inodes, owner)
    }

    ghost predicate LayoutOk()
      reads this
    {
      Layout(sb, disk, inodes, owner) && BitsAre(sb, disk, owner.Keys)
    }

    ghost function Bytes(i: nat): (r: seq<byte>)
      reads this
      requires i < |inodes|
      ensures |r| == inodes[i].size
    {
      FileBytes(disk, inodes[i])
    }

    constructor (sb: Superblock, disk: Disk, inodes: seq<Inode>, ghost owner: Owner)
      requires FsOk(sb, disk, inodes, owner)
      ensures Valid()
      ensures this.sb == sb && this.disk == disk && this.inodes == inodes && this.owner == owner
    {
      this.sb, this.disk, this.inodes, this.owner := sb, disk, inodes, owner;
    }

    // ---- Blocks ------------------------------------------------------------------------

    // Zero the lowest free block and mark it in use; 0 stands for the panic "out of blocks".
    method Balloc(ghost used: set<nat>) returns (r: nat)
      requires SbOk(sb, disk) && BitsAre(sb, disk, used)
      modifies `disk
      ensures SbOk(sb, disk) && MetaKept(sb, old(disk), disk)
      ensures r <= sb.size && forall b: nat | b < (if r == 0 then sb.size else r) :: Used(sb, old(disk), b)
      ensures r == 0 ==> disk == old(disk)
      ensures r != 0 ==>
        && sb.datastart <= r < sb.size && r !in used
        && !Used(sb, old(disk), r) && BitsAre(sb, disk, used + {r})
        && disk[r] == ZERO
        && forall x: nat | sb.datastart <= x < sb.size && x != r :: disk[x] == old(disk[x])
    {
      hide BitsAre, BlockBit, PutBlockBit, MetaKept;
      MetaStays(sb, disk);
      var b := 0;
      ghost var k := 0;
      while b < sb.size
        invariant 0 <= k && b == BPB * k && disk == old(disk)
        invariant forall x: nat | x < b && x < sb.size :: Used(sb, disk, x)
      {
        var bi := 0;
        while bi < BPB && b + bi < sb.size
          invariant bi <= BPB && disk == old(disk)
          invariant forall x: nat | x < b + bi && x < sb.size :: Used(sb, disk, x)
        {
          BitPlace(sb, k, bi);
          if !BlockBit(disk[BBlock(sb, b)], bi) {
            r := b + bi;
            assert !Used(sb, disk, r);
            Claim(sb, disk, used, r);
            disk := disk[BBlock(sb, b) := PutBlockBit(disk[BBlock(sb, b)], bi, true)];
            disk := disk[r := ZERO];
            return;
          }
          bi := bi + 1;
        }
        b := b + BPB;
        k := k + 1;
      }
      r := 0;
    }

    // Clear the bit of b. A false `ok` is the panic "freeing free block".
    method Bfree(b: nat, ghost used: set<nat>) returns (ok: bool)
      requires SbOk(sb, disk) && BitsAre(sb, disk, used) && sb.datastart <= b < sb.size
      modifies `disk
      ensures SbOk(sb, disk) && MetaKept(sb, old(disk), disk)
      ensures ok == (b in used)
      ensures BitsAre(sb, disk, used - {b})
      ensures forall x: nat | sb.datastart <= x < |disk| :: disk[x] == old(disk[x])
    {
      var bi := b % BPB;
      if !BlockBit(disk[BBlock(sb, b)], bi) {
        assert used - {b} == used;
        return false;
      }
      PutKeepsMeta(sb, disk, b, false);
      BitsAfterPut(sb, disk, used, b, false);
      ghost var cleared := PutUsed(sb, disk, b, false);
      disk := disk[BBlock(sb, b) := PutBlockBit(disk[BBlock(sb, b)], bi, false)];
      assert disk == cleared;
      ok := true;
    }

    // ---- Inode content -------------------------------------------------------------------

    // ip->addrs[s] = balloc(), for a direct pointer or the pointer to the indirect block.
    method AllocateDirect(i: nat, s: nat) returns (addr: nat)
      requires LayoutOk() && i < |inodes| && s <= NDIRECT && inodes[i].addrs[s] == 0
      modifies `disk, `inodes, `owner
      ensures MetaKept(sb, old(disk), disk)
      ensures addr == 0 <==> old(Room(sb, owner)) == 0
      ensures addr == 0 ==> SbOk(sb, disk) && forall b: nat | b < sb.size :: Used(sb, disk, b)
      ensures addr != 0 ==>
        && LayoutOk() && i < |inodes|
        && At(disk, inodes[i], s) == addr && PointerSet(old(disk), old(inodes)[i], disk, inodes[i], s, addr)
        && disk[addr] == ZERO && addr !in old(owner) && Room(sb, owner) == old(Room(sb, owner)) - 1
        && SameFiles(old(disk), old(inodes), old(owner), disk, inodes, owner)
    {
      hide Layout, BitsAre, SameFiles, Used, PointerSet, At, MetaKept;
      OwnedBlocks(sb, disk, inodes, owner);
      FullIff(sb, disk, owner);
      addr := Balloc(owner.Keys);
      if addr == 0 {
        return;
      }
      BallocFound(sb, old(disk), addr);
      DirectAllocated(sb, old(disk), disk, inodes, owner, i, s, addr);
      inodes := inodes[i := inodes[i].(addrs := inodes[i].addrs[s := addr])];
      owner := owner[addr := (i, s)];
    }

    // a[s - NDIRECT - 1] = balloc(), in the indirect block.
    method AllocateEntry(i: nat, s: nat) returns (addr: nat)
      requires LayoutOk() && i < |inodes| && NDIRECT < s < SLOTS
      requires inodes[i].addrs[NDIRECT] != 0 && At(disk, inodes[i], s) == 0
      modifies `disk, `owner
      ensures MetaKept(sb, old(disk), disk)
      ensures addr == 0 <==> old(Room(sb, owner)) == 0
      ensures addr == 0 ==> SbOk(sb, disk) && forall b: nat | b < sb.size :: Used(sb, disk, b)
      ensures addr != 0 ==>
        && LayoutOk() && i < |inodes|
        && At(disk, inodes[i], s) == addr && PointerSet(old(disk), old(inodes)[i], disk, inodes[i], s, addr)
        && disk[addr] == ZERO && addr !in old(owner) && Room(sb, owner) == old(Room(sb, owner)) - 1
        && SameFiles(old(disk), old(inodes), old(owner), disk, inodes, owner)
    {
      hide Layout, BitsAre, SameFiles, Used, PointerSet, At, MetaKept;
      OwnedBlocks(sb, disk, inodes, owner);
      var ind := inodes[i].addrs[NDIRECT];
      FullIff(sb, disk, owner);
      addr := Balloc(owner.Keys);
      if addr == 0 {
        return;
      }
      BallocFound(sb, old(disk), addr);
      EntryAllocated(sb, old(disk), disk, inodes, owner, i, s, addr);
      DataKeepsMeta(sb, disk, ind, SetWord(disk[ind], s - NDIRECT - 1, addr));
      MetaTrans(sb, old(disk), disk, disk[ind := SetWord(disk[ind], s - NDIRECT - 1, addr)]);
      disk := disk[ind := SetWord(disk[ind], s - NDIRECT - 1, addr)];
      owner := owner[addr := (i, s)];
    }

    // The block of file block bn, allocated if there is none; 0 is a panic. No pointer that
    // was set changes, and no block that holds file data changes.
    method Bmap(i: nat, bn: nat) returns (addr: nat)
      requires LayoutOk() && i < |inodes| && bn < MAXFILE
      modifies `disk, `inodes, `owner
      ensures MetaKept(sb, old(disk), disk)
      ensures addr == 0 <==> Missing(old(disk), old(inodes)[i], bn) > old(Room(sb, owner))
      ensures addr == 0 ==> SbOk(sb, disk) && forall b: nat | b < sb.size :: Used(sb, disk, b)
      ensures addr == 0 ==> BlockNo(old(disk), old(inodes)[i], bn) == 0
      ensures addr != 0 ==>
        && LayoutOk() && i < |inodes|
        && Room(sb, owner) == old(Room(sb, owner)) - Missing(old(disk), old(inodes)[i], bn)
        && BlockNo(disk, inodes[i], bn) == addr && BlockSet(old(disk), old(inodes)[i], disk, inodes[i], bn, addr)
        && (BlockNo(old(disk), old(inodes)[i], bn) != 0 ==>
              disk == old(disk) && inodes == old(inodes) && owner == old(owner))
        && (BlockNo(old(disk), old(inodes)[i], bn) == 0 ==> disk[addr] == ZERO && addr !in old(owner))
        && SameFiles(old(disk), old(inodes), old(owner), disk, inodes, owner)
        && SameShape(old(inodes), old(owner), inodes, owner)
    {
      hide Layout, BitsAre, SameFiles, SameShape, Used, PointerSet, BlockSet, At, BlockNo, Room, MetaKept;
      MetaStays(sb, disk);
      PointerWord(sb, disk, inodes, owner, i, bn);
      NothingSet(sb, disk, inodes, owner);
      FullIff(sb, disk, owner);
      ghost var d0, ip0 := disk, inodes[i];
      if bn < NDIRECT {
        addr := inodes[i].addrs[bn];
        if addr == 0 {
          addr := AllocateDirect(i, bn);
          if addr == 0 {
            return;
          }
        }
        PointerWord(sb, disk, inodes, owner, i, bn);
        SetDirect(d0, ip0, disk, inodes[i], bn, addr);
        ShapeKept(d0, old(inodes), old(owner), disk, inodes, owner);
        return;
      }
      var bn' := bn - NDIRECT;
      addr := inodes[i].addrs[NDIRECT];
      if addr == 0 {
        addr := AllocateDirect(i, NDIRECT);
        if addr == 0 {
          return;
        }
        IndirectSet(d0, ip0, disk, inodes[i], bn, addr);
      }
      ghost var d1, ip1, js1, owner1, ind := disk, inodes[i], inodes, owner, addr;
      PointerWord(sb, disk, inodes, owner, i, bn);
      addr := GetWord(disk[addr], bn');
      if addr == 0 {
        addr := AllocateEntry(i, bn' + NDIRECT + 1);
        MetaTrans(sb, d0, d1, disk);
        if addr == 0 {
          return;
        }
        ShapeKept(d0, old(inodes), old(owner), d1, js1, owner1);
        StillOwned(old(inodes), old(owner), js1, owner1, addr);
        SameFilesTrans(d0, old(inodes), old(owner), d1, js1, owner1, disk, inodes, owner);
      }
      PointerWord(sb, disk, inodes, owner, i, bn);
      SetEntry(d0, ip0, d1, ip1, disk, inodes[i], bn, ind, addr);
      ShapeKept(d0, old(inodes), old(owner), disk, inodes, owner);
    }

    // Read n bytes at off. The state does not change: readi never allocates.
    method Readi(i: nat, off: nat, n: nat) returns (r: IoResult, dst: seq<byte>)
      requires Valid() && i < |inodes| && off < TWO32 && n < TWO32
      modifies `disk, `inodes, `owner
      ensures disk == old(disk) && inodes == old(inodes) && owner == old(owner)
      ensures r == Device <==> inodes[i].kind == T_DEV
      ensures r == Refused <==> inodes[i].kind != T_DEV && (off > inodes[i].size || off + n >= TWO32)
      ensures inodes[i].kind != T_DEV && off <= inodes[i].size && off + n < TWO32 ==>
        var m := Min(n, inodes[i].size - off);
        r == Done(m) && dst == Bytes(i)[off..off + m]
    {
      hide Layout, BitsAre, Mapped, SameFiles, ByteAt, BlockNo;
      dst := [];
      if inodes[i].kind == T_DEV {
        return Device, dst;
      }
      if off > inodes[i].size || (off + n) % TWO32 < off {
        return Refused, dst;
      }
      var n' := n;
      if off + n > inodes[i].size {
        n' := inodes[i].size - off;
      }
      var tot, o := 0, off;
      while tot < n'
        invariant tot <= n' && o == off + tot
        invariant disk == old(disk) && inodes == old(inodes) && owner == old(owner)
        invariant dst == Bytes(i)[off..o]
      {
        var m := Min(n' - tot, BSIZE - o % BSIZE);
        ReadChunk(sb, disk, inodes, owner, i, o, m);
        var addr := Bmap(i, o / BSIZE);
        dst := dst + disk[addr][o % BSIZE..o % BSIZE + m];
        tot, o := tot + m, o + m;
      }
      r := Done(n');
    }

    // writei's loop: put the bytes in place, block by block. A false `ok` is a panic in balloc, which
    // comes exactly when fewer blocks are free than the range lacks, the indirect block included.
    method WriteBlocks(i: nat, off: nat, src: seq<byte>) returns (ok: bool)
      requires Valid() && i < |inodes| && off + |src| <= MAXFILE * BSIZE
      modifies `disk, `inodes, `owner
      ensures ok <==> Need(old(disk), old(inodes)[i], off / BSIZE, EndBlock(off, |src|)) <= old(Room(sb, owner))
      ensures MetaKept(sb, old(disk), disk)
      ensures !ok ==> SbOk(sb, disk) && forall b: nat | b < sb.size :: Used(sb, disk, b)
      ensures ok ==>
        Room(sb, owner) == old(Room(sb, owner)) - Need(old(disk), old(inodes)[i], off / BSIZE, EndBlock(off, |src|))
      ensures ok ==>
        && LayoutOk() && SameShape(old(inodes), old(owner), inodes, owner)
        && Written(old(disk), old(inodes), old(owner), disk, inodes, owner, i, off, off + |src|, src)
    {
      hide Layout, BitsAre, Mapped, Written, SameFiles, SameShape, ByteAt, BlockNo, FileBytes, Patch, Used,
        Need, Missing, BlockSet, EndBlock, Room, MetaKept;
      var tot, o, n := 0, off, |src|;
      ghost var lo, hi := off / BSIZE, EndBlock(off, |src|);
      WrittenNothing(sb, disk, inodes, owner, i, off, src);
      MetaStays(sb, disk);
      while tot < n
        invariant tot <= n && o == off + tot
        invariant LayoutOk() && i < |inodes| && MetaKept(sb, old(disk), disk)
        invariant Written(old(disk), old(inodes), old(owner), disk, inodes, owner, i, off, o, src)
        invariant Need(disk, inodes[i], lo, hi) - Room(sb, owner)
                  == Need(old(disk), old(inodes)[i], lo, hi) - old(Room(sb, owner))
      {
        ghost var e, js, ow := disk, inodes, owner;
        InRange(off, o, n);
        NeedAtLeast(disk, inodes[i], lo, hi, o / BSIZE);
        var addr := Bmap(i, o / BSIZE);
        MetaTrans(sb, old(disk), e, disk);
        if addr == 0 {
          return false;
        }
        NeedStep(e, js[i], disk, inodes[i], lo, hi, o / BSIZE, addr);
        WrittenBmap(sb, old(disk), old(inodes), old(owner), e, js, ow, disk, inodes, owner, i, off, o, src);
        var m := Min(n - tot, BSIZE - o % BSIZE);
        WrittenChunk(sb, old(disk), old(inodes), old(owner), disk, inodes, owner, i, off, o, m, src);
        PatchNeed(sb, disk, inodes, owner, i, o / BSIZE, o % BSIZE, src[tot..tot + m], lo, hi);
        PointsToData(sb, disk, inodes, owner, i, o / BSIZE);
        DataKeepsMeta(sb, disk, addr, Patch(disk[addr], o % BSIZE, src[tot..tot + m]));
        MetaTrans(sb, old(disk), disk, disk[addr := Patch(disk[addr], o % BSIZE, src[tot..tot + m])]);
        disk := disk[addr := Patch(disk[addr], o % BSIZE, src[tot..tot + m])];
        tot, o := tot + m, o + m;
      }
      WrittenShape(old(disk), old(inodes), old(owner), disk, inodes, owner, i, off, o, src);
      WrittenNeed(sb, old(disk), old(inodes), old(owner), disk, inodes, owner, i, off, src);
      ok := true;
    }

    // Write src at off, overwriting or extending the file, and leave every other file alone.
    method Writei(i: nat, off: nat, src: seq<byte>) returns (r: IoResult)
      requires Valid() && i < |inodes| && off < TWO32 && |src| < TWO32
      modifies `disk, `inodes, `owner
      ensures r == Device <==> old(inodes)[i].kind == T_DEV
      ensures r == Refused <==>
        old(inodes)[i].kind != T_DEV && (off > old(inodes)[i].size || off + |src| > MAXFILE * BSIZE)
      ensures r == Device || r == Refused ==> disk == old(disk) && inodes == old(inodes) && owner == old(owner)
      ensures old(inodes)[i].kind != T_DEV && off <= old(inodes)[i].size && off + |src| <= MAXFILE * BSIZE ==>
        r == if Need(old(disk), old(inodes)[i], off / BSIZE, EndBlock(off, |src|)) <= old(Room(sb, owner))
             then Done(|src|) else Panic
      ensures r == Panic ==> SbOk(sb, disk) && forall b: nat | b < sb.size :: Used(sb, disk, b)
      ensures MetaKept(sb, old(disk), disk)
      ensures r.Done? ==>
        && Room(sb, owner) == old(Room(sb, owner)) - Need(old(disk), old(inodes)[i], off / BSIZE, EndBlock(off, |src|))
        && Valid() && |inodes| == |old(inodes)|
        && Bytes(i) == Overwrite(old(Bytes(i)), off, src)
        && (forall j | 0 <= j < |inodes| && j != i :: Bytes(j) == old(FileBytes(disk, inodes[j])))
        && (forall j | 0 <= j < |inodes| :: inodes[j].kind == old(inodes)[j].kind)
        && (forall b | b in old(owner) :: b in owner && owner[b] == old(owner)[b])
    {
      hide FsOk, Layout, BitsAre, Written, Used, Need, Room, EndBlock, FileBytes, Overwrite, MetaKept;
      MetaStays(sb, disk);
      SizeBound(sb, disk, inodes, owner, i);
      if inodes[i].kind == T_DEV {
        return Device;
      }
      if off > inodes[i].size || (off + |src|) % TWO32 < off {
        return Refused;
      }
      if off + |src| > MAXFILE * BSIZE {
        return Refused;
      }
      var ok := WriteBlocks(i, off, src);
      if !ok {
        return Panic;
      }
      var n, o := |src|, off + |src|;
      ghost var size := if o > inodes[i].size then o else inodes[i].size;
      WrittenAll(sb, old(disk), old(inodes), old(owner), disk, inodes, owner, i, off, src, size);
      assert inodes[i := inodes[i].(size := inodes[i].size)] == inodes;
      if n > 0 && o > inodes[i].size {
        inodes := inodes[i := inodes[i].(size := o)];
      }
      r := Done(n);
    }
  
    // One round of itrunc's first loop.
    method FreeOne(i: nat, s: nat)
      requires LayoutOk() && i < |inodes| && s < NDIRECT
      modifies `disk, `inodes, `owner
      ensures LayoutOk() && MetaKept(sb, old(disk), disk)
      ensures |old(inodes)[i].addrs| == NDIRECT + 1
      ensures inodes == old(inodes)[i := WithoutDirect(old(inodes)[i], s)]
      ensures var b := old(inodes)[i].addrs[s];
        owner == old(owner) - if b == 0 then {} else {b}
      ensures forall x: nat | sb.datastart <= x < |disk| :: disk[x] == old(disk[x])
    {
      var b := inodes[i].addrs[s];
      if b != 0 {
        assert At(disk, inodes[i], s) == b;
        var ok := Bfree(b, owner.Keys);
        assert ok;
        LayoutFrame(sb, old(disk), disk, inodes, owner);
        CutDirect(sb, disk, inodes, owner, i, s);
        inodes := inodes[i := WithoutDirect(inodes[i], s)];
        owner := owner - {b};
        assert owner.Keys == old(owner).Keys - {b};
      } else {
        assert inodes[i].addrs[s := 0] == inodes[i].addrs;
        assert owner - {} == owner;
      }
    }

    // itrunc's first loop: free the direct blocks.
    method FreeDirect(i: nat)
      requires LayoutOk() && i < |inodes|
      modifies `disk, `inodes, `owner
      ensures LayoutOk() && MetaKept(sb, old(disk), disk)
      ensures inodes == old(inodes)[i := WithoutDirects(old(inodes)[i], NDIRECT)]
      ensures owner == old(owner) - BlocksBetween(old(owner), i, 0, NDIRECT)
      ensures forall x: nat | sb.datastart <= x < |disk| :: disk[x] == old(disk[x])
    {
      var s := 0;
      assert owner - BlocksBetween(owner, i, 0, 0) == owner;
      hide Layout, BitsAre, BlocksBetween, WithoutDirect;
      while s < NDIRECT
        invariant s <= NDIRECT && LayoutOk() && MetaKept(sb, old(disk), disk)
        invariant inodes == old(inodes)[i := WithoutDirects(old(inodes)[i], s)]
        invariant owner == old(owner) - BlocksBetween(old(owner), i, 0, s)
        invariant forall x: nat | sb.datastart <= x < |disk| :: disk[x] == old(disk[x])
      {
        OwnerStep(sb, old(disk), old(inodes), old(owner), i, s);
        FreeOne(i, s);
        s := s + 1;
      }
    }

    // itrunc's second half: free every block the indirect block names, then the block itself.
    method FreeIndirect(i: nat)
      requires LayoutOk() && i < |inodes|
      modifies `disk, `inodes, `owner
      ensures LayoutOk() && MetaKept(sb, old(disk), disk) && |old(inodes)[i].addrs| == NDIRECT + 1
      ensures inodes == old(inodes)[i := WithoutDirect(old(inodes)[i], NDIRECT)]
      ensures owner == old(owner) - BlocksBetween(old(owner), i, NDIRECT, SLOTS)
      ensures forall x: nat | sb.datastart <= x < |disk| :: disk[x] == old(disk[x])
    {
      hide Layout, BitsAre, At, BlocksBetween;
      IndirectHoldings(sb, disk, inodes, owner, i);
      CutIndirect(sb, disk, inodes, owner, i);
      ghost var d0, kept := disk, owner - BlocksBetween(owner, i, NDIRECT, SLOTS);
      ghost var js := inodes[i := WithoutDirect(inodes[i], NDIRECT)];
      var ind := inodes[i].addrs[NDIRECT];
      if ind != 0 {
        var a := disk[ind];
        FreeEntries(i, a);
        var ok := Bfree(ind, owner.Keys - BlocksBetween(owner, i, NDIRECT + 1, SLOTS));
        assert ok;
        inodes := inodes[i := WithoutDirect(inodes[i], NDIRECT)];
      } else {
        assert inodes[i].addrs[NDIRECT := 0] == inodes[i].addrs;
        assert inodes == js;
      }
      owner := kept;
      LayoutFrame(sb, d0, disk, js, kept);
    }

    // The loop over the indirect block's entries: every block named there is freed exactly once.
    method FreeEntries(i: nat, a: Block)
      requires LayoutOk() && i < |inodes|
      requires |inodes[i].addrs| == NDIRECT + 1 && 0 < inodes[i].addrs[NDIRECT] < |disk|
      requires a == disk[inodes[i].addrs[NDIRECT]]
      modifies `disk
      ensures SbOk(sb, disk) && MetaKept(sb, old(disk), disk)
      ensures BitsAre(sb, disk, owner.Keys - BlocksBetween(owner, i, NDIRECT + 1, SLOTS))
      ensures forall x: nat | sb.datastart <= x < |disk| :: disk[x] == old(disk[x])
    {
      var j := 0;
      assert owner.Keys - BlocksBetween(owner, i, NDIRECT + 1, NDIRECT + 1) == owner.Keys;
      ghost var d0 := disk;
      assert SbOk(sb, disk) && Layout(sb, d0, inodes, owner);
      hide Layout, BitsAre, BlocksBetween, MetaKept;
      MetaStays(sb, disk);
      while j < NINDIRECT
        invariant j <= NINDIRECT && SbOk(sb, disk) && MetaKept(sb, d0, disk)
        invariant BitsAre(sb, disk, owner.Keys - BlocksBetween(owner, i, NDIRECT + 1, NDIRECT + 1 + j))
        invariant forall x: nat | sb.datastart <= x < |disk| :: disk[x] == d0[x]
      {
        EntryStep(sb, d0, inodes, owner, i, j);
        ghost var used := owner.Keys - BlocksBetween(owner, i, NDIRECT + 1, NDIRECT + 1 + j);
        assert used - {} == used;
        var b := GetWord(a, j);
        if b != 0 {
          ghost var before := disk;
          var ok := Bfree(b, used);
          assert ok;
          MetaTrans(sb, d0, before, disk);
        }
        j := j + 1;
      }
    }

    // Discard the contents of file i: exactly its blocks become free, no other file changes,
    // and bfree never panics.
    method Itrunc(i: nat)
      requires Valid() && i < |inodes|
      modifies `disk, `inodes, `owner
      ensures Valid() && |inodes| == |old(inodes)| && MetaKept(sb, old(disk), disk)
      ensures inodes == old(inodes)[i := Inode(old(inodes)[i].kind, 0, seq(NDIRECT + 1, _ => 0))]
      ensures forall b :: b in owner <==> b in old(owner) && old(owner)[b].0 != i
      ensures forall b | b in owner :: owner[b] == old(owner)[b]
      ensures forall j | 0 <= j < |inodes| && j != i :: Bytes(j) == old(FileBytes(disk, inodes[j]))
    {
      assert forall b | b in owner :: owner[b].1 < SLOTS;
      assert |inodes[i].addrs| == NDIRECT + 1 && SbOk(sb, disk);
      hide Layout, BitsAre, Mapped, FileBytes;
      FreeDirect(i);
      FreeIndirect(i);
      BetweenSplit(old(owner), i, 0, NDIRECT, SLOTS);
      Truncated(sb, old(disk), old(inodes), old(owner), disk, inodes, owner, i);
      assert inodes[i].addrs == seq(NDIRECT + 1, _ => 0);
      inodes := inodes[i := inodes[i].(size := 0)];
    }
  }
}
