/**
 The on-disk shape of files: inodes whose direct and indirect pointers name data blocks, and
 a free map with one bit per block. Everything here is a function of the disk and of the
 inode table; Fs.FileSystem updates those two in place.
 */
module FsLayout {
  import opened Blocks
  import Counting

  const NDIRECT := 12
  const NINDIRECT := 128
  const MAXFILE := 140
  const BPB := 4096

  // Pointers of an inode: 0..11 direct, 12 the indirect block, 13..140 the indirect entries.
  const SLOTS := 141

  const T_DIR := 1
  const T_FILE := 2
  const T_DEV := 3

  // datastart is the first block that may belong to a file; boot block, superblock, log,
  // inodes and free map lie before it.
  datatype Superblock = Superblock(size: nat, bmapstart: nat, datastart: nat)

  datatype Inode = Inode(kind: int, size: nat, addrs: seq<nat>)

  type Disk = seq<Block>
  type Owner = map<nat, (nat, nat)>

  predicate SbOk(sb: Superblock, d: Disk) {
    && |d| == sb.size && sb.size <= TWO32
    && 0 < sb.size
    && sb.bmapstart + (sb.size - 1) / BPB < sb.datastart <= sb.size
  }

  // ---- The free map ------------------------------------------------------------------

  function BBlock(sb: Superblock, b: nat): nat {
    b / BPB + sb.bmapstart
  }

  predicate Used(sb: Superblock, d: Disk, b: nat)
    requires SbOk(sb, d) && b < sb.size
  {
    BlockBit(d[BBlock(sb, b)], b % BPB)
  }

  function PutUsed(sb: Superblock, d: Disk, b: nat, v: bool): (r: Disk)
    requires SbOk(sb, d) && b < sb.size
    ensures SbOk(sb, r)
    ensures forall x | 0 <= x < |d| && x >= sb.datastart :: r[x] == d[x]
  {
    d[BBlock(sb, b) := PutBlockBit(d[BBlock(sb, b)], b % BPB, v)]
  }

  lemma PutUsedAt(sb: Superblock, d: Disk, b: nat, v: bool, x: nat)
    requires SbOk(sb, d) && b < sb.size && x < sb.size
    ensures Used(sb, PutUsed(sb, d, b, v), x) == if x == b then v else Used(sb, d, x)
  {
    if x / BPB == b / BPB {
      GetPutBlockBit(d[BBlock(sb, b)], b % BPB, v);
    }
  }

  // The free map marks exactly the metadata and the blocks in `used`.
  ghost predicate BitsAre(sb: Superblock, d: Disk, used: set<nat>)
    requires SbOk(sb, d)
  {
    && (forall b | b in used :: sb.datastart <= b < sb.size)
    && forall b: nat | b < sb.size :: Used(sb, d, b) <==> (b < sb.datastart || b in used)
  }

  lemma BitsAfterPut(sb: Superblock, d: Disk, used: set<nat>, b: nat, v: bool)
    requires SbOk(sb, d) && BitsAre(sb, d, used) && sb.datastart <= b < sb.size
    ensures BitsAre(sb, PutUsed(sb, d, b, v), if v then used + {b} else used - {b})
  {
    forall x: nat | x < sb.size
      ensures Used(sb, PutUsed(sb, d, b, v), x) == if x == b then v else Used(sb, d, x)
    {
      PutUsedAt(sb, d, b, v, x);
    }
  }

  // The free map is a function of the blocks before datastart.
  lemma BitsFrame(sb: Superblock, d: Disk, e: Disk, used: set<nat>)
    requires SbOk(sb, d) && SbOk(sb, e) && BitsAre(sb, d, used)
    requires forall x: nat | x < sb.datastart :: e[x] == d[x]
    ensures BitsAre(sb, e, used)
  {
    forall b: nat | b < sb.size
      ensures Used(sb, e, b) == Used(sb, d, b)
    {
      assert BBlock(sb, b) < sb.datastart;
    }
  }

  // What lies before the data, apart from the free map: boot block, superblock, log and inodes.
  ghost predicate MetaKept(sb: Superblock, d: Disk, e: Disk) {
    |e| == |d| && forall x: nat | x < sb.datastart && x < |d| && !InBitmap(sb, x) :: e[x] == d[x]
  }

  predicate InBitmap(sb: Superblock, x: nat) {
    sb.bmapstart <= x && x - sb.bmapstart <= (sb.size - 1) / BPB
  }

  lemma PutKeepsMeta(sb: Superblock, d: Disk, b: nat, v: bool)
    requires SbOk(sb, d) && b < sb.size
    ensures MetaKept(sb, d, PutUsed(sb, d, b, v))
  {
    assert InBitmap(sb, BBlock(sb, b));
  }

  lemma DataKeepsMeta(sb: Superblock, d: Disk, b: nat, data: Block)
    requires sb.datastart <= b < |d|
    ensures MetaKept(sb, d, d[b := data])
  {
  }

  lemma MetaStays(sb: Superblock, d: Disk)
    ensures MetaKept(sb, d, d)
  {
  }

  lemma MetaTrans(sb: Superblock, d: Disk, e: Disk, f: Disk)
    requires MetaKept(sb, d, e) && MetaKept(sb, e, f)
    ensures MetaKept(sb, d, f)
  {
  }

  // A block that a pointer names lies in the data.
  lemma PointsToData(sb: Superblock, d: Disk, inodes: seq<Inode>, owner: Owner, i: nat, bn: nat)
    requires Layout(sb, d, inodes, owner) && i < |inodes| && bn < MAXFILE && BlockNo(d, inodes[i], bn) != 0
    ensures sb.datastart <= BlockNo(d, inodes[i], bn) < |d|
  {
    assert At(d, inodes[i], SlotOf(bn)) in owner;
  }

  // ---- Pointers ------------------------------------------------------------------------

  // The block number in pointer s of ip, or 0.
  function At(d: Disk, ip: Inode, s: nat): nat {
    if |ip.addrs| <= NDIRECT || s >= SLOTS then 0
    else if s <= NDIRECT then ip.addrs[s]
    else if ip.addrs[NDIRECT] == 0 || ip.addrs[NDIRECT] >= |d| then 0
    else GetWord(d[ip.addrs[NDIRECT]], s - NDIRECT - 1)
  }

  // The pointer that bmap follows for file block bn.
  function SlotOf(bn: nat): nat {
    if bn < NDIRECT then bn else bn + 1
  }

  function BlockNo(d: Disk, ip: Inode, bn: nat): nat {
    At(d, ip, SlotOf(bn))
  }

  // Every block in use has exactly one owner: `owner` maps it to the inode and the pointer
  // that names it, and no other pointer names it.
  ghost predicate Layout(sb: Superblock, d: Disk, inodes: seq<Inode>, owner: Owner) {
    && SbOk(sb, d)
    && (forall i | 0 <= i < |inodes| ::
          && |inodes[i].addrs| == NDIRECT + 1
          && inodes[i].size <= MAXFILE * BSIZE)
    && (forall i, s | 0 <= i < |inodes| && 0 <= s < SLOTS && At(d, inodes[i], s) != 0 ::
          At(d, inodes[i], s) in owner && owner[At(d, inodes[i], s)] == (i, s))
    && (forall b | b in owner ::
          && sb.datastart <= b < sb.size && b != 0
          && owner[b].0 < |inodes| && owner[b].1 < SLOTS
          && At(d, inodes[owner[b].0], owner[b].1) == b)
  }

  // Every block below the end of the file is there.
  ghost predicate Mapped(d: Disk, ip: Inode) {
    forall bn: nat | bn * BSIZE < ip.size :: BlockNo(d, ip, bn) != 0
  }

  ghost predicate FsOk(sb: Superblock, d: Disk, inodes: seq<Inode>, owner: Owner) {
    && Layout(sb, d, inodes, owner)
    && BitsAre(sb, d, owner.Keys)
    && forall i | 0 <= i < |inodes| :: Mapped(d, inodes[i])
  }

  // Byte k of a file, wherever it is stored.
  function ByteAt(d: Disk, ip: Inode, k: nat): byte {
    var b := BlockNo(d, ip, k / BSIZE);
    if b < |d| then d[b][k % BSIZE] else 0
  }

  function FileBytes(d: Disk, ip: Inode): (r: seq<byte>)
    ensures |r| == ip.size
    ensures forall k | 0 <= k < ip.size :: r[k] == ByteAt(d, ip, k)
  {
    seq(ip.size, k requires 0 <= k < ip.size => ByteAt(d, ip, k))
  }

  // ---- What the invariant means ------------------------------------------------------------

  // A data block is marked in the free map iff exactly one pointer of one inode names it.
  lemma UsedIffOwnedOnce(sb: Superblock, d: Disk, inodes: seq<Inode>, owner: Owner, b: nat)
    requires FsOk(sb, d, inodes, owner) && sb.datastart <= b < sb.size && b != 0
    ensures Used(sb, d, b) <==> exists i, s :: 0 <= i < |inodes| && 0 <= s < SLOTS && At(d, inodes[i], s) == b
    ensures forall i, s, j, t |
      0 <= i < |inodes| && 0 <= s < SLOTS && 0 <= j < |inodes| && 0 <= t < SLOTS
      && At(d, inodes[i], s) == b && At(d, inodes[j], t) == b :: i == j && s == t
  {
    if b in owner {
      assert At(d, inodes[owner[b].0], owner[b].1) == b;
    }
  }

  // ---- Room --------------------------------------------------------------------------------

  // How many data blocks no file has.
  function Room(sb: Superblock, owner: Owner): int {
    sb.size - sb.datastart - |owner|
  }

  // There is no room left exactly when the free map is full.
  lemma FullIff(sb: Superblock, d: Disk, owner: Owner)
    requires SbOk(sb, d) && BitsAre(sb, d, owner.Keys)
    ensures Room(sb, owner) >= 0
    ensures Room(sb, owner) == 0 <==> forall b: nat | b < sb.size :: Used(sb, d, b)
  {
    hide Used;
    var all := DataBlocks(sb.datastart, sb.size);
    Counting.SubsetCount(owner.Keys, all);
    if |owner| == |all| {
      Counting.SameCount(owner.Keys, all);
    } else if forall b: nat | b < sb.size :: Used(sb, d, b) {
      Counting.SubsetCount(all, owner.Keys);
      assert false;
    }
  }

  function DataBlocks(lo: nat, hi: nat): (r: set<nat>)
    ensures |r| == if lo < hi then hi - lo else 0
    ensures forall b :: b in r <==> lo <= b < hi
  {
    if hi <= lo then {} else DataBlocks(lo, hi - 1) + {hi - 1}
  }

  // The blocks bmap has to find for file block bn: itself, and perhaps the indirect block.
  function Missing(d: Disk, ip: Inode, bn: nat): nat {
    (if BlockNo(d, ip, bn) == 0 then 1 else 0) + (if bn >= NDIRECT && At(d, ip, NDIRECT) == 0 then 1 else 0)
  }

  function Unmapped(d: Disk, ip: Inode, lo: nat, hi: nat): nat {
    if hi <= lo then 0 else Unmapped(d, ip, lo, hi - 1) + if BlockNo(d, ip, hi - 1) == 0 then 1 else 0
  }

  // All the blocks that file blocks lo to hi want, counting the indirect block once.
  function Need(d: Disk, ip: Inode, lo: nat, hi: nat): nat {
    Unmapped(d, ip, lo, hi) + if lo < hi && hi > NDIRECT && At(d, ip, NDIRECT) == 0 then 1 else 0
  }

  lemma {:induction false} UnmappedStep(d: Disk, ip: Inode, e: Disk, jp: Inode, lo: nat, hi: nat, bn: nat)
    requires forall c: nat | c < hi && c != bn :: BlockNo(e, jp, c) == BlockNo(d, ip, c)
    ensures lo <= bn < hi && BlockNo(d, ip, bn) == 0 && BlockNo(e, jp, bn) != 0 ==>
              Unmapped(d, ip, lo, hi) == Unmapped(e, jp, lo, hi) + 1
    ensures !(lo <= bn < hi) || (BlockNo(d, ip, bn) == 0 <==> BlockNo(e, jp, bn) == 0) ==>
              Unmapped(d, ip, lo, hi) == Unmapped(e, jp, lo, hi)
  {
    hide BlockNo;
    if lo < hi {
      UnmappedStep(d, ip, e, jp, lo, hi - 1, bn);
    }
  }

  // Pointer s of the inode now names addr and the others are as they were.
  predicate PointerSet(d: Disk, ip: Inode, e: Disk, jp: Inode, s: nat, addr: nat) {
    forall t: nat | t < SLOTS :: At(e, jp, t) == if t == s then addr else At(d, ip, t)
  }

  // What bmap of block bn does to the pointers: it may set its own and the indirect one.
  predicate BlockSet(d: Disk, ip: Inode, e: Disk, jp: Inode, bn: nat, addr: nat) {
    && addr != 0 && BlockNo(e, jp, bn) == addr
    && (forall t: nat | t < SLOTS && t != SlotOf(bn) && t != NDIRECT :: At(e, jp, t) == At(d, ip, t))
    && if bn >= NDIRECT && At(d, ip, NDIRECT) == 0 then At(e, jp, NDIRECT) != 0 && BlockNo(d, ip, bn) == 0
       else At(e, jp, NDIRECT) == At(d, ip, NDIRECT)
  }

  lemma SetDirect(d: Disk, ip: Inode, e: Disk, jp: Inode, bn: nat, addr: nat)
    requires bn < NDIRECT && addr != 0
    requires PointerSet(d, ip, e, jp, bn, addr) || (e == d && jp == ip && At(d, ip, bn) == addr)
    ensures BlockSet(d, ip, e, jp, bn, addr)
  {
  }

  // A new indirect block is empty.
  lemma IndirectSet(d: Disk, ip: Inode, e: Disk, jp: Inode, bn: nat, ind: nat)
    requires NDIRECT <= bn < MAXFILE && PointerSet(d, ip, e, jp, NDIRECT, ind)
    ensures BlockNo(e, jp, bn) == BlockNo(d, ip, bn)
  {
  }

  lemma SetEntry(d: Disk, ip: Inode, e: Disk, jp: Inode, f: Disk, kp: Inode, bn: nat, ind: nat, addr: nat)
    requires NDIRECT <= bn < MAXFILE && addr != 0 && ind != 0 && |ip.addrs| == NDIRECT + 1
    requires (e == d && jp == ip && At(d, ip, NDIRECT) == ind)
             || (PointerSet(d, ip, e, jp, NDIRECT, ind) && At(d, ip, NDIRECT) == 0)
    requires PointerSet(e, jp, f, kp, SlotOf(bn), addr) || (f == e && kp == jp && BlockNo(e, jp, bn) == addr)
    ensures BlockSet(d, ip, f, kp, bn, addr)
  {
    assert BlockNo(e, jp, bn) == BlockNo(d, ip, bn);
  }

  // It lessens the need by what it found.
  lemma NeedStep(d: Disk, ip: Inode, e: Disk, jp: Inode, lo: nat, hi: nat, bn: nat, addr: nat)
    requires lo <= bn < hi <= MAXFILE && BlockSet(d, ip, e, jp, bn, addr)
    ensures Need(d, ip, lo, hi) == Need(e, jp, lo, hi) + Missing(d, ip, bn)
  {
    hide At;
    UnmappedStep(d, ip, e, jp, lo, hi, bn);
  }

  lemma {:induction false} UnmappedAtLeast(d: Disk, ip: Inode, lo: nat, hi: nat, bn: nat)
    requires lo <= bn < hi
    ensures BlockNo(d, ip, bn) == 0 ==> Unmapped(d, ip, lo, hi) >= 1
  {
    if bn < hi - 1 {
      UnmappedAtLeast(d, ip, lo, hi - 1, bn);
    }
  }

  lemma NeedAtLeast(d: Disk, ip: Inode, lo: nat, hi: nat, bn: nat)
    requires lo <= bn < hi
    ensures Missing(d, ip, bn) <= Need(d, ip, lo, hi)
  {
    UnmappedAtLeast(d, ip, lo, hi, bn);
  }

  // Bytes written into a block change no pointer, so the need is the same.
  lemma PatchNeed(sb: Superblock, d: Disk, inodes: seq<Inode>, owner: Owner,
                  i: nat, bn: nat, from: nat, chunk: seq<byte>, lo: nat, hi: nat)
    requires Layout(sb, d, inodes, owner) && BitsAre(sb, d, owner.Keys)
    requires i < |inodes| && bn < MAXFILE && BlockNo(d, inodes[i], bn) != 0 && hi <= MAXFILE
    requires from + |chunk| <= BSIZE
    ensures var b := BlockNo(d, inodes[i], bn);
      b < |d| && Need(d[b := Patch(d[b], from, chunk)], inodes[i], lo, hi) == Need(d, inodes[i], lo, hi)
  {
    hide Layout, BitsAre, At, Patch;
    PatchStructure(sb, d, inodes, owner, i, bn, from, chunk);
    var e := d[BlockNo(d, inodes[i], bn) := Patch(d[BlockNo(d, inodes[i], bn)], from, chunk)];
    UnmappedStep(d, inodes[i], e, inodes[i], lo, hi, bn);
  }

  lemma InRange(off: nat, o: nat, n: nat)
    requires off <= o < off + n <= MAXFILE * BSIZE
    ensures off / BSIZE <= o / BSIZE < EndBlock(off, n) <= MAXFILE
  {
  }

  lemma WrittenNeed(sb: Superblock, d: Disk, ns: seq<Inode>, ow: Owner, e: Disk, js: seq<Inode>, ow': Owner,
                    i: nat, off: nat, src: seq<byte>)
    requires Layout(sb, e, js, ow') && BitsAre(sb, e, ow'.Keys) && i < |js| && off + |src| <= MAXFILE * BSIZE
    requires Written(d, ns, ow, e, js, ow', i, off, off + |src|, src)
    ensures Need(e, js[i], off / BSIZE, EndBlock(off, |src|)) == 0 && Room(sb, ow') >= 0
  {
    hide BlockNo, BitsAre, Used;
    FullIff(sb, e, ow');
    NeedNothing(e, js[i], off, |src|);
  }

  lemma {:induction false} NoneUnmapped(d: Disk, ip: Inode, lo: nat, hi: nat)
    requires forall c: nat | lo <= c < hi :: BlockNo(d, ip, c) != 0
    ensures Unmapped(d, ip, lo, hi) == 0
  {
    if lo < hi {
      NoneUnmapped(d, ip, lo, hi - 1);
    }
  }

  // The file blocks that bytes off to off + n lie in end before this one.
  function EndBlock(off: nat, n: nat): nat {
    if n == 0 then off / BSIZE else (off + n - 1) / BSIZE + 1
  }

  // A written range needs nothing any more.
  lemma NeedNothing(d: Disk, ip: Inode, off: nat, n: nat)
    requires |ip.addrs| == NDIRECT + 1 && off + n <= MAXFILE * BSIZE
    requires forall k: nat | off <= k < off + n :: BlockNo(d, ip, k / BSIZE) != 0
    ensures Need(d, ip, off / BSIZE, EndBlock(off, n)) == 0
  {
    hide BlockNo;
    var lo, hi := off / BSIZE, EndBlock(off, n);
    forall c: nat | lo <= c < hi
      ensures BlockNo(d, ip, c) != 0
    {
      var k := if c == lo then off else c * BSIZE;
      assert off <= k < off + n && k / BSIZE == c;
    }
    NoneUnmapped(d, ip, lo, hi);
    if lo < hi && hi > NDIRECT {
      IndirectThere(d, ip, hi - 1);
    }
  }

  lemma IndirectThere(d: Disk, ip: Inode, bn: nat)
    requires |ip.addrs| == NDIRECT + 1 && NDIRECT <= bn < MAXFILE && BlockNo(d, ip, bn) != 0
    ensures At(d, ip, NDIRECT) != 0
  {
  }

  // ---- Frames --------------------------------------------------------------------------------

  // No inode changed its size or kind and no block changed hands.
  ghost predicate SameShape(inodes: seq<Inode>, owner: Owner, js: seq<Inode>, owner': Owner) {
    && |js| == |inodes|
    && (forall i | 0 <= i < |inodes| :: js[i].size == inodes[i].size && js[i].kind == inodes[i].kind)
    && (forall b | b in owner :: b in owner' && owner'[b] == owner[b])
  }

  // Between two states every pointer that was set still holds the same block, every block of
  // file data that was owned holds the same bytes.
  ghost predicate SameFiles(d: Disk, inodes: seq<Inode>, owner: Owner, e: Disk, js: seq<Inode>, owner': Owner) {
    && |e| == |d| && SameShape(inodes, owner, js, owner')
    && (forall i, s | 0 <= i < |inodes| && 0 <= s < SLOTS && At(d, inodes[i], s) != 0 ::
          At(e, js[i], s) == At(d, inodes[i], s))
    && (forall b | b in owner && owner[b].1 != NDIRECT && b < |d| :: e[b] == d[b])
  }

  lemma SameFilesTrans(d: Disk, inodes: seq<Inode>, owner: Owner, e: Disk, js: seq<Inode>, owner': Owner,
                       f: Disk, ks: seq<Inode>, owner'': Owner)
    requires SameFiles(d, inodes, owner, e, js, owner') && SameFiles(e, js, owner', f, ks, owner'')
    ensures SameFiles(d, inodes, owner, f, ks, owner'')
  {
  }

  // Pointers depend on the disk only through indirect blocks, which are owned.
  lemma LayoutFrame(sb: Superblock, d: Disk, e: Disk, inodes: seq<Inode>, owner: Owner)
    requires Layout(sb, d, inodes, owner) && SbOk(sb, e)
    requires forall b | b in owner && owner[b].1 == NDIRECT :: e[b] == d[b]
    ensures Layout(sb, e, inodes, owner)
    ensures forall i, s | 0 <= i < |inodes| && 0 <= s < SLOTS :: At(e, inodes[i], s) == At(d, inodes[i], s)
    ensures (forall b | b in owner :: e[b] == d[b]) ==> SameFiles(d, inodes, owner, e, inodes, owner)
  {
    forall i, s | 0 <= i < |inodes| && 0 <= s < SLOTS
      ensures At(e, inodes[i], s) == At(d, inodes[i], s)
    {
      assert At(d, inodes[i], NDIRECT) == inodes[i].addrs[NDIRECT];
    }
  }

  // A freshly allocated block b is hung on the empty direct pointer (or indirect pointer) s.
  lemma LinkDirect(sb: Superblock, d: Disk, inodes: seq<Inode>, owner: Owner, i: nat, s: nat, b: nat)
    requires Layout(sb, d, inodes, owner) && i < |inodes| && s <= NDIRECT
    requires inodes[i].addrs[s] == 0
    requires sb.datastart <= b < sb.size && b != 0 && b !in owner
    requires s == NDIRECT ==> d[b] == ZERO
    ensures var js := inodes[i := inodes[i].(addrs := inodes[i].addrs[s := b])];
      && Layout(sb, d, js, owner[b := (i, s)])
      && SameFiles(d, inodes, owner, d, js, owner[b := (i, s)])
      && forall j, t | 0 <= j < |inodes| && 0 <= t < SLOTS ::
           At(d, js[j], t) == if j == i && t == s then b else At(d, inodes[j], t)
  {
    var js := inodes[i := inodes[i].(addrs := inodes[i].addrs[s := b])];
    forall j, t | 0 <= j < |inodes| && 0 <= t < SLOTS
      ensures At(d, js[j], t) == if j == i && t == s then b else At(d, inodes[j], t)
    {
      if j == i && s == NDIRECT && t > NDIRECT {
        ZeroWords(t - NDIRECT - 1);
      }
    }
  }

  // A freshly allocated block b is hung on the empty entry s of the indirect block.
  lemma LinkEntry(sb: Superblock, d: Disk, inodes: seq<Inode>, owner: Owner, i: nat, s: nat, b: nat)
    requires Layout(sb, d, inodes, owner) && i < |inodes| && NDIRECT < s < SLOTS
    requires inodes[i].addrs[NDIRECT] != 0
    requires At(d, inodes[i], s) == 0
    requires sb.datastart <= b < sb.size && b != 0 && b !in owner
    ensures var ind := inodes[i].addrs[NDIRECT];
      && ind < |d|
      && var e := d[ind := SetWord(d[ind], s - NDIRECT - 1, b)];
      && Layout(sb, e, inodes, owner[b := (i, s)])
      && SameFiles(d, inodes, owner, e, inodes, owner[b := (i, s)])
      && forall j, t | 0 <= j < |inodes| && 0 <= t < SLOTS ::
           At(e, inodes[j], t) == if j == i && t == s then b else At(d, inodes[j], t)
  {
    var ind := inodes[i].addrs[NDIRECT];
    assert At(d, inodes[i], NDIRECT) == ind;
    var e := d[ind := SetWord(d[ind], s - NDIRECT - 1, b)];
    GetSetWord(d[ind], s - NDIRECT - 1, b);
    forall j, t | 0 <= j < |inodes| && 0 <= t < SLOTS
      ensures At(e, inodes[j], t) == if j == i && t == s then b else At(d, inodes[j], t)
    {
      assert At(d, inodes[j], NDIRECT) == inodes[j].addrs[NDIRECT];
    }
  }

  // Storing a block that balloc has just carved out of d0, leaving d, in the inode itself.
  lemma DirectAllocated(sb: Superblock, d0: Disk, d: Disk, inodes: seq<Inode>, owner: Owner, i: nat, s: nat, b: nat)
    requires Layout(sb, d0, inodes, owner) && SbOk(sb, d) && i < |inodes| && s <= NDIRECT
    requires inodes[i].addrs[s] == 0
    requires sb.datastart <= b < sb.size && b !in owner && d[b] == ZERO
    requires forall x: nat | sb.datastart <= x < sb.size && x != b :: d[x] == d0[x]
    requires BitsAre(sb, d, owner.Keys + {b})
    ensures var owner' := owner[b := (i, s)];
      var js := inodes[i := inodes[i].(addrs := inodes[i].addrs[s := b])];
      && Layout(sb, d, js, owner') && BitsAre(sb, d, owner'.Keys)
      && At(d, js[i], s) == b
      && PointerSet(d0, inodes[i], d, js[i], s, b) && Room(sb, owner') == Room(sb, owner) - 1
      && SameFiles(d0, inodes, owner, d, js, owner')
  {
    hide At, SameFiles, BitsAre;
    var js, owner' := inodes[i := inodes[i].(addrs := inodes[i].addrs[s := b])], owner[b := (i, s)];
    LayoutFrame(sb, d0, d, inodes, owner);
    LinkDirect(sb, d, inodes, owner, i, s, b);
    SameFilesTrans(d0, inodes, owner, d, inodes, owner, d, js, owner');
    assert owner'.Keys == owner.Keys + {b};
  }

  // Storing a block that balloc has just carved out of d0, leaving d, in an indirect entry.
  lemma EntryAllocated(sb: Superblock, d0: Disk, d: Disk, inodes: seq<Inode>, owner: Owner, i: nat, s: nat, b: nat)
    requires Layout(sb, d0, inodes, owner) && SbOk(sb, d) && i < |inodes| && NDIRECT < s < SLOTS
    requires inodes[i].addrs[NDIRECT] != 0 && At(d0, inodes[i], s) == 0
    requires sb.datastart <= b < sb.size && b !in owner && d[b] == ZERO
    requires forall x: nat | sb.datastart <= x < sb.size && x != b :: d[x] == d0[x]
    requires BitsAre(sb, d, owner.Keys + {b})
    ensures var ind, owner' := inodes[i].addrs[NDIRECT], owner[b := (i, s)];
      && sb.datastart <= ind < |d|
      && var e := d[ind := SetWord(d[ind], s - NDIRECT - 1, b)];
      && Layout(sb, e, inodes, owner') && BitsAre(sb, e, owner'.Keys)
      && At(e, inodes[i], s) == b && e[b] == ZERO
      && PointerSet(d0, inodes[i], e, inodes[i], s, b) && Room(sb, owner') == Room(sb, owner) - 1
      && SameFiles(d0, inodes, owner, e, inodes, owner')
  {
    var ind, owner' := inodes[i].addrs[NDIRECT], owner[b := (i, s)];
    assert At(d0, inodes[i], NDIRECT) == ind;
    LayoutFrame(sb, d0, d, inodes, owner);
    LinkEntry(sb, d, inodes, owner, i, s, b);
    var e := d[ind := SetWord(d[ind], s - NDIRECT - 1, b)];
    SameFilesTrans(d0, inodes, owner, d, inodes, owner, e, inodes, owner');
    BitsFrame(sb, d, e, owner.Keys + {b});
    assert owner'.Keys == owner.Keys + {b};
  }

  // Such a change leaves the bytes of every file as they were.
  lemma SameFilesSameBytes(sb: Superblock, d: Disk, inodes: seq<Inode>, owner: Owner,
                           e: Disk, js: seq<Inode>, owner': Owner, i: nat, k: nat)
    requires Layout(sb, d, inodes, owner) && SameFiles(d, inodes, owner, e, js, owner')
    requires i < |inodes| && k / BSIZE < MAXFILE && BlockNo(d, inodes[i], k / BSIZE) != 0
    ensures BlockNo(e, js[i], k / BSIZE) == BlockNo(d, inodes[i], k / BSIZE)
    ensures ByteAt(e, js[i], k) == ByteAt(d, inodes[i], k)
  {
    var s := SlotOf(k / BSIZE);
    assert At(d, inodes[i], s) != 0;
  }

  // ---- Writing bytes into a data block -----------------------------------------------------

  // memmove(data + from, chunk, |chunk|)
  function Patch(b: Block, from: nat, chunk: seq<byte>): (r: Block)
    requires from + |chunk| <= BSIZE
    ensures forall k | 0 <= k < BSIZE :: r[k] == if from <= k < from + |chunk| then chunk[k - from] else b[k]
  {
    b[..from] + chunk + b[from + |chunk|..]
  }

  // Where byte k lies: the only byte of any file stored at that place.
  lemma ByteHome(sb: Superblock, d: Disk, inodes: seq<Inode>, owner: Owner, i: nat, bn: nat, j: nat, k: nat)
    requires Layout(sb, d, inodes, owner) && i < |inodes| && j < |inodes| && bn < MAXFILE && k < MAXFILE * BSIZE
    requires BlockNo(d, inodes[i], bn) != 0 && BlockNo(d, inodes[j], k / BSIZE) != 0
    ensures BlockNo(d, inodes[j], k / BSIZE) < |d|
    ensures BlockNo(d, inodes[i], bn) == BlockNo(d, inodes[j], k / BSIZE) <==> i == j && bn == k / BSIZE
  {
    assert At(d, inodes[i], SlotOf(bn)) != 0 && At(d, inodes[j], SlotOf(k / BSIZE)) != 0;
  }

  // Patching file block bn of file i disturbs no pointer and no bit of the free map.
  lemma PatchStructure(sb: Superblock, d: Disk, inodes: seq<Inode>, owner: Owner,
                       i: nat, bn: nat, from: nat, chunk: seq<byte>)
    requires Layout(sb, d, inodes, owner) && BitsAre(sb, d, owner.Keys)
    requires i < |inodes| && bn < MAXFILE && BlockNo(d, inodes[i], bn) != 0
    requires from + |chunk| <= BSIZE
    ensures var b := BlockNo(d, inodes[i], bn);
      && b < |d|
      && var e := d[b := Patch(d[b], from, chunk)];
      && Layout(sb, e, inodes, owner) && BitsAre(sb, e, owner.Keys)
      && forall j, s | 0 <= j < |inodes| && 0 <= s < SLOTS :: At(e, inodes[j], s) == At(d, inodes[j], s)
  {
    var b := BlockNo(d, inodes[i], bn);
    assert At(d, inodes[i], SlotOf(bn)) == b && owner[b] == (i, SlotOf(bn));
    var e := d[b := Patch(d[b], from, chunk)];
    LayoutFrame(sb, d, e, inodes, owner);
    BitsFrame(sb, d, e, owner.Keys);
  }

  // It changes those bytes of that file and no byte of any other.
  lemma PatchByte(sb: Superblock, d: Disk, inodes: seq<Inode>, owner: Owner,
                  i: nat, bn: nat, from: nat, chunk: seq<byte>, j: nat, k: nat)
    requires Layout(sb, d, inodes, owner) && BitsAre(sb, d, owner.Keys)
    requires i < |inodes| && bn < MAXFILE && BlockNo(d, inodes[i], bn) != 0 && BlockNo(d, inodes[i], bn) < |d|
    requires from + |chunk| <= BSIZE
    requires j < |inodes| && k < MAXFILE * BSIZE && BlockNo(d, inodes[j], k / BSIZE) != 0
    ensures var b := BlockNo(d, inodes[i], bn);
      var e := d[b := Patch(d[b], from, chunk)];
      && BlockNo(e, inodes[j], k / BSIZE) == BlockNo(d, inodes[j], k / BSIZE)
      && ByteAt(e, inodes[j], k) == if j == i && bn * BSIZE + from <= k < bn * BSIZE + from + |chunk|
                                    then chunk[k - bn * BSIZE - from] else ByteAt(d, inodes[j], k)
  {
    hide Layout, BitsAre, At;
    ByteHome(sb, d, inodes, owner, i, bn, j, k);
    PatchStructure(sb, d, inodes, owner, i, bn, from, chunk);
    assert k == k / BSIZE * BSIZE + k % BSIZE;
    var b := BlockNo(d, inodes[i], bn);
    var e := d[b := Patch(d[b], from, chunk)];
    assert At(e, inodes[j], SlotOf(k / BSIZE)) == At(d, inodes[j], SlotOf(k / BSIZE));
  }

  // ---- The loops of readi and writei ---------------------------------------------------------

  // One iteration of readi's loop copies the next bytes of the file.
  lemma ReadChunk(sb: Superblock, d: Disk, inodes: seq<Inode>, owner: Owner, i: nat, o: nat, m: nat)
    requires FsOk(sb, d, inodes, owner) && i < |inodes|
    requires 0 < m <= BSIZE - o % BSIZE && o + m <= inodes[i].size
    ensures o / BSIZE < MAXFILE
    ensures 0 < BlockNo(d, inodes[i], o / BSIZE) < |d|
    ensures d[BlockNo(d, inodes[i], o / BSIZE)][o % BSIZE..o % BSIZE + m] == FileBytes(d, inodes[i])[o..o + m]
  {
    hide BitsAre;
    assert o / BSIZE * BSIZE < inodes[i].size;
    assert Mapped(d, inodes[i]);
    ByteHome(sb, d, inodes, owner, i, o / BSIZE, i, o);
    hide Layout, Mapped;
    var b, from := BlockNo(d, inodes[i], o / BSIZE), o % BSIZE;
    forall k | o <= k < o + m
      ensures d[b][from + k - o] == ByteAt(d, inodes[i], k)
    {
      assert k / BSIZE == o / BSIZE && k % BSIZE == from + k - o;
    }
  }

  // From state (d, ns, ow) to (e, js, ow') the bytes off..o of src have been put in place, and
  // nothing else; the size is not yet updated.
  ghost predicate Written(d: Disk, ns: seq<Inode>, ow: Owner, e: Disk, js: seq<Inode>, ow': Owner,
                          i: nat, off: nat, o: nat, src: seq<byte>)
    requires off <= o <= off + |src|
  {
    && SameShape(ns, ow, js, ow') && |e| == |d| && i < |ns|
    && (forall j, k | 0 <= j < |ns| && 0 <= k < ns[j].size :: BlockNo(e, js[j], k / BSIZE) != 0)
    && (forall j, k | 0 <= j < |ns| && 0 <= k < ns[j].size && (j != i || !(off <= k < o)) ::
          ByteAt(e, js[j], k) == ByteAt(d, ns[j], k))
    && (forall k | off <= k < o :: BlockNo(e, js[i], k / BSIZE) != 0 && ByteAt(e, js[i], k) == src[k - off])
  }

  lemma WrittenNothing(sb: Superblock, d: Disk, ns: seq<Inode>, ow: Owner, i: nat, off: nat, src: seq<byte>)
    requires FsOk(sb, d, ns, ow) && i < |ns|
    ensures Written(d, ns, ow, d, ns, ow, i, off, off, src)
  {
    forall j, k | 0 <= j < |ns| && 0 <= k < ns[j].size
      ensures BlockNo(d, ns[j], k / BSIZE) != 0
    {
      assert Mapped(d, ns[j]);
      assert k / BSIZE * BSIZE < ns[j].size;
    }
  }

  lemma WrittenShape(d: Disk, ns: seq<Inode>, ow: Owner, e: Disk, js: seq<Inode>, ow': Owner,
                     i: nat, off: nat, o: nat, src: seq<byte>)
    requires off <= o <= off + |src| && Written(d, ns, ow, e, js, ow', i, off, o, src)
    ensures SameShape(ns, ow, js, ow') && i < |js|
  {
  }

  // bmap does not disturb what has been written.
  lemma WrittenBmap(sb: Superblock, d: Disk, ns: seq<Inode>, ow: Owner, e: Disk, js: seq<Inode>, ow': Owner,
                    f: Disk, ks: seq<Inode>, ow'': Owner, i: nat, off: nat, o: nat, src: seq<byte>)
    requires off <= o <= off + |src| <= MAXFILE * BSIZE
    requires Written(d, ns, ow, e, js, ow', i, off, o, src)
    requires Layout(sb, e, js, ow') && SameFiles(e, js, ow', f, ks, ow'')
    ensures Written(d, ns, ow, f, ks, ow'', i, off, o, src)
  {
    forall j, k | 0 <= j < |ns| && 0 <= k < MAXFILE * BSIZE && BlockNo(e, js[j], k / BSIZE) != 0
      ensures BlockNo(f, ks[j], k / BSIZE) == BlockNo(e, js[j], k / BSIZE)
      ensures ByteAt(f, ks[j], k) == ByteAt(e, js[j], k)
    {
      SameFilesSameBytes(sb, e, js, ow', f, ks, ow'', j, k);
    }
  }

  // The memmove of one iteration writes the next m bytes of src.
  lemma WrittenChunk(sb: Superblock, d: Disk, ns: seq<Inode>, ow: Owner, e: Disk, js: seq<Inode>, ow': Owner,
                     i: nat, off: nat, o: nat, m: nat, src: seq<byte>)
    requires off <= o && o + m <= off + |src| <= MAXFILE * BSIZE && 0 < m <= BSIZE - o % BSIZE
    requires Written(d, ns, ow, e, js, ow', i, off, o, src)
    requires Layout(sb, e, js, ow') && BitsAre(sb, e, ow'.Keys)
    requires BlockNo(e, js[i], o / BSIZE) != 0
    ensures var b, chunk := BlockNo(e, js[i], o / BSIZE), src[o - off..o - off + m];
      && b < |e|
      && var f := e[b := Patch(e[b], o % BSIZE, chunk)];
      && Layout(sb, f, js, ow') && BitsAre(sb, f, ow'.Keys)
      && Written(d, ns, ow, f, js, ow', i, off, o + m, src)
  {
    hide Layout, BitsAre;
    var b, chunk := BlockNo(e, js[i], o / BSIZE), src[o - off..o - off + m];
    PatchStructure(sb, e, js, ow', i, o / BSIZE, o % BSIZE, chunk);
    var f := e[b := Patch(e[b], o % BSIZE, chunk)];
    assert o / BSIZE * BSIZE + o % BSIZE == o;
    forall j, k | 0 <= j < |ns| && 0 <= k < MAXFILE * BSIZE && BlockNo(e, js[j], k / BSIZE) != 0
      ensures BlockNo(f, js[j], k / BSIZE) != 0
      ensures ByteAt(f, js[j], k) == if j == i && o <= k < o + m then src[k - off] else ByteAt(e, js[j], k)
    {
      PatchByte(sb, e, js, ow', i, o / BSIZE, o % BSIZE, chunk, j, k);
    }
    forall k | off <= k < o + m
      ensures BlockNo(e, js[i], k / BSIZE) != 0
    {
      assert k >= o ==> k / BSIZE == o / BSIZE;
    }
    hide ByteAt, BlockNo;
  }

  // The file with src laid over it from off on, extended if need be.
  function Overwrite(before: seq<byte>, off: nat, src: seq<byte>): (r: seq<byte>)
    requires off <= |before|
    ensures |r| == if off + |src| > |before| then off + |src| else |before|
    ensures forall k | 0 <= k < |r| :: r[k] == if off <= k < off + |src| then src[k - off] else before[k]
  {
    before[..off] + src + if off + |src| < |before| then before[off + |src|..] else []
  }

  // Once all of src is in place and the size is updated, the file system is in order again.
  lemma WrittenAll(sb: Superblock, d: Disk, ns: seq<Inode>, ow: Owner, e: Disk, js: seq<Inode>, ow': Owner,
                   i: nat, off: nat, src: seq<byte>, size: nat)
    requires Written(d, ns, ow, e, js, ow', i, off, off + |src|, src)
    requires Layout(sb, e, js, ow') && BitsAre(sb, e, ow'.Keys)
    requires off <= ns[i].size <= MAXFILE * BSIZE && off + |src| <= MAXFILE * BSIZE
    requires size == if off + |src| > ns[i].size then off + |src| else ns[i].size
    ensures var ks := js[i := js[i].(size := size)];
      && FsOk(sb, e, ks, ow')
      && FileBytes(e, ks[i]) == Overwrite(FileBytes(d, ns[i]), off, src)
      && forall j | 0 <= j < |ns| && j != i :: FileBytes(e, ks[j]) == FileBytes(d, ns[j])
  {
    var ks := js[i := js[i].(size := size)];
    SizeChange(sb, e, js, ow', i, size);
    hide Layout, BitsAre;
    forall j | 0 <= j < |ks|
      ensures Mapped(e, ks[j])
    {
      WrittenMapped(d, ns, ow, e, js, ow', i, off, src, size, j);
    }
    forall j, k | 0 <= j < |ns| && 0 <= k < ks[j].size
      ensures ByteAt(e, ks[j], k) == ByteAt(e, js[j], k)
    {
    }
    hide ByteAt, Mapped;
  }

  lemma WrittenMapped(d: Disk, ns: seq<Inode>, ow: Owner, e: Disk, js: seq<Inode>, ow': Owner,
                      i: nat, off: nat, src: seq<byte>, size: nat, j: nat)
    requires Written(d, ns, ow, e, js, ow', i, off, off + |src|, src)
    requires j < |ns| && off <= ns[i].size
    requires size == if off + |src| > ns[i].size then off + |src| else ns[i].size
    ensures Mapped(e, js[i := js[i].(size := size)][j])
  {
    var ks := js[i := js[i].(size := size)];
    forall bn: nat | bn * BSIZE < ks[j].size
      ensures BlockNo(e, ks[j], bn) != 0
    {
      var k := bn * BSIZE;
      assert k / BSIZE == bn;
      assert BlockNo(e, js[j], k / BSIZE) != 0;
    }
  }

  // Pointers and free map do not depend on file sizes.
  lemma SizeChange(sb: Superblock, d: Disk, inodes: seq<Inode>, owner: Owner, i: nat, size: nat)
    requires Layout(sb, d, inodes, owner) && i < |inodes| && size <= MAXFILE * BSIZE
    ensures Layout(sb, d, inodes[i := inodes[i].(size := size)], owner)
  {
    var ks := inodes[i := inodes[i].(size := size)];
    forall j, s | 0 <= j < |inodes| && 0 <= s < SLOTS
      ensures At(d, ks[j], s) == At(d, inodes[j], s)
    {
    }
  }

  // ---- Cutting pointers ----------------------------------------------------------------------

  function WithoutDirect(ip: Inode, s: nat): Inode {
    if s < |ip.addrs| then ip.(addrs := ip.addrs[s := 0]) else ip
  }

  // ip after the first k rounds of itrunc's first loop.
  function WithoutDirects(ip: Inode, k: nat): (r: Inode)
    ensures |r.addrs| == |ip.addrs| && r == ip.(addrs := r.addrs)
    ensures forall t | 0 <= t < |ip.addrs| :: r.addrs[t] == if t < k then 0 else ip.addrs[t]
  {
    if k == 0 then ip else WithoutDirect(WithoutDirects(ip, k - 1), k - 1)
  }

  // Clearing a direct pointer gives up exactly its block.
  lemma CutDirect(sb: Superblock, d: Disk, inodes: seq<Inode>, owner: Owner, i: nat, s: nat)
    requires Layout(sb, d, inodes, owner) && i < |inodes| && s < NDIRECT
    ensures var js, b := inodes[i := WithoutDirect(inodes[i], s)], inodes[i].addrs[s];
      && Layout(sb, d, js, owner - {b})
      && forall j, t | 0 <= j < |inodes| && 0 <= t < SLOTS ::
           At(d, js[j], t) == if j == i && t == s then 0 else At(d, inodes[j], t)
  {
    var js, b := inodes[i := WithoutDirect(inodes[i], s)], inodes[i].addrs[s];
    assert At(d, inodes[i], s) == b;
    forall j, t | 0 <= j < |inodes| && 0 <= t < SLOTS
      ensures At(d, js[j], t) == if j == i && t == s then 0 else At(d, inodes[j], t)
    {
    }
  }

  // The blocks that inode i holds through the pointers lo .. hi-1.
  ghost function BlocksBetween(owner: Owner, i: nat, lo: nat, hi: nat): set<nat> {
    set b | b in owner && owner[b].0 == i && lo <= owner[b].1 < hi
  }

  // Clearing the indirect pointer gives up the indirect block and every block it names.
  lemma CutIndirect(sb: Superblock, d: Disk, inodes: seq<Inode>, owner: Owner, i: nat)
    requires Layout(sb, d, inodes, owner) && i < |inodes|
    ensures var js := inodes[i := WithoutDirect(inodes[i], NDIRECT)];
      && Layout(sb, d, js, owner - BlocksBetween(owner, i, NDIRECT, SLOTS))
      && forall j, t | 0 <= j < |inodes| && 0 <= t < SLOTS ::
           At(d, js[j], t) == if j == i && t >= NDIRECT then 0 else At(d, inodes[j], t)
  {
    var js := inodes[i := WithoutDirect(inodes[i], NDIRECT)];
    forall j, t | 0 <= j < |inodes| && 0 <= t < SLOTS
      ensures At(d, js[j], t) == if j == i && t >= NDIRECT then 0 else At(d, inodes[j], t)
    {
    }
  }

  lemma BetweenStep(sb: Superblock, d: Disk, inodes: seq<Inode>, owner: Owner, i: nat, lo: nat, s: nat)
    requires Layout(sb, d, inodes, owner) && i < |inodes| && lo <= s < SLOTS
    ensures var b := At(d, inodes[i], s);
      && BlocksBetween(owner, i, lo, s + 1) == BlocksBetween(owner, i, lo, s) + (if b == 0 then {} else {b})
      && b !in BlocksBetween(owner, i, lo, s)
      && (b != 0 ==> b in owner && sb.datastart <= b < sb.size)
  {
  }

  // Round s of itrunc's first loop, as far as ownership is concerned.
  lemma OwnerStep(sb: Superblock, d: Disk, inodes: seq<Inode>, owner: Owner, i: nat, s: nat)
    requires Layout(sb, d, inodes, owner) && i < |inodes| && s < NDIRECT
    ensures |inodes[i].addrs| == NDIRECT + 1
    ensures var b := inodes[i].addrs[s];
      owner - BlocksBetween(owner, i, 0, s) - (if b == 0 then {} else {b}) == owner - BlocksBetween(owner, i, 0, s + 1)
  {
    assert At(d, inodes[i], s) == inodes[i].addrs[s];
    BetweenStep(sb, d, inodes, owner, i, 0, s);
  }

  // Round j of the loop over the indirect entries: entry j is either empty or names a block
  // that is still marked.
  lemma EntryStep(sb: Superblock, d: Disk, inodes: seq<Inode>, owner: Owner, i: nat, j: nat)
    requires Layout(sb, d, inodes, owner) && i < |inodes| && j < NINDIRECT
    requires |inodes[i].addrs| == NDIRECT + 1 && 0 < inodes[i].addrs[NDIRECT] < |d|
    ensures var b := GetWord(d[inodes[i].addrs[NDIRECT]], j);
      var used := owner.Keys - BlocksBetween(owner, i, NDIRECT + 1, NDIRECT + 1 + j);
      && used - (if b == 0 then {} else {b}) == owner.Keys - BlocksBetween(owner, i, NDIRECT + 1, NDIRECT + 2 + j)
      && (b != 0 ==> b in used && sb.datastart <= b < sb.size)
  {
    assert At(d, inodes[i], NDIRECT + 1 + j) == GetWord(d[inodes[i].addrs[NDIRECT]], j);
    BetweenStep(sb, d, inodes, owner, i, NDIRECT + 1, NDIRECT + 1 + j);
  }

  lemma BetweenSplit(owner: Owner, i: nat, lo: nat, mid: nat, hi: nat)
    requires lo <= mid <= hi
    ensures BlocksBetween(owner, i, lo, hi) == BlocksBetween(owner, i, lo, mid) + BlocksBetween(owner, i, mid, hi)
  {
  }

  // What inode i holds through its indirect pointer: the indirect block and the blocks named there.
  lemma IndirectHoldings(sb: Superblock, d: Disk, inodes: seq<Inode>, owner: Owner, i: nat)
    requires Layout(sb, d, inodes, owner) && i < |inodes|
    ensures |inodes[i].addrs| == NDIRECT + 1 && SbOk(sb, d)
    ensures var ind, named := inodes[i].addrs[NDIRECT], BlocksBetween(owner, i, NDIRECT + 1, SLOTS);
      && (ind != 0 ==> sb.datastart <= ind < |d| && ind in owner && ind !in named)
      && (owner - BlocksBetween(owner, i, NDIRECT, SLOTS)).Keys == owner.Keys - named - {ind}
      && (ind == 0 ==> (owner - BlocksBetween(owner, i, NDIRECT, SLOTS)).Keys == owner.Keys)
  {
    assert At(d, inodes[i], NDIRECT) == inodes[i].addrs[NDIRECT];
    BetweenStep(sb, d, inodes, owner, i, NDIRECT, NDIRECT);
    assert forall b | b in owner && owner[b].0 == i :: owner[b].1 == NDIRECT <==> b == inodes[i].addrs[NDIRECT];
  }

  // After the pointers of file i are gone and the free map is in step, setting its size to 0
  // restores the invariant, and no other file has changed.
  lemma Truncated(sb: Superblock, d: Disk, ns: seq<Inode>, ow: Owner, e: Disk, js: seq<Inode>, ow': Owner, i: nat)
    requires FsOk(sb, d, ns, ow) && i < |ns| && |js| == |ns| && js == ns[i := js[i]]
    requires Layout(sb, e, js, ow') && BitsAre(sb, e, ow'.Keys)
    requires forall x: nat | sb.datastart <= x < |e| && x < |d| :: e[x] == d[x]
    ensures FsOk(sb, e, js[i := js[i].(size := 0)], ow')
    ensures forall j | 0 <= j < |ns| && j != i :: FileBytes(e, js[j]) == FileBytes(d, ns[j])
  {
    var ks := js[i := js[i].(size := 0)];
    SizeChange(sb, e, js, ow', i, 0);
    LayoutFrame(sb, d, e, ns, ow);
    forall j | 0 <= j < |ns| && j != i
      ensures Mapped(e, ks[j]) && FileBytes(e, js[j]) == FileBytes(d, ns[j])
    {
      SamePointersSameFile(sb, d, ns, ow, e, j);
    }
  }

  lemma SamePointersSameFile(sb: Superblock, d: Disk, ns: seq<Inode>, ow: Owner, e: Disk, j: nat)
    requires FsOk(sb, d, ns, ow) && j < |ns| && |e| == |d|
    requires forall x: nat | sb.datastart <= x < |e| && x < |d| :: e[x] == d[x]
    requires forall s | 0 <= s < SLOTS :: At(e, ns[j], s) == At(d, ns[j], s)
    ensures Mapped(e, ns[j]) && FileBytes(e, ns[j]) == FileBytes(d, ns[j])
  {
    assert Mapped(d, ns[j]);
    forall bn: nat | bn * BSIZE < ns[j].size
      ensures BlockNo(e, ns[j], bn) != 0
    {
      assert BlockNo(d, ns[j], bn) != 0 && SlotOf(bn) < SLOTS;
    }
    forall k | 0 <= k < ns[j].size
      ensures ByteAt(e, ns[j], k) == ByteAt(d, ns[j], k)
    {
      assert k / BSIZE * BSIZE < ns[j].size;
      ByteHome(sb, d, ns, ow, j, k / BSIZE, j, k);
      assert At(d, ns[j], SlotOf(k / BSIZE)) in ow;
    }
  }
}
