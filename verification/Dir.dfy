/**
 Directories of fs.c: files holding 16-byte entries, read and written through readi and
 writei, seen as finite maps from names (their first DIRSIZ bytes) to inode numbers.
 */
module Dir {
  import opened Blocks
  import opened FsLayout
  import opened Fs

  const DIRSIZ := 14
  const DESIZE := 16

  datatype Entry = Entry(inum: nat, name: seq<byte>)

  // ---- Names ------------------------------------------------------------------------

  // A C string argument, without its terminator.
  ghost predicate CString(s: seq<byte>) {
    forall k | 0 <= k < |s| :: s[k] != 0
  }

  // The byte a C program reads at position k of such a string.
  function CharAt(s: seq<byte>, k: nat): byte {
    if k < |s| then s[k] else 0
  }

  // The part of a name that directories distinguish.
  function Key(s: seq<byte>): seq<byte> {
    if |s| <= DIRSIZ then s else s[..DIRSIZ]
  }

  // The name stored in an entry: up to the first NUL, or all DIRSIZ bytes.
  function Stored(field: seq<byte>): (r: seq<byte>)
    ensures |r| <= |field| && r == field[..|r|]
    ensures |r| < |field| ==> field[|r|] == 0
    ensures forall k | 0 <= k < |r| :: r[k] != 0
  {
    if field == [] || field[0] == 0 then [] else [field[0]] + Stored(field[1..])
  }

  // strncmp(s, field, DIRSIZ) == 0
  method Namecmp(s: seq<byte>, field: seq<byte>) returns (same: bool)
    requires CString(s) && |field| == DIRSIZ
    ensures same <==> Key(s) == Stored(field)
  {
    var n, k := DIRSIZ, 0;
    ghost var st := Stored(field);
    while n > 0 && CharAt(s, k) != 0 && CharAt(s, k) == field[k]
      invariant 0 <= n <= DIRSIZ && k == DIRSIZ - n
      invariant k <= |s| && k <= |st| && s[..k] == field[..k] == st[..k]
    {
      assert k < |st|;
      n, k := n - 1, k + 1;
    }
    if n == 0 {
      return true;
    }
    same := CharAt(s, k) == field[k];
    if same {
      assert |s| == k && |st| == k;
    } else {
      assert |s| > k ==> Key(s)[k] == s[k];
      assert |st| > k ==> st[k] == field[k];
    }
  }

  // strncpy(field, s, DIRSIZ)
  function Padded(s: seq<byte>): (r: seq<byte>)
    ensures |r| == DIRSIZ
  {
    seq(DIRSIZ, k requires 0 <= k < DIRSIZ => CharAt(s, k))
  }

  lemma {:induction false} StoredUpTo(field: seq<byte>, n: nat)
    requires n <= |field| && (forall k | 0 <= k < n :: field[k] != 0)
    requires n < |field| ==> field[n] == 0
    ensures Stored(field) == field[..n]
  {
    if n > 0 {
      StoredUpTo(field[1..], n - 1);
    }
  }

  // A copied name is read back, up to what directories distinguish.
  lemma PaddedStored(s: seq<byte>)
    requires CString(s)
    ensures Stored(Padded(s)) == Key(s)
  {
    StoredUpTo(Padded(s), |Key(s)|);
  }

  // ---- Entries ------------------------------------------------------------------------

  function Decode(de: seq<byte>): Entry
    requires |de| == DESIZE
  {
    var lo: int, hi: int := de[0], de[1];
    Entry(lo + 0x100 * hi, de[2..])
  }

  function Encode(e: Entry): (r: seq<byte>)
    requires e.inum < 0x1_0000 && |e.name| == DIRSIZ
    ensures |r| == DESIZE && Decode(r) == e
  {
    [e.inum % 0x100, e.inum / 0x100] + e.name
  }

  function Entries(bytes: seq<byte>): (r: seq<Entry>)
    ensures |r| == |bytes| / DESIZE
    ensures forall k | 0 <= k < |r| :: r[k] == Decode(bytes[DESIZE * k..DESIZE * k + DESIZE])
  {
    seq(|bytes| / DESIZE, k requires 0 <= k < |bytes| / DESIZE => Decode(bytes[DESIZE * k..DESIZE * k + DESIZE]))
  }

  lemma EntryAt(bytes: seq<byte>, k: nat)
    requires DESIZE * k + DESIZE <= |bytes|
    ensures k < |Entries(bytes)|
    ensures Entries(bytes)[k] == Decode(bytes[DESIZE * k..DESIZE * k + DESIZE])
  {
  }

  // Writing one entry replaces or appends exactly that entry.
  lemma EntriesAfterWrite(bytes: seq<byte>, k: nat, e: Entry)
    requires |bytes| % DESIZE == 0 && k <= |bytes| / DESIZE
    requires e.inum < 0x1_0000 && |e.name| == DIRSIZ
    ensures var after := Overwrite(bytes, DESIZE * k, Encode(e));
      && |after| % DESIZE == 0
      && Entries(after) == PutEntry(Entries(bytes), k, e)
  {
    var after := Overwrite(bytes, DESIZE * k, Encode(e));
    forall j | 0 <= j < |after| / DESIZE
      ensures Entries(after)[j] == if j == k then e else Entries(bytes)[j]
    {
      var de := after[DESIZE * j..DESIZE * j + DESIZE];
      if j == k {
        assert de == Encode(e);
      } else {
        assert j < |bytes| / DESIZE;
        assert de == bytes[DESIZE * j..DESIZE * j + DESIZE];
      }
    }
  }

  // ---- Directories as maps --------------------------------------------------------------

  predicate Live(e: Entry) {
    e.inum != 0
  }

  // The first live entry for key, or |es|.
  function Find(es: seq<Entry>, key: seq<byte>): (k: nat)
    ensures k <= |es|
    ensures k < |es| ==> Live(es[k]) && Stored(es[k].name) == key
    ensures forall j | 0 <= j < k :: !(Live(es[j]) && Stored(es[j].name) == key)
  {
    if es == [] || (Live(es[0]) && Stored(es[0].name) == key) then 0 else 1 + Find(es[1..], key)
  }

  // The first cleared entry, or |es|.
  function FirstFree(es: seq<Entry>): (k: nat)
    ensures k <= |es|
    ensures k < |es| ==> !Live(es[k])
    ensures forall j | 0 <= j < k :: Live(es[j])
  {
    if es == [] || !Live(es[0]) then 0 else 1 + FirstFree(es[1..])
  }

  ghost predicate Distinct(es: seq<Entry>) {
    forall j, k | 0 <= j < k < |es| && Live(es[j]) && Live(es[k]) :: Stored(es[j].name) != Stored(es[k].name)
  }

  ghost function Keys(es: seq<Entry>): set<seq<byte>> {
    set k | 0 <= k < |es| && Live(es[k]) :: Stored(es[k].name)
  }

  // The finite map a directory stands for.
  ghost function Bindings(es: seq<Entry>): map<seq<byte>, nat> {
    map key | key in Keys(es) && Find(es, key) < |es| :: es[Find(es, key)].inum
  }

  // Searching entry by entry is looking up in the map.
  lemma FindIsLookup(es: seq<Entry>, key: seq<byte>)
    ensures Find(es, key) < |es| <==> key in Bindings(es)
    ensures Find(es, key) < |es| ==> es[Find(es, key)].inum == Bindings(es)[key]
  {
    if Find(es, key) < |es| {
      assert Stored(es[Find(es, key)].name) in Keys(es);
    }
  }

  // In a directory without duplicates any live entry is the one that is found.
  lemma BoundBy(es: seq<Entry>, k: nat)
    requires Distinct(es) && k < |es| && Live(es[k])
    ensures Stored(es[k].name) in Bindings(es) && Bindings(es)[Stored(es[k].name)] == es[k].inum
  {
    FindIsLookup(es, Stored(es[k].name));
  }

  // es with entry k replaced, or e appended.
  function PutEntry(es: seq<Entry>, k: nat, e: Entry): (r: seq<Entry>)
    requires k <= |es|
    ensures |r| == (if k < |es| then |es| else |es| + 1) && r[k] == e
    ensures forall j | 0 <= j < |es| && j != k :: r[j] == es[j]
  {
    if k < |es| then es[k := e] else es + [e]
  }

  lemma PutKeepsDistinct(es: seq<Entry>, k: nat, e: Entry)
    requires Distinct(es) && k <= |es| && Find(es, Stored(e.name)) == |es|
    ensures Distinct(PutEntry(es, k, e))
  {
    hide Stored, Find;
  }

  ghost predicate CanLink(es: seq<Entry>, k: nat, e: Entry) {
    Distinct(es) && k <= |es| && (k < |es| ==> !Live(es[k])) && Find(es, Stored(e.name)) == |es|
  }

  // The map after name e.name has been given e.inum (not at all if that is 0).
  ghost function WithLink(es: seq<Entry>, e: Entry): map<seq<byte>, nat> {
    if Live(e) then Bindings(es)[Stored(e.name) := e.inum] else Bindings(es)
  }

  lemma LinkAddsNothingElse(es: seq<Entry>, k: nat, e: Entry, key: seq<byte>)
    requires CanLink(es, k, e) && key in Bindings(PutEntry(es, k, e))
    ensures key in WithLink(es, e) && Bindings(PutEntry(es, k, e))[key] == WithLink(es, e)[key]
  {
    hide Stored, Bindings, PutEntry;
    var after := PutEntry(es, k, e);
    FindIsLookup(es, Stored(e.name));
    FindIsLookup(after, key);
    var f := Find(after, key);
    if f != k {
      BoundBy(es, f);
    }
  }

  lemma LinkAddsAll(es: seq<Entry>, k: nat, e: Entry, key: seq<byte>)
    requires CanLink(es, k, e) && key in WithLink(es, e)
    ensures key in Bindings(PutEntry(es, k, e))
  {
    PutKeepsDistinct(es, k, e);
    hide Stored, Bindings, PutEntry, Distinct;
    var after := PutEntry(es, k, e);
    if Live(e) && key == Stored(e.name) {
      BoundBy(after, k);
    } else {
      FindIsLookup(es, key);
      BoundBy(after, Find(es, key));
    }
  }

  // Binding an unbound name in a cleared entry, or in a new one, adds exactly that binding.
  lemma LinkAddsBinding(es: seq<Entry>, k: nat, e: Entry)
    requires CanLink(es, k, e)
    ensures Distinct(PutEntry(es, k, e))
    ensures Bindings(PutEntry(es, k, e)) == WithLink(es, e)
  {
    PutKeepsDistinct(es, k, e);
    hide *;
    forall key | key in Bindings(PutEntry(es, k, e))
      ensures key in WithLink(es, e) && Bindings(PutEntry(es, k, e))[key] == WithLink(es, e)[key]
    {
      LinkAddsNothingElse(es, k, e, key);
    }
    forall key | key in WithLink(es, e)
      ensures key in Bindings(PutEntry(es, k, e))
    {
      LinkAddsAll(es, k, e, key);
    }
  }

  // ---- dirlookup and dirlink --------------------------------------------------------------

  datatype LookupResult = Found(inum: nat, off: nat) | Absent | LookupPanic

  // The sixteen bytes at off are a live entry that gives the name inode number inum.
  predicate NamedAt(bytes: seq<byte>, off: nat, key: seq<byte>, inum: nat) {
    && off % DESIZE == 0 && off + DESIZE <= |bytes|
    && var e := Decode(bytes[off..off + DESIZE]);
      e.inum == inum != 0 && Stored(e.name) == key
  }

  // A well-formed directory: a whole number of entries, live names pairwise distinct.
  ghost predicate DirOk(bytes: seq<byte>) {
    |bytes| % DESIZE == 0 && Distinct(Entries(bytes))
  }

  // The directory `after` is `before` with name bound to inum (not at all if inum is 0) and nothing
  // else changed; it is longer only if `before` had no cleared entry.
  ghost predicate LinkedTo(before: seq<byte>, after: seq<byte>, name: seq<byte>, inum: nat) {
    var es, b := Entries(before), Bindings(Entries(before));
    && DirOk(after)
    && Bindings(Entries(after)) == (if inum == 0 then b else b[Key(name) := inum])
    && |after| == |before| + (if FirstFree(es) < |es| then 0 else DESIZE)
  }

  lemma LinkedByWrite(bytes: seq<byte>, name: seq<byte>, inum: nat)
    requires DirOk(bytes) && CString(name) && Key(name) !in Bindings(Entries(bytes)) && inum < 0x1_0000
    ensures var off := DESIZE * FirstFree(Entries(bytes));
      && off <= |bytes|
      && LinkedTo(bytes, Overwrite(bytes, off, Encode(Entry(inum, Padded(name)))), name, inum)
  {
    var es, e := Entries(bytes), Entry(inum, Padded(name));
    var k := FirstFree(es);
    PaddedStored(name);
    EntriesAfterWrite(bytes, k, e);
    FindIsLookup(es, Key(name));
    LinkAddsBinding(es, k, e);
  }

  // readi of the directory entry at off, the k-th, as both loops below do it.
  method ReadEntry(fs: FileSystem, dp: nat, off: nat, ghost k: nat) returns (ok: bool, e: Entry)
    requires fs.Valid() && dp < |fs.inodes| && fs.inodes[dp].kind != T_DEV
    requires off == DESIZE * k && off < fs.inodes[dp].size
    modifies fs
    ensures fs.disk == old(fs.disk) && fs.inodes == old(fs.inodes) && fs.owner == old(fs.owner)
    ensures ok <==> off + DESIZE <= fs.inodes[dp].size
    ensures ok ==> k < |Entries(fs.Bytes(dp))| && e == Entries(fs.Bytes(dp))[k]
    ensures !ok ==> k == |Entries(fs.Bytes(dp))| && fs.inodes[dp].size % DESIZE != 0
  {
    assert fs.inodes[dp].size <= MAXFILE * BSIZE;
    hide FsOk, FileBytes, Entries;
    var got, de := fs.Readi(dp, off, DESIZE);
    ok := got == Done(DESIZE);
    if ok {
      EntryAt(fs.Bytes(dp), k);
      e := Decode(de);
    } else {
      e := Entry(0, []);
    }
  }

  lemma FindAt(es: seq<Entry>, key: seq<byte>, k: nat)
    requires k < |es| && k <= Find(es, key)
    ensures k == Find(es, key) <==> es[k].inum != 0 && Stored(es[k].name) == key
  {
  }

  lemma NamedThere(bytes: seq<byte>, k: nat, key: seq<byte>)
    requires k < |Entries(bytes)| && Entries(bytes)[k].inum != 0 && Stored(Entries(bytes)[k].name) == key
    ensures NamedAt(bytes, DESIZE * k, key, Entries(bytes)[k].inum)
  {
    EntryAt(bytes, k);
  }

  // Writing a cleared entry where the name was found, as sys_unlink does, takes exactly that
  // binding away.
  lemma ClearedByWrite(bytes: seq<byte>, off: nat, name: seq<byte>, inum: nat)
    requires DirOk(bytes) && NamedAt(bytes, off, Key(name), inum)
    ensures var after := Overwrite(bytes, off, Cleared());
      && |after| == |bytes| && DirOk(after)
      && Bindings(Entries(after)) == Bindings(Entries(bytes)) - {Key(name)}
  {
    hide Stored, Key, Bindings, Overwrite, Distinct, Entries;
    var k, e := off / DESIZE, Entry(0, Padded([]));
    assert Encode(e) == Cleared();
    EntryAt(bytes, k);
    EntriesAfterWrite(bytes, k, e);
    ClearRemovesBinding(Entries(bytes), k);
  }

  // memset(&de, 0, sizeof(de))
  function Cleared(): seq<byte> {
    seq(DESIZE, _ => 0)
  }

  lemma ClearRemovesBinding(es: seq<Entry>, k: nat)
    requires Distinct(es) && k < |es| && Live(es[k])
    ensures var after := PutEntry(es, k, Entry(0, Padded([])));
      Distinct(after) && Bindings(after) == Bindings(es) - {Stored(es[k].name)}
  {
    hide Stored, Bindings, PutEntry;
    var after, gone := PutEntry(es, k, Entry(0, Padded([]))), Stored(es[k].name);
    forall key
      ensures key in Bindings(after) <==> key in Bindings(es) && key != gone
      ensures key in Bindings(after) ==> Bindings(after)[key] == Bindings(es)[key]
    {
      FindIsLookup(after, key);
      FindIsLookup(es, key);
      if key in Bindings(after) {
        BoundBy(es, Find(after, key));
      }
      if key in Bindings(es) && key != gone {
        BoundBy(after, Find(es, key));
      }
    }
  }

  // The inode number bound to the name, and where its entry is.
  method DirLookup(fs: FileSystem, dp: nat, name: seq<byte>) returns (r: LookupResult)
    requires fs.Valid() && dp < |fs.inodes| && CString(name)
    modifies fs
    ensures fs.disk == old(fs.disk) && fs.inodes == old(fs.inodes) && fs.owner == old(fs.owner)
    ensures var bound := Bindings(Entries(fs.Bytes(dp)));
      && (r == LookupPanic <==>
           fs.inodes[dp].kind != T_DIR || (Key(name) !in bound && fs.inodes[dp].size % DESIZE != 0))
      && (r == Absent ==> Key(name) !in bound)
      && (r.Found? ==> Key(name) in bound && r.inum == bound[Key(name)]
                       && NamedAt(fs.Bytes(dp), r.off, Key(name), r.inum))
  {
    hide FsOk, FileBytes, Find, Stored, Key, Entries, CString, Live, Bindings, NamedAt;
    if fs.inodes[dp].kind != T_DIR {
      return LookupPanic;
    }
    var off := 0;
    ghost var bytes := fs.Bytes(dp);
    ghost var es, key := Entries(bytes), Key(name);
    ghost var k := 0;
    FindIsLookup(es, key);
    while off < fs.inodes[dp].size
      invariant fs.disk == old(fs.disk) && fs.inodes == old(fs.inodes) && fs.owner == old(fs.owner)
      invariant fs.Valid() && fs.Bytes(dp) == bytes
      invariant 0 <= k <= Find(es, key) && off == DESIZE * k <= fs.inodes[dp].size
    {
      var ok, e := ReadEntry(fs, dp, off, k);
      if !ok {
        return LookupPanic;
      }
      FindAt(es, key, k);
      if e.inum != 0 {
        var same := Namecmp(name, e.name);
        if same {
          NamedThere(bytes, k, key);
          return Found(e.inum, off);
        }
      }
      off := off + DESIZE;
      k := k + 1;
    }
    assert |es| == k && fs.inodes[dp].size % DESIZE == 0;
    r := Absent;
  }

  // dirlink's loop: the offset of the first cleared entry, or the end of the directory.
  method EmptyEntry(fs: FileSystem, dp: nat) returns (off: nat)
    requires fs.Valid() && dp < |fs.inodes| && fs.inodes[dp].kind != T_DEV
    requires fs.inodes[dp].size % DESIZE == 0
    modifies fs
    ensures fs.disk == old(fs.disk) && fs.inodes == old(fs.inodes) && fs.owner == old(fs.owner)
    ensures off == DESIZE * FirstFree(Entries(fs.Bytes(dp)))
  {
    hide FsOk, FileBytes, Entries, FirstFree;
    off := 0;
    ghost var es := Entries(fs.Bytes(dp));
    ghost var k := 0;
    while off < fs.inodes[dp].size
      invariant fs.disk == old(fs.disk) && fs.inodes == old(fs.inodes) && fs.owner == old(fs.owner)
      invariant fs.Valid() && Entries(fs.Bytes(dp)) == es
      invariant 0 <= k <= FirstFree(es) && off == DESIZE * k
    {
      var ok, e := ReadEntry(fs, dp, off, k);
      assert ok;
      if e.inum == 0 {
        break;
      }
      off := off + DESIZE;
      k := k + 1;
    }
  }

  datatype LinkResult = Linked | Exists | LinkPanic

  // Bind name to inum unless it is bound already. The panic comes exactly when an unbound name
  // finds neither a cleared entry nor room to grow. Inode numbers are stored in 16 bits.
  method DirLink(fs: FileSystem, dp: nat, name: seq<byte>, inum: nat) returns (r: LinkResult)
    requires fs.Valid() && dp < |fs.inodes| && fs.inodes[dp].kind == T_DIR && CString(name)
    requires DirOk(fs.Bytes(dp))
    modifies fs
    ensures r == Exists <==> Key(name) in old(Bindings(Entries(fs.Bytes(dp))))
    ensures r == Exists ==> fs.disk == old(fs.disk) && fs.inodes == old(fs.inodes) && fs.owner == old(fs.owner)
    ensures MetaKept(fs.sb, old(fs.disk), fs.disk)
    ensures r == Linked ==>
      && fs.Valid() && |fs.inodes| == |old(fs.inodes)|
      && LinkedTo(old(fs.Bytes(dp)), fs.Bytes(dp), name, inum % 0x1_0000)
      && forall j | 0 <= j < |fs.inodes| && j != dp :: fs.Bytes(j) == old(FileBytes(fs.disk, fs.inodes[j]))
    ensures var off := DESIZE * FirstFree(old(Entries(fs.Bytes(dp))));
      r == LinkPanic <==>
        && Key(name) !in old(Bindings(Entries(fs.Bytes(dp))))
        && (off + DESIZE > MAXFILE * BSIZE
            || Need(old(fs.disk), old(fs.inodes)[dp], off / BSIZE, EndBlock(off, DESIZE)) > Room(fs.sb, old(fs.owner)))
    ensures r == LinkPanic ==>
      || old(fs.inodes)[dp].size + DESIZE > MAXFILE * BSIZE
      || (SbOk(fs.sb, fs.disk) && forall b: nat | b < fs.sb.size :: Used(fs.sb, fs.disk, b))
  {
    assert fs.inodes[dp].size <= MAXFILE * BSIZE;
    hide FsOk, Bindings, FileBytes, SbOk, Used, LinkedTo, Entries, Need, Room, EndBlock, MetaKept;
    MetaStays(fs.sb, fs.disk);
    ghost var bytes := fs.Bytes(dp);
    FindIsLookup(Entries(bytes), Key(name));
    // A name that is bound already cannot be linked again.
    var present := DirLookup(fs, dp, name);
    if present.Found? {
      return Exists;
    }
    // Otherwise it goes where the first entry is cleared, or behind the last one.
    var off := EmptyEntry(fs, dp);
    var de := Encode(Entry(inum % 0x1_0000, Padded(name)));
    LinkedByWrite(bytes, name, inum % 0x1_0000);
    var put := fs.Writei(dp, off, de);
    r := if put == Done(DESIZE) then Linked else LinkPanic;
  }
}
