/** Directories as files: what dirlookup and dirlink do to blocks and bytes is what DirOps says they do to entries. */
module FsDirectory {
  import opened DiskFormat
  import opened FsLayout
  import opened FsOwnership
  import opened FsFiles
  import opened FileSystem
  import Directories
  import DirOps

  type Dirent = Directories.Dirent

  const DIRENT := 16 // bytes: the inode number, and DIRSIZ of the name
  const DIRSIZ := 14

  // ---- entries as bytes ----

  // The C string in b, which need not end in a NUL.
  function CName(b: seq<Byte>): (s: string)
    ensures |s| <= |b| && (|s| < |b| ==> b[|s|] == 0)
    ensures forall i :: 0 <= i < |s| ==> b[i] != 0 && s[i] == b[i] as char
  {
    if b == [] || b[0] == 0 then "" else [b[0] as char] + CName(b[1..])
  }

  function EntryOf(b: seq<Byte>): Dirent
    requires |b| == DIRENT
  {
    Directories.Dirent(b[0] as int + 0x100 * b[1] as int, CName(b[2..]))
  }

  // The two bytes of the number, low byte first, and the 14 of the name.
  lemma EntryIs(b: seq<Byte>)
    requires |b| == 16
    ensures EntryOf(b).inum == b[0] as int + 256 * b[1] as int
    ensures var s := EntryOf(b).name;
      && |s| <= 14 && (|s| < 14 ==> b[2 + |s|] == 0)
      && forall i :: 0 <= i < |s| ==> b[2 + i] != 0 && s[i] == b[2 + i] as char
  {
    assert forall i :: 0 <= i < 14 ==> b[2..][i] == b[2 + i];
  }

  function Bytes(s: seq<Byte>, k: int): seq<Byte>
    requires 0 <= k && DIRENT * (k + 1) <= |s|
  {
    s[DIRENT * k..DIRENT * (k + 1)]
  }

  function Entries(s: seq<Byte>): (es: seq<Dirent>)
    ensures |es| == |s| / DIRENT
  {
    seq(|s| / DIRENT, k requires 0 <= k < |s| / DIRENT => EntryOf(Bytes(s, k)))
  }

  // A path element: no NUL in it, and every character a byte.
  predicate Plain(name: string) {
    forall i :: 0 <= i < |name| ==> 0 < name[i] as int < 256
  }

  function Padded(name: string): (s: seq<Byte>)
    requires Plain(name) && |name| <= DIRSIZ
    ensures |s| == DIRSIZ
  {
    seq(DIRSIZ, i requires 0 <= i < DIRSIZ => if i < |name| then name[i] as int else 0)
  }

  function EntryBytes(inum: U16, name: string): (s: seq<Byte>)
    requires Plain(name) && |name| <= DIRSIZ
    ensures |s| == DIRENT
  {
    [inum % 0x100, inum / 0x100] + Padded(name)
  }

  lemma {:induction false} CNameLength(b: seq<Byte>, m: nat)
    requires m <= |b| && (forall i :: 0 <= i < m ==> b[i] != 0) && (m < |b| ==> b[m] == 0)
    ensures |CName(b)| == m
  {
    if m > 0 {
      CNameLength(b[1..], m - 1);
    }
  }

  lemma EntryRound(inum: U16, name: string)
    requires Plain(name) && |name| <= DIRSIZ
    ensures EntryOf(EntryBytes(inum, name)) == Directories.Dirent(inum, name)
  {
    assert EntryBytes(inum, name)[2..] == Padded(name);
    CNameLength(Padded(name), |name|);
    assert CName(Padded(name)) == name;
  }

  lemma NamePlain(elem: string)
    requires Plain(elem)
    ensures Plain(Directories.Name(elem)) && |Directories.Name(elem)| <= DIRSIZ
  {
  }

  // The 16 bytes of an entry written at slot k, or behind the last one, put the entry there and leave the others.
  lemma EntriesPut(s: seq<Byte>, k: int, inum: U16, name: string)
    requires |s| % DIRENT == 0 && 0 <= k <= |s| / DIRENT && Plain(name) && |name| <= DIRSIZ
    ensures Entries(Overlay(s, DIRENT * k, EntryBytes(inum, name))) ==
      Directories.PutEntry(Entries(s), k, Directories.Dirent(inum, name))
  {
    var w := EntryBytes(inum, name);
    var s' := Overlay(s, DIRENT * k, w);
    EntryRound(inum, name);
    OverlayAt(s, DIRENT * k, w);
    var es, es' := Directories.PutEntry(Entries(s), k, Directories.Dirent(inum, name)), Entries(s');
    assert |es'| == |es|;
    forall e | 0 <= e < |es|
      ensures es'[e] == es[e]
    {
      if e == k {
        assert Bytes(s', e) == w;
      } else {
        assert Bytes(s', e) == Bytes(s, e);
      }
    }
  }

  // ---- strncmp and strncpy ----

  // Whether strncmp finds the name and the name in an entry equal.
  method Namecmp(name: string, de: seq<Byte>) returns (same: bool)
    requires Plain(name) && |de| == DIRSIZ
    ensures same <==> CName(de) == Directories.Name(name)
  {
    hide CName;
    var n := 0;
    while n < DIRSIZ && n < |name| && name[n] as int == de[n]
      invariant 0 <= n <= DIRSIZ && n <= |name|
      invariant forall i :: 0 <= i < n ==> name[i] as int == de[i]
    {
      n := n + 1;
    }
    ghost var s := CName(de);
    same := n == DIRSIZ || (n == |name| && de[n] == 0);
    if same {
      assert |s| == n;
      assert s == name[..n];
    }
  }

  method Strncpy(name: string) returns (s: seq<Byte>)
    requires Plain(name)
    ensures Plain(Directories.Name(name)) && s == Padded(Directories.Name(name))
  {
    NamePlain(name);
    s := [];
    while |s| < DIRSIZ && |s| < |name|
      invariant |s| <= DIRSIZ && |s| <= |name| && forall i :: 0 <= i < |s| ==> s[i] == name[i] as int
    {
      s := s + [name[|s|] as int];
    }
    while |s| < DIRSIZ
      invariant |s| <= DIRSIZ && (|s| < DIRSIZ ==> |name| <= |s|)
      invariant |name| <= DIRSIZ || |s| == DIRSIZ
      invariant forall i :: 0 <= i < |s| ==> s[i] == if i < |name| then name[i] as int else 0
    {
      s := s + [0];
    }
  }

  // ---- dirlookup ----

  // An entry's place in a block is its place in the file; past the end of the file there are only empty ones.
  lemma BlockEntry(d: seq<Block>, di: DInode, off: int, j: int)
    requires di.size <= MAXFILE * BSIZE && ZeroTail(d, di, di.size) && di.size % DIRENT == 0
    requires 0 <= off < di.size && off % BSIZE == 0 && 0 <= j < BSIZE / DIRENT
    requires Slot(d, di, FileSlot(off / BSIZE)) < |d|
    ensures var b, e := d[Slot(d, di, FileSlot(off / BSIZE))], off / DIRENT + j;
      if e < di.size / DIRENT then EntryOf(Bytes(b, j)) == Entries(Contents(d, di))[e]
        else EntryOf(Bytes(b, j)).inum == 0
  {
    hide Slot, Contents, ZeroTail;
    var b, e := d[Slot(d, di, FileSlot(off / BSIZE))], off / DIRENT + j;
    assert DIRENT * e == off + DIRENT * j;
    if e < di.size / DIRENT {
      EntryInside(d, di, off, j);
    } else {
      TailEntry(d, di, off, e);
      BlockByte(d, di, off, DIRENT * j);
      BlockByte(d, di, off, DIRENT * j + 1);
    }
  }

  lemma BlockByte(d: seq<Block>, di: DInode, off: int, x: int)
    requires 0 <= off && off % BSIZE == 0 && 0 <= x < BSIZE && off + x < MAXFILE * BSIZE
    requires Slot(d, di, FileSlot(off / BSIZE)) < |d|
    ensures d[Slot(d, di, FileSlot(off / BSIZE))][x] == ByteAt(d, di, off + x)
  {
    Inside(off, x);
  }

  lemma EntryInside(d: seq<Block>, di: DInode, off: int, j: int)
    requires di.size <= MAXFILE * BSIZE && 0 <= off && off % BSIZE == 0 && 0 <= j < BSIZE / DIRENT
    requires DIRENT * (off / DIRENT + j + 1) <= di.size && Slot(d, di, FileSlot(off / BSIZE)) < |d|
    ensures Bytes(d[Slot(d, di, FileSlot(off / BSIZE))], j) == Bytes(Contents(d, di), off / DIRENT + j)
  {
    hide Slot;
    var b, e := d[Slot(d, di, FileSlot(off / BSIZE))], off / DIRENT + j;
    assert DIRENT * e == off + DIRENT * j;
    forall x | 0 <= x < DIRENT
      ensures Bytes(b, j)[x] == Bytes(Contents(d, di), e)[x]
    {
      BlockByte(d, di, off, DIRENT * j + x);
    }
  }

  lemma Inside(off: int, x: int)
    requires 0 <= off && off % BSIZE == 0 && 0 <= x < BSIZE
    ensures (off + x) / BSIZE == off / BSIZE && (off + x) % BSIZE == x
  {
  }

  lemma TailEntry(d: seq<Block>, di: DInode, off: int, e: int)
    requires di.size <= MAXFILE * BSIZE && ZeroTail(d, di, di.size) && di.size % DIRENT == 0
    requires 0 <= off < di.size && off % BSIZE == 0 && di.size / DIRENT <= e && DIRENT * e + DIRENT <= off + BSIZE
    requires DIRENT * e + DIRENT <= MAXFILE * BSIZE
    ensures ByteAt(d, di, DIRENT * e) == 0 && ByteAt(d, di, DIRENT * e + 1) == 0
  {
    assert off + BSIZE <= BlockEnd(di.size);
  }

  // The inner loop: the first entry of the block with the name, or -1.
  method SearchBlock(bp: Block, name: string) returns (j: int)
    requires Plain(name)
    ensures -1 <= j < BSIZE / DIRENT
    ensures forall x :: 0 <= x < (if j == -1 then BSIZE / DIRENT else j) ==>
      !Directories.Matches(EntryOf(Bytes(bp, x)), Directories.Name(name))
    ensures j != -1 ==> Directories.Matches(EntryOf(Bytes(bp, j)), Directories.Name(name))
  {
    hide EntryOf, CName, Directories.Name, Directories.Matches;
    j := 0;
    while j < BSIZE / DIRENT
      invariant 0 <= j <= BSIZE / DIRENT
      invariant forall x :: 0 <= x < j ==> !Directories.Matches(EntryOf(Bytes(bp, x)), Directories.Name(name))
    {
      var de := bp[DIRENT * j..DIRENT * (j + 1)];
      MatchIs(Bytes(bp, j), Directories.Name(name));
      if de[0] as int + 0x100 * de[1] as int != 0 {
        var same := Namecmp(name, de[2..]);
        if same {
          return;
        }
      }
      j := j + 1;
    }
    j := -1;
  }

  // dirlookup scans whole blocks, past the end of the directory; what it finds is the first of the directory's entries
  // with the name. 0 is for none.
  method DirLookup(fs: FileSys, ip: Inode, name: string) returns (inum: U16, off: int)
    requires fs.Valid() && fs.Cached(ip) && ip.size % DIRENT == 0 && Plain(name)
    modifies fs`disk, fs`owner, ip`addrs
    ensures fs.disk == old(fs.disk) && fs.owner == old(fs.owner) && ip.addrs == old(ip.addrs)
    ensures fs.Valid() && fs.Cached(ip)
    ensures inum == 0 <==> Directories.Absent(Entries(fs.File(ip.inum)), Directories.Name(name))
    ensures inum != 0 ==>
      && off % DIRENT == 0 && Directories.Found(Entries(fs.File(ip.inum)), Directories.Name(name), off / DIRENT)
      && Entries(fs.File(ip.inum))[off / DIRENT].inum == inum
  {
    hide Owned, AllTight, Tight, Contents, SuperBlock, DecodeInode, Slot, ZeroTail, Entries, EntryOf;
    DirTail(fs, ip);
    ghost var d, di, want := fs.disk, ip.Copy(), Directories.Name(name);
    ghost var es := Entries(Contents(d, di));
    off := 0;
    while off < ip.size
      invariant 0 <= off && off % BSIZE == 0
      invariant fs.disk == d && fs.owner == old(fs.owner) && ip.addrs == old(ip.addrs)
      invariant forall e :: 0 <= e < off / DIRENT && e < |es| ==> !Directories.Matches(es[e], want)
    {
      var bp := fs.ReadBlock(ip, off / BSIZE);
      var j := SearchBlock(bp, name);
      BlockSearched(d, di, off, want, if j == -1 then BSIZE / DIRENT else j);
      if j != -1 {
        BlockEntry(d, di, off, j);
        EntryIs(Bytes(bp, j));
        var de := bp[DIRENT * j..DIRENT * (j + 1)];
        return de[0] as int + 0x100 * de[1] as int, off + DIRENT * j;
      }
      off := off + BSIZE;
    }
    return 0, off;
  }

  lemma MatchIs(b: seq<Byte>, want: string)
    requires |b| == DIRENT
    ensures Directories.Matches(EntryOf(b), want) <==> b[0] as int + 0x100 * b[1] as int != 0 && CName(b[2..]) == want
  {
  }

  lemma BlockSearched(d: seq<Block>, di: DInode, off: int, want: string, n: int)
    requires di.size <= MAXFILE * BSIZE && ZeroTail(d, di, di.size) && di.size % DIRENT == 0
    requires 0 <= off < di.size && off % BSIZE == 0 && 0 <= n <= BSIZE / DIRENT
    requires Slot(d, di, FileSlot(off / BSIZE)) < |d|
    requires var b := d[Slot(d, di, FileSlot(off / BSIZE))];
      forall x :: 0 <= x < n ==> !Directories.Matches(EntryOf(Bytes(b, x)), want)
    ensures var es := Entries(Contents(d, di));
      forall e :: off / DIRENT <= e < off / DIRENT + n && e < |es| ==> !Directories.Matches(es[e], want)
  {
    hide Slot, Contents, ZeroTail, Entries, EntryOf;
    var b, es := d[Slot(d, di, FileSlot(off / BSIZE))], Entries(Contents(d, di));
    forall e | off / DIRENT <= e < off / DIRENT + n && e < |es|
      ensures !Directories.Matches(es[e], want)
    {
      BlockEntry(d, di, off, e - off / DIRENT);
      assert !Directories.Matches(EntryOf(Bytes(b, e - off / DIRENT)), want);
    }
  }

  lemma DirTail(fs: FileSys, ip: Inode)
    requires fs.Valid() && fs.Cached(ip)
    ensures ip.size <= MAXFILE * BSIZE && ZeroTail(fs.disk, ip.Copy(), ip.size)
    ensures fs.File(ip.inum) == Contents(fs.disk, ip.Copy())
  {
    SizeBound(fs.disk, DiskTable(fs.geo, fs.disk), ip.inum);
  }

  // ---- dirlink ----

  // Slot of the first empty entry, or the end: dirlink's loop over readi.
  method EmptyEntry(fs: FileSys, ip: Inode) returns (off: int)
    requires fs.Valid() && fs.Cached(ip) && ip.kind != T_DEV && ip.size % DIRENT == 0
    modifies fs`disk, fs`owner, ip`addrs
    ensures fs.disk == old(fs.disk) && fs.owner == old(fs.owner) && ip.addrs == old(ip.addrs)
    ensures fs.Valid() && fs.Cached(ip) && 0 <= off <= ip.size && off % DIRENT == 0
    ensures Directories.Place(Entries(fs.File(ip.inum)), off / DIRENT)
  {
    hide Owned, AllTight, Tight, Contents, SuperBlock, DecodeInode, Slot, ZeroTail;
    DirTail(fs, ip);
    ghost var file := fs.File(ip.inum);
    off := 0;
    while off < ip.size
      invariant 0 <= off <= ip.size && off % DIRENT == 0
      invariant fs.disk == old(fs.disk) && fs.owner == old(fs.owner) && ip.addrs == old(ip.addrs)
      invariant forall e :: 0 <= e < off / DIRENT ==> Entries(file)[e].inum != 0
    {
      var r, de := fs.Readi(ip, off, DIRENT);
      assert de == Bytes(file, off / DIRENT);
      if de[0] as int + 0x100 * de[1] as int == 0 {
        return;
      }
      off := off + DIRENT;
    }
  }

  // dirlink puts the entry where DirOps says and ends as it says, the free blocks being those that no file owns;
  // a Panic or NoBlock of writei is the end of the model.
  method DirLink(fs: FileSys, ip: Inode, name: string, inum: U16) returns (r: DirOps.Status, ghost k: int)
    requires fs.Valid() && fs.Cached(ip) && ip.kind != T_DEV && ip.size % DIRENT == 0 && Plain(name)
    modifies fs`disk, fs`owner, ip`addrs, ip`size
    ensures r == DirOps.Error <==> !Directories.Absent(old(Entries(fs.File(ip.inum))), Directories.Name(name))
    ensures r != DirOps.Error ==>
      && Directories.Place(old(Entries(fs.File(ip.inum))), k)
      && r == DirOps.PutStatus(old(Entries(fs.File(ip.inum))), k, DataCount(fs.geo) - |old(fs.owner)|)
    ensures r == DirOps.Error ==> fs.disk == old(fs.disk) && fs.owner == old(fs.owner) && ip.Copy() == old(ip.Copy())
    ensures r == DirOps.Ok ==>
      && fs.Valid() && fs.Cached(ip) && ip.size % DIRENT == 0
      && Entries(fs.File(ip.inum)) ==
           Directories.PutEntry(old(Entries(fs.File(ip.inum))), k, Directories.Dirent(inum, Directories.Name(name)))
      && |fs.owner| == |old(fs.owner)| + DirOps.Needs(old(Entries(fs.File(ip.inum))), k)
      && forall j :: 0 <= j < fs.geo.ninodes && j != ip.inum ==>
           fs.File(j) == old(fs.File(j)) && DiskTable(fs.geo, fs.disk)[j] == old(DiskTable(fs.geo, fs.disk)[j])
  {
    hide Owned, AllTight, Tight, Contents, SuperBlock, DecodeInode, Slot, ZeroTail, Entries, BlocksFor, SpareBit;
    hide Directories.Absent, Directories.Place, Overlay;
    DirTail(fs, ip);
    k := 0;
    var there, at := DirLookup(fs, ip, name);
    if there != 0 {
      return DirOps.Error, 0;
    }
    var off := EmptyEntry(fs, ip);
    ghost var file := fs.File(ip.inum);
    k := off / DIRENT;
    var padded := Strncpy(name);
    var de := [inum % 0x100, inum / 0x100] + padded;
    EntriesPut(file, k, inum, Directories.Name(name));
    assert de == EntryBytes(inum, Directories.Name(name)) && off == DIRENT * k && de[..DIRENT] == de;
    OverlayAt(file, off, de);
    OwnersAreData(fs.geo, fs.disk, DiskTable(fs.geo, fs.disk), fs.owner);
    SizeOfPut(file, k, |fs.owner|, DataCount(fs.geo));
    var w := fs.Writei(ip, de, off);
    if w.Count? && w.n == DIRENT {
      return DirOps.Ok, k;
    }
    return if w.Count? then DirOps.Panic else DirOps.NoBlock, k;
  }

  // The blocks that writei needs for an entry are those of DirOps.
  lemma SizeOfPut(s: seq<Byte>, k: int, used: int, all: int)
    requires |s| % DIRENT == 0 && |s| <= MAXFILE * BSIZE && 0 <= k <= |s| / DIRENT && used <= all
    ensures k == Directories.MAXENTRIES ==> BlocksAfter(used, |s|, DIRENT * k, DIRENT) == used
    ensures k < Directories.MAXENTRIES ==>
      BlocksAfter(used, |s|, DIRENT * k, DIRENT) == used + DirOps.Needs(Entries(s), k)
    ensures k <= Directories.MAXENTRIES
  {
  }
}
