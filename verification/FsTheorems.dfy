/** What the file system invariant says, in terms of blocks, slots and file sizes alone. */
module FsTheorems {
  import opened Basics
  import opened DiskFormat
  import opened FsLayout
  import opened FsOwnership
  import opened FsFiles
  import opened FsTruncate
  import opened FileSystem

  // A data block's bit is set exactly when some inode slot names the block, then only one does,
  // and a block whose bit is clear is all zeros.
  lemma OneSlotPerBlock(g: Geo, d: seq<Block>, t: seq<DInode>, owner: map<int, Name>, b: int)
    requires Owned(g, d, t, owner) && IsData(g, b)
    ensures Used(g, d, b) <==> exists i, k :: 0 <= i < |t| && 0 <= k < SLOTS && Slot(d, t[i], k) == b
    ensures !Used(g, d, b) ==> d[b] == ZeroBlock()
    ensures forall i, k, i', k' {:trigger Slot(d, t[i], k), Slot(d, t[i'], k')} ::
      (0 <= i < |t| && 0 <= k < SLOTS && 0 <= i' < |t| && 0 <= k' < SLOTS
        && Slot(d, t[i], k) == b == Slot(d, t[i'], k'))
      ==> i == i' && k == k'
  {
    if Used(g, d, b) {
      assert b in owner && Slot(d, t[owner[b].inum], owner[b].slot) == b;
    }
  }

  // balloc does not compare what it finds with the file system size. A full file system of 1024 blocks,
  // whose bitmap block has 4096 bits, makes it answer 1024; it stays inside exactly when some block is free.

  function FullBitmap(): Block {
    seq(512, x => if x < 128 then 255 else 0)
  }

  function FullDisk(): seq<Block> {
    seq<Block>(1024, _ => ZeroBlock())[28 := FullBitmap()]
  }

  lemma BallocPastTheEnd()
    ensures var g, d := Geo(1024, 200), FullDisk();
      && Sane(g, |d|) && 1024 < ScanLimit(g)
      && (forall c :: 0 <= c < 1024 ==> Used(g, d, c)) && !Used(g, d, 1024)
  {
    forall c | 0 <= c < 1024
      ensures TestBit(255, c % 8)
    {
      AllBits(c % 8);
    }
    assert FullDisk()[28] == FullBitmap();
    assert !TestBit(0, 0);
  }

  lemma AllBits(k: nat)
    requires k < 8
    ensures TestBit(255, k)
  {
    assert TestBit(127, 6) by {
      assert TestBit(31, 4) && TestBit(7, 2);
    }
    assert TestBit(1, 0) && TestBit(3, 1) && TestBit(7, 2) && TestBit(15, 3) && TestBit(31, 4) && TestBit(63, 5)
      && TestBit(127, 6);
  }

  lemma BallocInside(g: Geo, d: seq<Block>, v: int)
    requires Sane(g, |d|) && 0 <= v < ScanLimit(g) && !Used(g, d, v) && forall c :: 0 <= c < v ==> Used(g, d, c)
    ensures v < g.size <==> exists b :: 0 <= b < g.size && !Used(g, d, b)
  {
    if b :| 0 <= b < g.size && !Used(g, d, b) {
      assert g.size <= ScanLimit(g);
      assert !(b < v);
    }
  }

  // ---- conservation: the blocks in use are those the file sizes call for ----

  ghost function BlocksOfAll(t: seq<DInode>, n: nat): int
    requires n <= |t|
  {
    if n == 0 then 0 else BlocksOfAll(t, n - 1) + BlocksFor(t[n - 1].size)
  }

  // The blocks named by inodes below i and by inode i's slots below k.
  ghost function Below(owner: map<int, Name>, i: int, k: int): set<int> {
    set b | b in owner && (owner[b].inum < i || (owner[b].inum == i && owner[b].slot < k))
  }

  ghost function SlotCount(d: seq<Block>, di: DInode, k: nat): nat
    requires k <= SLOTS
  {
    if k == 0 then 0 else SlotCount(d, di, k - 1) + if Slot(d, di, k - 1) != 0 then 1 else 0
  }

  lemma {:induction false} BelowSlots(g: Geo, d: seq<Block>, t: seq<DInode>, owner: map<int, Name>, i: int, k: nat)
    requires SlotsOwned(d, t, owner) && OwnersNamed(g, d, t, owner) && 0 <= i < |t| && k <= SLOTS
    ensures |Below(owner, i, k)| == |Below(owner, i, 0)| + SlotCount(d, t[i], k)
    decreases k
  {
    if k > 0 {
      BelowSlots(g, d, t, owner, i, k - 1);
      var b := Slot(d, t[i], k - 1);
      forall x | x in owner && owner[x] == Name(i, k - 1)
        ensures x == b != 0
      {
        assert Slot(d, t[owner[x].inum], owner[x].slot) == x;
      }
      if b != 0 {
        assert owner[b] == Name(i, k - 1);
        assert Below(owner, i, k) == Below(owner, i, k - 1) + {b} && b !in Below(owner, i, k - 1);
      } else {
        assert Below(owner, i, k) == Below(owner, i, k - 1);
      }
    }
  }

  // Slots used by a tight file: the direct ones it needs, then the indirect block, then the entries it needs.
  lemma {:induction false} TightSlotCount(d: seq<Block>, di: DInode, size: int, k: nat)
    requires Tight(d, di, size) && k <= SLOTS
    ensures SlotCount(d, di, k) ==
      Min(Min(k, NDIRECT), Ceil(size)) + (if k > NDIRECT && size > NDIRECT * BSIZE then 1 else 0)
      + (if k > NDIRECT + 1 then Max(0, Min(k - 1, Ceil(size)) - NDIRECT) else 0)
    decreases k
  {
    if k > 0 {
      TightSlotCount(d, di, size, k - 1);
      if k - 1 < NDIRECT {
        assert FileSlot(k - 1) == k - 1;
      } else if k - 1 > NDIRECT {
        assert FileSlot(k - 2) == k - 1;
      } else {
        assert Slot(d, di, k - 1) == di.addrs[NDIRECT];
      }
    }
  }

  function Ceil(size: int): int {
    (size + BSIZE - 1) / BSIZE
  }

  lemma TightBlocks(d: seq<Block>, di: DInode, size: int)
    requires Tight(d, di, size)
    ensures SlotCount(d, di, SLOTS) == BlocksFor(size)
  {
    TightSlotCount(d, di, size, SLOTS);
  }

  lemma {:induction false} BelowInodes(g: Geo, d: seq<Block>, t: seq<DInode>, owner: map<int, Name>, n: nat)
    requires SlotsOwned(d, t, owner) && OwnersNamed(g, d, t, owner) && AllTight(d, t) && n <= |t|
    ensures |Below(owner, n, 0)| == BlocksOfAll(t, n)
    decreases n
  {
    if n == 0 {
      forall x | x in owner
        ensures x !in Below(owner, 0, 0)
      {
        assert owner[x].inum >= 0 && owner[x].slot >= 0;
      }
      assert Below(owner, 0, 0) == {};
    } else {
      BelowInodes(g, d, t, owner, n - 1);
      BelowSlots(g, d, t, owner, n - 1, SLOTS);
      TightBlocks(d, t[n - 1], t[n - 1].size);
      forall x | x in owner
        ensures x in Below(owner, n, 0) <==> x in Below(owner, n - 1, SLOTS)
      {
        assert 0 <= owner[x].slot < SLOTS;
      }
      assert Below(owner, n, 0) == Below(owner, n - 1, SLOTS);
    }
  }

  // The number of blocks in use is the sum of what the file sizes call for.
  lemma BlocksConserved(g: Geo, d: seq<Block>, t: seq<DInode>, owner: map<int, Name>)
    requires Owned(g, d, t, owner) && AllTight(d, t)
    ensures |owner| == BlocksOfAll(t, |t|)
    ensures (set b | DataStart(g) <= b < g.size && Used(g, d, b)) == owner.Keys
  {
    OwnedNames(g, d, t, owner);
    BelowInodes(g, d, t, owner, |t|);
    forall x | x in owner
      ensures x in Below(owner, |t|, 0) && IsData(g, x) && Used(g, d, x)
    {
      assert owner[x].inum < |t|;
    }
    assert Below(owner, |t|, 0) == owner.Keys;
    assert |owner.Keys| == |owner|;
  }

  // ---- a write followed by a read ----

  // Whatever range is read after a successful write, the bytes are those of the array with the write laid over it.
  method WriteThenRead(fs: FileSys, ip: Inode, src: seq<Byte>, off: U32, from: U32, n: U32)
    returns (w: IoResult, r: IoResult, dst: seq<Byte>)
    requires fs.Valid() && fs.Cached(ip) && |src| < 0x1_0000_0000
    requires from + n < 0x1_0000_0000
    modifies fs`disk, fs`owner, ip`addrs, ip`size
    ensures w.Count? ==>
      && off <= |old(fs.File(ip.inum))| && w.n <= |src|
      && var file := Overlay(old(fs.File(ip.inum)), off, src[..w.n]);
         (from <= |file| ==> r.Count? && r.n == Min(n, |file| - from) && dst == file[from..from + r.n])
  {
    w := fs.Writei(ip, src, off);
    r, dst := Error, [];
    if w.Count? {
      r, dst := fs.Readi(ip, from, n);
    }
  }
}
