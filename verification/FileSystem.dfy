/** The block and file layers of xv6/kernel/fs.c: balloc, bfree, bmap, itrunc, readi, writei. */
module FileSystem {
  import opened Basics
  import opened DiskFormat
  import opened FsLayout
  import opened FsOwnership
  import opened FsFiles
  import opened FsTruncate

  // Stop: the kernel panics. Outside: balloc has answered with a block beyond the end of the file system, which the
  // code takes for any other; what it then reads and writes lies outside the file system, and the model ends there.
  datatype Outcome<T> = Ok(value: T) | Outside(block: U32) | Stop

  // What readi and writei return: a byte count, -1, or (for T_DEV) whatever the device driver does; or how they end.
  datatype IoResult = Count(n: nat) | Error | Device | Lost(block: U32) | Panic

  const T_DEV := 3

  // The in-memory copy of an inode.
  class Inode {
    const inum: U32
    var kind: U16
    var major: U16
    var minor: U16
    var nlink: U16
    var size: U32
    var addrs: Addrs
    var ref: int      // references from open files and working directories
    var valid: bool   // I_VALID: the fields above have been read from disk
    var busy: bool    // I_BUSY: some process holds the inode's lock

    function Copy(): DInode
      reads this
    {
      DInode(kind, major, minor, nlink, size, addrs)
    }
  }

  class FileSys {
    var disk: seq<Block>
    const geo: Geo
    ghost var owner: map<int, Name>  // which inode slot names each allocated data block

    ghost predicate Mounted()
      reads this
    {
      Sane(geo, |disk|) && SuperBlock(disk[1]) == geo
    }

    // The inode table, with the in-memory copy of one inode in place of its disk copy.
    ghost function Live(ip: Inode): seq<DInode>
      requires Mounted() && ip.inum < geo.ninodes
      reads this, ip
    {
      DiskTable(geo, disk)[ip.inum := ip.Copy()]
    }

    // Holds while an operation works on ip.
    ghost predicate Held(ip: Inode)
      reads this, ip
    {
      Mounted() && ip.inum < geo.ninodes && Owned(geo, disk, Live(ip), owner)
    }

    // Sector transfer through the buffer cache.
    method Bread(b: int) returns (data: Block)
      requires 0 <= b < |disk|
      ensures data == disk[b]
    {
      data := disk[b];
    }

    method Bwrite(b: int, data: Block)
      requires 0 <= b < |disk|
      modifies this`disk
      ensures disk == old(disk)[b := data]
    {
      disk := disk[b := data];
    }

    method Readsb() returns (sb: Geo)
      requires Mounted()
      ensures sb == geo
    {
      var bp := Bread(1);
      sb := SuperBlock(bp);
    }

    // The lowest clear bit of the bitmap, which is then set; or panic when there is none.
    method Balloc() returns (r: Outcome<U32>)
      requires Mounted()
      modifies this`disk
      ensures !r.Outside?
      ensures r.Stop? ==> disk == old(disk) && forall c :: 0 <= c < ScanLimit(geo) ==> Used(geo, disk, c)
      ensures r.Ok? ==>
        && r.value < ScanLimit(geo) && !Used(geo, old(disk), r.value)
        && (forall c :: 0 <= c < r.value ==> Used(geo, old(disk), c))
        && disk == SetUsed(geo, old(disk), r.value, true)
      // The same on the bytes of the bitmap.
      ensures r.Stop? ==> AllOnes(old(disk), geo.ninodes / 8 + 3, (geo.size + 4095) / 4096 + geo.ninodes / 8 + 3)
      ensures r.Ok? ==> LowestTaken(geo, old(disk), disk, r.value)
    {
      hide Used, SetUsed, Bit, SuperBlock, ScanLimit, PutBit, AllOnes, LowestTaken;
      var sb := Readsb();
      var b := 0;
      NoOnes(geo, disk);
      ScanStart(geo);
      while b < sb.size
        invariant 0 <= b <= ScanLimit(geo) && b % BPB == 0
        invariant disk == old(disk)
        invariant forall c :: 0 <= c < b ==> Used(geo, disk, c)
        invariant AllOnes(disk, geo.ninodes / 8 + 3, b / 4096 + geo.ninodes / 8 + 3)
      {
        var bp := Bread(BBlock(sb, b));
        var bi := FirstClear(bp);
        BlockScanned(geo, disk, b, bi);
        if bi < BPB {
          Bwrite(BBlock(sb, b), PutBit(bp, bi, true));
          TakenBytes(geo, old(disk), b, bi);
          return Ok(b + bi);
        }
        OnesMore(geo, disk, b);
        b := b + BPB;
      }
      ScanDone(geo, b);
      return Stop;
    }

    // What balloc's answer is to the file code. While a data block is free, it is one of them. When all are owned,
    // balloc panics if no bit is left in the bitmap blocks, and answers with a block past the end if one is.
    method NewBlock() returns (r: Outcome<U32>)
      requires Mounted() && BitsMatch(geo, disk, owner) && forall b :: b in owner ==> IsData(geo, b)
      modifies this`disk
      ensures r.Ok? <==> |owner| < DataCount(geo)
      ensures r.Stop? <==> |owner| == DataCount(geo) && !SpareBit(geo, old(disk))
      ensures r.Stop? ==> disk == old(disk)
      ensures r.Outside? ==> PastEnd(geo, r.block) && !Used(geo, old(disk), r.block)
      ensures r.Outside? ==> disk == SetUsed(geo, old(disk), r.block, true)
      ensures r.Ok? ==> IsData(geo, r.value) && r.value !in owner && disk == SetUsed(geo, old(disk), r.value, true)
    {
      FreeBlockExists(geo, owner);
      OwnersAtMost(geo, owner);
      ScanStart(geo);
      hide SetUsed, SuperBlock, ScanLimit;
      r := Balloc();
      if r.Ok? && r.value >= geo.size {
        assert forall b :: IsData(geo, b) ==> Used(geo, old(disk), b);
        assert PastEnd(geo, r.value);
        r := Outside(r.value);
      }
    }

    // Slot k of the inode itself; when it is empty, a new block is put there.
    method InodeSlot(ip: Inode, k: int) returns (r: Outcome<U32>)
      requires Held(ip) && 0 <= k <= NDIRECT
      modifies this`disk, this`owner, ip`addrs
      ensures old(ip.addrs[k]) != 0 ==>
        r == Ok(ip.addrs[k]) && disk == old(disk) && owner == old(owner) && ip.addrs == old(ip.addrs)
      ensures old(ip.addrs[k]) == 0 ==> (r.Ok? <==> |old(owner)| < DataCount(geo))
      ensures old(ip.addrs[k]) == 0 ==> (r.Stop? <==> |old(owner)| == DataCount(geo) && !SpareBit(geo, old(disk)))
      ensures old(ip.addrs[k]) == 0 && r.Ok? ==>
        Held(ip) && Taken(geo, old(disk), old(ip.Copy()), old(owner), disk, ip.Copy(), owner, ip.inum, k, r.value)
      ensures r.Ok? ==> SameTail(geo, old(disk), disk)
      ensures r.Outside? ==> PastEnd(geo, r.block) && ip.addrs == old(ip.addrs)[k := r.block]
    {
      hide Owned, BitsMatch, Taken, SuperBlock, Used, DecodeInode, SpareBit, SetUsed;
      OwnersAreData(geo, disk, Live(ip), owner);
      OwnedBits(geo, disk, Live(ip), owner);
      SlotIsEmpty(disk, ip.Copy(), k);
      if ip.addrs[k] != 0 {
        return Ok(ip.addrs[k]);
      }
      r := NewBlock();
      if r.Outside? {
        ip.addrs := ip.addrs[k := r.block];
      } else if r.Ok? {
        TailAfterTake(geo, old(disk), r.value);
        TakeInCore(geo, old(disk), owner, ip.inum, ip.Copy(), k, r.value);
        ip.addrs := ip.addrs[k := r.value];
        owner := owner[r.value := Name(ip.inum, k)];
        assert ip.Copy() == SlotInode(old(ip.Copy()), k, r.value);
      }
    }

    // Entry j of the indirect block; when it is empty, a new block is put there.
    method IndirectEntry(ip: Inode, j: int) returns (r: Outcome<U32>)
      requires Held(ip) && 0 <= j < NINDIRECT && IsData(geo, ip.addrs[NDIRECT])
      modifies this`disk, this`owner
      ensures |disk| == |old(disk)|
      ensures Word(old(disk)[ip.addrs[NDIRECT]], j) != 0 ==>
        disk == old(disk) && owner == old(owner) && r == Ok(Word(disk[ip.addrs[NDIRECT]], j))
      ensures Word(old(disk)[ip.addrs[NDIRECT]], j) == 0 ==>
        (r.Ok? <==> |old(owner)| < DataCount(geo)) &&
        (r.Stop? <==> |old(owner)| == DataCount(geo) && !SpareBit(geo, old(disk)))
      ensures Word(old(disk)[ip.addrs[NDIRECT]], j) == 0 && r.Ok? ==>
        Held(ip) && Taken(geo, old(disk), ip.Copy(), old(owner), disk, ip.Copy(), owner, ip.inum, NDIRECT + 1 + j,
          r.value)
      ensures r.Ok? ==> SameTail(geo, old(disk), disk)
      ensures r.Outside? ==> PastEnd(geo, r.block) && Word(disk[ip.addrs[NDIRECT]], j) == r.block
    {
      hide SuperBlock, Used, DecodeInode, ScanLimit, Word, PutWord;
      var bp := Bread(ip.addrs[NDIRECT]);
      if Word(bp, j) != 0 {
        return Ok(Word(bp, j));
      }
      r := NewBlock();
      if r.Outside? {
        SetUsedEffect(geo, old(disk), r.block, true);
        WordPutWord(bp, j, r.block, j);
        Bwrite(ip.addrs[NDIRECT], PutWord(bp, j, r.block));
      } else if r.Ok? {
        TailAfterTake(geo, old(disk), r.value);
        TakeEntry(geo, old(disk), owner, ip.inum, ip.Copy(), j, r.value, bp);
        TailAfterWrite(geo, disk, ip.addrs[NDIRECT], PutWord(bp, j, r.value));
        SameTailTwice(geo, old(disk), disk, disk[ip.addrs[NDIRECT] := PutWord(bp, j, r.value)]);
        Bwrite(ip.addrs[NDIRECT], PutWord(bp, j, r.value));
        owner := owner[r.value := Name(ip.inum, NDIRECT + 1 + j)];
      }
    }

    // The disk block of the bn-th block of ip, allocated (and its indirect block too) if there is none. When the
    // blocks needed are not there, the kernel panics, or ip comes to name a block past the end.
    method Bmap(ip: Inode, bn: int) returns (r: Outcome<U32>)
      requires Held(ip) && 0 <= bn < MAXFILE
      modifies this`disk, this`owner, ip`addrs
      ensures r.Ok? <==> |old(owner)| + MapCost(old(disk), old(ip.Copy()), bn) <= DataCount(geo)
      ensures !r.Ok? ==> (r.Stop? <==> !SpareBit(geo, old(disk)))
      ensures r.Ok? ==> Held(ip) && SameTail(geo, old(disk), disk)
      ensures r.Ok? ==> Mapped(geo, old(disk), old(ip.Copy()), old(owner), disk, ip.Copy(), owner, ip.inum, bn, r.value)
      ensures r.Outside? ==> PastEnd(geo, r.block) && Names(disk, ip.Copy(), r.block)
    {
      if bn < NDIRECT {
        ReachSlot(geo, disk, Live(ip), owner, ip.inum, bn);
        hide Owned, Taken, Mapped, SuperBlock, DecodeInode, Used, SameTail, SpareBit, PastEnd;
        r := InodeSlot(ip, bn);
        if r.Ok? {
          if old(ip.addrs[bn]) == 0 {
            MappedOne(geo, old(disk), old(ip.Copy()), old(owner), disk, ip.Copy(), owner, ip.inum, bn, r.value);
          } else {
            MappedNone(geo, disk, ip.Copy(), owner, ip.inum, bn, r.value);
          }
        } else if r.Outside? {
          assert Slot(disk, ip.Copy(), bn) == r.block;
        }
      } else {
        r := BmapIndirect(ip, bn);
      }
    }

    method BmapIndirect(ip: Inode, bn: int) returns (r: Outcome<U32>)
      requires Held(ip) && NDIRECT <= bn < MAXFILE
      modifies this`disk, this`owner, ip`addrs
      ensures r.Ok? <==> |old(owner)| + MapCost(old(disk), old(ip.Copy()), bn) <= DataCount(geo)
      ensures !r.Ok? ==> (r.Stop? <==> !SpareBit(geo, old(disk)))
      ensures r.Ok? ==> Held(ip) && SameTail(geo, old(disk), disk)
      ensures r.Ok? ==> Mapped(geo, old(disk), old(ip.Copy()), old(owner), disk, ip.Copy(), owner, ip.inum, bn, r.value)
      ensures r.Outside? ==> PastEnd(geo, r.block) && Names(disk, ip.Copy(), r.block)
    {
      hide Owned, Taken, Mapped, SuperBlock, Word, DecodeInode, Used, SameTail, SpareBit, PastEnd;
      ghost var i, t0 := ip.inum, Live(ip);
      ReachSlot(geo, disk, t0, owner, i, bn);
      r := InodeSlot(ip, NDIRECT);
      if !r.Ok? {
        assert Slot(disk, ip.Copy(), NDIRECT) == ip.addrs[NDIRECT];
        return;
      }
      ghost var m, mi, mowner, a := disk, ip.Copy(), owner, r.value;
      IndirectReady(geo, old(disk), old(ip.Copy()), old(owner), m, mi, mowner, i, a, bn);
      ReachSlot(geo, m, Live(ip), mowner, i, bn);
      SameSpare(geo, old(disk), m);
      r := IndirectEntry(ip, bn - NDIRECT);
      if r.Ok? {
        SameTailTwice(geo, old(disk), m, disk);
        MappedIndirect(geo, old(disk), old(ip.Copy()), old(owner), m, mi, mowner,
                       disk, ip.Copy(), owner, i, bn, a, r.value);
      } else if r.Outside? {
        assert Slot(disk, ip.Copy(), FileSlot(bn)) == r.block;
      }
    }

    // Zero block b and clear its bit; false is the "freeing free block" panic.
    method Bfree(b: U32) returns (ok: bool)
      requires Mounted() && IsData(geo, b)
      modifies this`disk
      ensures ok == Used(geo, old(disk), b)
      ensures ok ==> disk == Freed(geo, old(disk), b)
      ensures |disk| == |old(disk)|
      // On the bytes of the bitmap block.
      ensures var blk, k, m := b / 4096 + geo.ninodes / 8 + 3, b % 4096 / 8, [1, 2, 4, 8, 16, 32, 64, 128][b % 8];
        && 0 <= blk < |disk| && b != blk
        && var x := old(disk)[blk][k] as int;
           && (ok <==> x / m % 2 == 1)
           && (ok ==> 0 <= x - m && disk == old(disk)[b := seq(512, _ => 0)][blk := old(disk)[blk][k := x - m]])
    {
      hide Bit, PutBit;
      UsedIs(geo, old(disk), b);
      UsedIs(geo, old(disk)[b := ZeroBlock()], b);
      if Used(geo, old(disk), b) {
        SetUsedIs(geo, old(disk)[b := ZeroBlock()], b, false);
      }
      Bwrite(b, ZeroBlock());
      var sb := Readsb();
      var bp := Bread(BBlock(sb, b));
      var bi := b % BPB;
      if !Bit(bp, bi) {
        return false;
      }
      Bwrite(BBlock(sb, b), PutBit(bp, bi, false));
      return true;
    }

    // Copy the in-memory inode to disk.
    method Iupdate(ip: Inode)
      requires Mounted() && ip.inum < geo.ninodes
      modifies this`disk
      ensures disk == StoreInode(old(disk), ip.inum, ip.Copy())
    {
      var bp := Bread(IBlock(ip.inum));
      Bwrite(IBlock(ip.inum), PutWords(bp, 16 * (ip.inum % IPB), InodeWords(ip.Copy())));
    }

    // ---- whole files ----

    // The state between operations: no block is misplaced, and files have exactly the blocks their sizes need.
    ghost predicate Valid()
      reads this
    {
      Mounted() && Owned(geo, disk, DiskTable(geo, disk), owner) && AllTight(disk, DiskTable(geo, disk))
    }

    // ip is the in-memory copy of its disk inode, which is in use: ilock panics on a free one.
    ghost predicate Cached(ip: Inode)
      reads this, ip
    {
      Mounted() && ip.inum < geo.ninodes && DiskTable(geo, disk)[ip.inum] == ip.Copy() && ip.kind != 0
    }

    ghost function File(i: int): seq<Byte>
      requires Valid() && 0 <= i < geo.ninodes
      reads this
    {
      Contents(disk, DiskTable(geo, disk)[i])
    }

    // One turn of writei's loop: the bytes w go to position o, within one block.
    method WriteChunk(ip: Inode, o: int, w: seq<Byte>, ghost cover: int) returns (r: Outcome<U32>)
      requires Held(ip) && Tight(disk, ip.Copy(), cover)
      requires 0 <= o <= cover && 0 < |w| && o % BSIZE + |w| <= BSIZE && o / BSIZE < MAXFILE
      modifies this`disk, this`owner, ip`addrs
      ensures r.Ok? <==> |old(owner)| + BlocksFor(Max(cover, o + |w|)) - BlocksFor(cover) <= DataCount(geo)
      ensures !r.Ok? ==> (r.Stop? <==> !SpareBit(geo, old(disk)))
      ensures r.Outside? ==> PastEnd(geo, r.block) && Names(disk, ip.Copy(), r.block)
      ensures r.Ok? ==>
        && Mounted() && DiskTable(geo, disk) == old(DiskTable(geo, disk))
        && Copied(geo, old(disk), old(Live(ip)), old(owner), disk, Live(ip), owner, ip.inum, cover, o, w)
        && (o + |w| <= cover ==> ip.addrs == old(ip.addrs))
    {
      hide Owned, Mapped, Stepped, Tight, KeptOthers, SuperBlock, BlocksFor, SameTail, SpareBit, PastEnd, Names;
      ghost var t := Live(ip);
      assert t == DiskTable(geo, disk)[ip.inum := t[ip.inum]];
      MapCostIs(disk, ip.Copy(), o / BSIZE, cover, o + |w|);
      r := Bmap(ip, o / BSIZE);
      if !r.Ok? {
        return;
      }
      ghost var m := disk;
      Unchanged(geo, old(disk), old(ip.Copy()), old(owner), disk, ip.Copy(), owner, ip.inum, o, r.value, cover);
      Step(geo, old(disk), t, old(owner), disk, ip.Copy(), owner, ip.inum, r.value, cover, o, w);
      MappedFacts(geo, old(disk), old(ip.Copy()), old(owner), disk, ip.Copy(), owner, ip.inum, o / BSIZE, r.value);
      var bp := Bread(r.value);
      TailAfterWrite(geo, m, r.value, Patch(bp, o % BSIZE, w));
      Bwrite(r.value, Patch(bp, o % BSIZE, w));
      SameTailTwice(geo, old(disk), m, disk);
      assert Live(ip) == t[ip.inum := ip.Copy()];
    }

    // The loop of writei: the bytes w go to off and following, block by block.
    method CopyIn(ip: Inode, w: seq<Byte>, off: int) returns (r: Outcome<int>)
      requires Valid() && Cached(ip) && 0 <= off <= ip.size && off + |w| <= MAXFILE * BSIZE
      modifies this`disk, this`owner, ip`addrs
      ensures r.Ok? <==> |old(owner)| + BlocksFor(Max(ip.size, off + |w|)) - BlocksFor(ip.size) <= DataCount(geo)
      ensures !r.Ok? ==> (r.Stop? <==> !SpareBit(geo, old(disk)))
      ensures r.Outside? ==> PastEnd(geo, r.block) && Names(disk, ip.Copy(), r.block)
      ensures r.Ok? ==>
        && Mounted() && DiskTable(geo, disk) == old(DiskTable(geo, disk))
        && Copied(geo, old(disk), old(DiskTable(geo, disk)), old(owner), disk, Live(ip), owner, ip.inum, ip.size, off,
             w)
        && (off + |w| <= ip.size ==> ip.addrs == old(ip.addrs))
    {
      hide AllTight, DecodeInode, SuperBlock, BlocksFor, Copied, SpareBit, PastEnd, Names, Owned, Tight, Max, Min;
      hide Stepped, KeptOthers, DataCount, DataStart, Used;
      ghost var d0, t0, owner0, size0 := disk, DiskTable(geo, disk), owner, ip.size;
      assert Live(ip) == t0 && t0[ip.inum].size == size0;
      NothingCopied(geo, disk, t0, owner, ip.inum, off);
      var tot, o := 0, off;
      assert w[..tot] == [];
      while tot < |w|
        invariant 0 <= tot <= |w| && o == off + tot
        invariant Mounted() && DiskTable(geo, disk) == t0
        invariant Copied(geo, d0, t0, owner0, disk, Live(ip), owner, ip.inum, size0, off, w[..tot])
        invariant o <= size0 ==> ip.addrs == old(ip.addrs)
      {
        ghost var d1, t1, owner1 := disk, Live(ip), owner;
        var m := Min(|w| - tot, BSIZE - o % BSIZE);
        CopiedFacts(geo, d0, t0, owner0, disk, t1, owner, ip.inum, size0, off, w[..tot]);
        ChunkFits(size0, o, |w| - tot, m);
        var c := WriteChunk(ip, o, w[tot..tot + m], Max(size0, o));
        if !c.Ok? {
          return if c.Stop? then Stop else Outside(c.block);
        }
        CopiedTwice(geo, d0, t0, owner0, d1, t1, owner1, disk, Live(ip), owner, ip.inum, size0, off, w[..tot],
          w[tot..tot + m]);
        assert w[..tot] + w[tot..tot + m] == w[..tot + m];
        tot, o := tot + m, o + m;
      }
      assert w[..tot] == w;
      CopiedFacts(geo, d0, t0, owner0, disk, Live(ip), owner, ip.inum, size0, off, w);
      r := Ok(tot);
    }

    // Store src at off. A device inode goes to its driver; a bad offset is refused; bytes past the largest file
    // size are dropped. When the blocks the longer file needs are not there, the kernel panics if the bitmap blocks
    // have no clear bit left, and otherwise the inode comes to name a block past the end of the file system.
    method Writei(ip: Inode, src: seq<Byte>, off: U32) returns (r: IoResult)
      requires Valid() && Cached(ip) && |src| < 0x1_0000_0000
      modifies this`disk, this`owner, ip`addrs, ip`size
      ensures r.Device? <==> ip.kind == 3
      ensures r.Error? <==> ip.kind != 3 && (off > old(ip.size) || off + |src| >= 0x1_0000_0000)
      ensures r.Device? || r.Error? ==>
        disk == old(disk) && owner == old(owner) && ip.addrs == old(ip.addrs) && ip.size == old(ip.size)
      ensures !r.Device? && !r.Error? ==>
        (r.Count? <==> BlocksAfter(|old(owner)|, old(ip.size), off, |src|) <= DataCount(geo))
        && (!r.Count? ==> (r.Panic? <==> !SpareBit(geo, old(disk))))
      ensures r.Lost? ==> PastEnd(geo, r.block) && Names(disk, ip.Copy(), r.block)
      ensures r.Count? ==>
        && r.n == Min(|src|, 71680 - off)
        && Valid() && Cached(ip)
        && File(ip.inum) == Overlay(old(File(ip.inum)), off, src[..r.n])
        && forall j :: 0 <= j < geo.ninodes && j != ip.inum ==>
             File(j) == old(File(j)) && DiskTable(geo, disk)[j] == old(DiskTable(geo, disk)[j])
      ensures r.Count? ==> |owner| == BlocksAfter(|old(owner)|, old(ip.size), off, |src|)
    {
      hide Owned, Stepped, Tight, KeptOthers, SuperBlock, BlocksFor, Overlay, AllTight, Stored, StoreInode, DecodeInode;
      hide Copied, SpareBit, PastEnd, Names;
      var n := |src|;
      if ip.kind == T_DEV {
        return Device;
      }
      if off > ip.size || (off + n) % 0x1_0000_0000 < off {
        return Error;
      }
      SizeBound(disk, DiskTable(geo, disk), ip.inum);
      if off + n > MAXFILE * BSIZE {
        n := MAXFILE * BSIZE - off;
      }
      ghost var d0, t0, owner0 := disk, DiskTable(geo, disk), owner;
      OwnersAreData(geo, d0, t0, owner0);
      var c := CopyIn(ip, src[..n], off);
      if !c.Ok? {
        return if c.Stop? then Panic else Lost(c.block);
      }
      CopiedFacts(geo, d0, t0, owner0, disk, Live(ip), owner, ip.inum, ip.size, off, src[..n]);
      if n > 0 && off + n > ip.size {
        WriteBack(geo, d0, t0, owner0, disk, ip.Copy(), owner, ip.inum, off, src[..n], off + n);
        ip.size := off + n;
        Iupdate(ip);
      } else {
        InPlace(geo, d0, t0, owner0, disk, ip.Copy(), owner, ip.inum, off, src[..n]);
      }
      WriteDone(geo, d0, t0, disk, owner0, owner, ip.inum, off, src[..n]);
      return Count(n);
    }

    // bread of bmap for a block that the file has: bmap only looks it up.
    method ReadBlock(ip: Inode, bn: int) returns (data: Block)
      requires Valid() && Cached(ip) && 0 <= bn && bn * BSIZE < ip.size
      modifies this`disk, this`owner, ip`addrs
      ensures disk == old(disk) && owner == old(owner) && ip.addrs == old(ip.addrs) && bn < MAXFILE
      ensures Slot(disk, ip.Copy(), FileSlot(bn)) < |disk| && data == disk[Slot(disk, ip.Copy(), FileSlot(bn))]
    {
      hide Owned, Mapped, SuperBlock, AllTight, Tight, Contents, DecodeInode, BlocksFor, Kept, Slot, MapCost;
      hide SameTail, SpareBit, PastEnd, Names, DataStart, Used, DataCount;
      ReadStarts(geo, disk, DiskTable(geo, disk), owner, ip.inum, ip.Copy());
      LookupOnly(disk, ip.Copy(), ip.size, bn);
      assert Live(ip) == DiskTable(geo, disk);
      var b := Bmap(ip, bn);
      Looked(geo, old(disk), old(ip.Copy()), old(owner), disk, ip.Copy(), owner, ip.inum, bn, b.value);
      data := Bread(b.value);
    }

    // Fetch n bytes from off, or as many as there are; nothing changes, since no block has to be allocated.
    method Readi(ip: Inode, off: U32, n: U32) returns (r: IoResult, dst: seq<Byte>)
      requires Valid() && Cached(ip)
      modifies this`disk, this`owner, ip`addrs
      ensures disk == old(disk) && owner == old(owner) && ip.addrs == old(ip.addrs)
      ensures r.Device? <==> ip.kind == 3
      ensures r.Error? <==> ip.kind != 3 && (off > ip.size || off + n >= 0x1_0000_0000)
      ensures !r.Panic? && !r.Lost?
      ensures r.Count? ==> r.n == Min(n, ip.size - off) && dst == old(File(ip.inum))[off..off + r.n]
    {
      hide Owned, SuperBlock, AllTight, Contents, DecodeInode, Slot, DataStart, Used;
      dst := [];
      if ip.kind == T_DEV {
        return Device, dst;
      }
      if off > ip.size || (off + n) % 0x1_0000_0000 < off {
        return Error, dst;
      }
      var len: int := n;
      if off + n > ip.size {
        len := ip.size - off;
      }
      SizeBound(disk, DiskTable(geo, disk), ip.inum);
      ghost var d, di, file := disk, ip.Copy(), File(ip.inum);
      var tot, o := 0, off as int;
      while tot < len
        invariant 0 <= tot <= len && o == off + tot
        invariant disk == d && owner == old(owner) && ip.addrs == old(ip.addrs)
        invariant dst == file[off..o]
      {
        var m := Min(len - tot, BSIZE - o % BSIZE);
        ChunkFits(0, o, len - tot, m);
        var bp := ReadBlock(ip, o / BSIZE);
        ChunkRead(d, di, o, m);
        Stretch(file, off, o, o + m);
        dst := dst + bp[o % BSIZE..o % BSIZE + m];
        tot, o := tot + m, o + m;
      }
      return Count(len), dst;
    }

    // The first loop of itrunc. The answer is false where the code would panic, which does not happen.
    method FreeDirect(ip: Inode) returns (ok: bool)
      requires Held(ip)
      modifies this`disk, this`owner, ip`addrs
      ensures ok && Held(ip) && DiskTable(geo, disk) == old(DiskTable(geo, disk))
      ensures DirectCleared(old(disk), old(ip.Copy()), disk, ip.Copy(), NDIRECT)
      ensures owner == Without(old(owner), ip.inum, NDIRECT, 0)
      ensures KeptOthers(old(disk), old(Live(ip)), old(owner), disk, Live(ip), owner, ip.inum)
    {
      hide BitsMatch, FreeZero, Used, Released, DirectCleared, KeptOthers, Without, SuperBlock, DecodeInode, SetUsed;
      TruncStarts(geo, disk, Live(ip), owner, ip.inum);
      var i := 0;
      ok := true;
      while i < NDIRECT
        invariant ok
        invariant 0 <= i <= NDIRECT && Held(ip) && DiskTable(geo, disk) == old(DiskTable(geo, disk))
        invariant DirectCleared(old(disk), old(ip.Copy()), disk, ip.Copy(), i)
        invariant owner == Without(old(owner), ip.inum, i, 0)
        invariant KeptOthers(old(disk), old(Live(ip)), old(owner), disk, Live(ip), owner, ip.inum)
      {
        var b := ip.addrs[i];
        WithoutStep(geo, disk, Live(ip), owner, old(owner), ip.inum, i, b);
        if b != 0 {
          ghost var d1, di1, t1, owner1 := disk, ip.Copy(), Live(ip), owner;
          ReleaseInCore(geo, d1, owner1, ip.inum, di1, i, b);
          ok := Bfree(b);
          if !ok {
            return;
          }
          ip.addrs := ip.addrs[i := 0];
          owner := owner - {b};
          assert ip.Copy() == SlotInode(di1, i, 0) && disk == SlotDisk(Freed(geo, d1, b), di1, i, 0);
          ReleasedFacts(geo, d1, di1, owner1, disk, ip.Copy(), owner, ip.inum, i, b);
          assert Live(ip) == t1[ip.inum := ip.Copy()];
          ReleasedOthers(geo, old(disk), old(Live(ip)), old(owner), d1, t1, owner1, disk, ip.Copy(), owner, ip.inum, i,
            b);
          DirectClearedStep(geo, old(disk), old(ip.Copy()), d1, di1, owner1, disk, ip.Copy(), owner, ip.inum, i, b);
        } else {
          DirectClearedSkip(old(disk), old(ip.Copy()), disk, ip.Copy(), i);
        }
        i := i + 1;
      }
    }

    // The loop of itrunc over the indirect block, held in the buffer bp and left as it is on disk: the disk
    // becomes a consistent disk v, all of whose entries are clear, but with bp in place of v's indirect block.
    method FreeEntries(ip: Inode, bp: Block, ghost all: map<int, Name>) returns (ok: bool, ghost v: seq<Block>)
      requires Held(ip) && 0 < ip.addrs[NDIRECT] < |disk| && disk[ip.addrs[NDIRECT]] == bp
      requires owner == Without(all, ip.inum, NDIRECT, 0)
      modifies this`disk, this`owner
      ensures ok && Mounted() && |v| == |disk| && IsData(geo, ip.addrs[NDIRECT]) && disk == v[ip.addrs[NDIRECT] := bp]
      ensures Behind(geo, old(disk), old(Live(ip)), old(owner), all, v, owner, ip.inum, NINDIRECT)
    {
      ghost var t, i := Live(ip), ip.inum;
      ghost var ind := ip.addrs[NDIRECT];
      IndirectIsData(geo, disk, t, owner, i);
      IndirectStarts(geo, disk, t, owner, i);
      v := disk;
      assert v[ind := bp] == v && t == DiskTable(geo, disk)[i := t[i]];
      assert Behind(geo, disk, t, owner, all, v, owner, i, 0);
      hide Used, SuperBlock, SetUsed, Behind;
      var j := 0;
      ok := true;
      while j < NINDIRECT
        invariant ok
        invariant 0 <= j <= NINDIRECT && Mounted() && |v| == |disk| && disk == v[ind := bp]
        invariant Behind(geo, old(disk), t, old(owner), all, v, owner, i, j)
      {
        var b := Word(bp, j);
        if b != 0 {
          v := BehindFree(geo, old(disk), t, old(owner), all, v, owner, i, j, bp, b);
          ok := Bfree(b);
          if !ok {
            return;
          }
          owner := owner - {b};
        } else {
          BehindSkip(geo, old(disk), t, old(owner), all, v, owner, i, j, bp);
        }
        j := j + 1;
      }
    }

    // The second half of itrunc: the blocks named by the indirect block, then the indirect block.
    method FreeIndirect(ip: Inode, ghost all: map<int, Name>) returns (ok: bool)
      requires Held(ip) && ip.addrs[NDIRECT] != 0 && owner == Without(all, ip.inum, NDIRECT, 0)
      requires forall b :: b in all ==> 0 <= all[b].slot < SLOTS
      modifies this`disk, this`owner, ip`addrs
      ensures ok && Held(ip) && DiskTable(geo, disk) == old(DiskTable(geo, disk))
      ensures forall k :: 0 <= k < SLOTS ==>
        Slot(disk, ip.Copy(), k) ==
        if k < NDIRECT then Slot(old(disk), old(ip.Copy()), k) else 0
      ensures owner == map b | b in all && all[b].inum != ip.inum :: all[b]
      ensures KeptOthers(old(disk), old(Live(ip)), old(owner), disk, Live(ip), owner, ip.inum)
    {
      ghost var t, di, i := Live(ip), ip.Copy(), ip.inum;
      IndirectIsData(geo, disk, t, owner, i);
      hide BitsMatch, FreeZero, Used, Released, KeptOthers, Without, SuperBlock, DecodeInode, SetUsed, Owned;
      hide EntriesCleared;
      var ind := ip.addrs[NDIRECT];
      var bp := Bread(ind);
      ghost var v;
      ok, v := FreeEntries(ip, bp, all);
      if !ok {
        return;
      }
      AllEntriesClear(old(disk), di, v);
      OwnedNames(geo, v, t, owner);
      WithoutAll(geo, v, t, all, owner, i, ind);
      assert t == DiskTable(geo, v)[i := di];
      ReleaseInCore(geo, v, owner, i, di, NDIRECT, ind);
      BehindIndirect(geo, disk, v, ind, bp, ind, bp);
      ok := Bfree(ind);
      if !ok {
        return;
      }
      ip.addrs := ip.addrs[NDIRECT := 0];
      ghost var owner' := owner - {ind};
      ReleasedFacts(geo, v, di, owner, disk, ip.Copy(), owner', i, NDIRECT, ind);
      ReleasedOthers(geo, old(disk), t, old(owner), v, t, owner, disk, ip.Copy(), owner', i, NDIRECT, ind);
      owner := owner';
      assert Live(ip) == t[i := ip.Copy()];
    }

    // Both halves: no slot of ip names a block any more.
    method FreeBlocks(ip: Inode) returns (ok: bool)
      requires Held(ip)
      modifies this`disk, this`owner, ip`addrs
      ensures ok && Held(ip) && DiskTable(geo, disk) == old(DiskTable(geo, disk))
      ensures forall k :: 0 <= k < SLOTS ==> Slot(disk, ip.Copy(), k) == 0
      ensures owner == map b | b in old(owner) && old(owner)[b].inum != ip.inum :: old(owner)[b]
      ensures KeptOthers(old(disk), old(Live(ip)), old(owner), disk, Live(ip), owner, ip.inum)
    {
      SlotsInRange(geo, disk, Live(ip), owner);
      hide BitsMatch, FreeZero, Used, KeptOthers, SuperBlock, DecodeInode, SlotsOwned, OwnersNamed, Without;
      ok := FreeDirect(ip);
      if !ok {
        return;
      }
      ghost var d1, t1, owner1, di1 := disk, Live(ip), owner, ip.Copy();
      assert Slot(d1, di1, NDIRECT) == di1.addrs[NDIRECT];
      if ip.addrs[NDIRECT] != 0 {
        ok := FreeIndirect(ip, old(owner));
        KeptOthersTwice(old(disk), old(Live(ip)), old(owner), d1, t1, owner1, disk, Live(ip), owner, ip.inum);
      } else {
        OwnedNames(geo, d1, t1, owner);
        IndirectEmpty(d1, di1);
        WithoutNoEntries(geo, d1, t1, owner, old(owner), ip.inum);
        WithoutAll(geo, d1, t1, old(owner), owner, ip.inum, 0);
      }
    }

    // Discard a file's contents. The answer is false where the code would panic ("freeing free block"),
    // which does not happen. Exactly the bits of the file's blocks are cleared.
    method Itrunc(ip: Inode) returns (ok: bool)
      requires Valid() && Cached(ip)
      modifies this`disk, this`owner, ip`addrs, ip`size
      ensures ok && Valid() && Cached(ip) && ip.size == 0 && File(ip.inum) == []
      ensures NoBlocks(disk, ip.Copy())
      ensures forall j :: 0 <= j < geo.ninodes && j != ip.inum ==>
        File(j) == old(File(j)) && DiskTable(geo, disk)[j] == old(DiskTable(geo, disk)[j])
      ensures owner == map b | b in old(owner) && old(owner)[b].inum != ip.inum :: old(owner)[b]
      ensures forall b :: 0 <= b < geo.size ==>
        (Used(geo, disk, b) <==> Used(geo, old(disk), b) && !(b in old(owner) && old(owner)[b].inum == ip.inum))
    {
      ghost var d0, t0, owner0, i := disk, DiskTable(geo, disk), owner, ip.inum;
      OwnersAreData(geo, d0, t0, owner0);
      OwnedBits(geo, d0, t0, owner0);
      assert Live(ip) == t0;
      hide BitsMatch, FreeZero, Used, KeptOthers, SuperBlock, DecodeInode, SlotsOwned, OwnersNamed, AllTight, Tight;
      hide Contents, StoreInode;
      hide Owned;
      ok := FreeBlocks(ip);
      if !ok {
        return;
      }
      Resize(geo, disk, Live(ip), owner, i, 0);
      ghost var t1 := Live(ip);
      ip.size := 0;
      assert Live(ip) == t1[i := t1[i].(size := 0)];
      ResizeOthers(d0, t0, owner0, disk, t1, owner, i, 0);
      StoreEmpty(geo, d0, t0, owner0, disk, ip.Copy(), owner, i);
      Iupdate(ip);
      OwnedBits(geo, disk, DiskTable(geo, disk), owner);
      BitsCleared(geo, d0, owner0, disk, owner, i);
    }

    // What iput does when the last reference to an unlinked inode goes: its blocks and the inode itself are freed.
    method Reclaim(ip: Inode) returns (ok: bool)
      requires Valid() && Cached(ip)
      modifies this`disk, this`owner, ip`addrs, ip`size, ip`kind
      ensures ok && Valid() && DiskTable(geo, disk)[ip.inum] == ip.Copy() && ip.kind == 0
      ensures forall j :: 0 <= j < geo.ninodes && j != ip.inum ==>
        File(j) == old(File(j)) && DiskTable(geo, disk)[j] == old(DiskTable(geo, disk)[j])
      ensures owner == map b | b in old(owner) && old(owner)[b].inum != ip.inum :: old(owner)[b]
    {
      ok := Itrunc(ip);
      if !ok {
        return;
      }
      ghost var d1, t1, i := disk, DiskTable(geo, disk), ip.inum;
      hide BitsMatch, FreeZero, Used, KeptOthers, SuperBlock, DecodeInode, SlotsOwned, OwnersNamed, AllTight, Contents;
      hide StoreInode, Owned;
      ip.kind := 0;
      assert forall k :: 0 <= k < SLOTS ==> Slot(d1, ip.Copy(), k) == Slot(d1, t1[i], k);
      ReplaceEmpty(geo, d1, t1, owner, i, ip.Copy());
      StoreEmpty(geo, d1, t1, owner, d1, ip.Copy(), owner, i);
      Iupdate(ip);
    }

    // Drop a reference; the last one to an unlinked inode reclaims it. The answer is false where the code panics:
    // that inode is locked by somebody.
    method Iput(ip: Inode) returns (ok: bool)
      requires Valid() && ip.inum < geo.ninodes && (ip.valid ==> Cached(ip))
      modifies this`disk, this`owner, ip
      ensures ok <==> !(old(ip.ref == 1 && ip.valid && ip.nlink == 0) && old(ip.busy))
      ensures Valid()
      ensures forall j :: 0 <= j < geo.ninodes && j != ip.inum ==>
        File(j) == old(File(j)) && DiskTable(geo, disk)[j] == old(DiskTable(geo, disk)[j])
      ensures ok ==> ip.ref == old(ip.ref) - 1
      ensures ok && old(ip.ref == 1 && ip.valid && ip.nlink == 0) ==>
        && !ip.valid && !ip.busy && DiskTable(geo, disk)[ip.inum].kind == 0
        && owner == map b | b in old(owner) && old(owner)[b].inum != ip.inum :: old(owner)[b]
      ensures !ok || !old(ip.ref == 1 && ip.valid && ip.nlink == 0) ==>
        && disk == old(disk) && owner == old(owner)
        && ip.Copy() == old(ip.Copy()) && ip.valid == old(ip.valid) && ip.busy == old(ip.busy)
    {
      hide Owned, AllTight, Contents, DecodeInode, SuperBlock;
      ok := true;
      if ip.ref == 1 && ip.valid && ip.nlink == 0 {
        if ip.busy {
          return false;
        }
        ip.busy := true;
        ok := Reclaim(ip);
        if !ok {
          return;
        }
        ip.valid, ip.busy := false, false;
      }
      ip.ref := ip.ref - 1;
    }

    // The lowest free inode, made an empty file of the given type; or panic when there is none.
    method Ialloc(kind: U16) returns (r: Outcome<U32>)
      requires Valid() && kind != 0
      modifies this`disk
      ensures Valid()
      ensures r.Stop? ==> disk == old(disk) && forall i :: 1 <= i < geo.ninodes ==> DiskTable(geo, disk)[i].kind != 0
      ensures r.Ok? ==>
        && 1 <= r.value < geo.ninodes && old(DiskTable(geo, disk)[r.value].kind) == 0
        && (forall i :: 1 <= i < r.value ==> old(DiskTable(geo, disk)[i].kind) != 0)
        && DiskTable(geo, disk)[r.value] == DInode(kind, 0, 0, 0, 0, seq(13, _ => 0)) && File(r.value) == []
        && forall j :: 0 <= j < geo.ninodes && j != r.value ==>
             File(j) == old(File(j)) && DiskTable(geo, disk)[j] == old(DiskTable(geo, disk)[j])
    {
      hide BitsMatch, FreeZero, Used, KeptOthers, SuperBlock, DecodeInode, SlotsOwned, OwnersNamed, AllTight, Contents;
      hide StoreInode, Owned, Tight;
      var sb := Readsb();
      ghost var t := DiskTable(geo, disk);
      var inum := 1;
      while inum < sb.ninodes
        invariant 1 <= inum && disk == old(disk)
        invariant forall i :: 1 <= i < inum && i < geo.ninodes ==> t[i].kind != 0
      {
        var bp := Bread(IBlock(inum));
        var dip := InodeOfWords(WordsAt(bp, 16 * (inum % IPB), 16));
        DecodeIs(geo, disk, inum);
        if dip.kind == 0 {
          FreeIsEmpty(disk, t, inum);
          EmptyHasNoBlocks(disk, kind);
          ReplaceEmpty(geo, disk, t, owner, inum, EmptyInode(kind));
          StoreEmpty(geo, disk, t, owner, disk, EmptyInode(kind), owner, inum);
          StoreIs(disk, inum, EmptyInode(kind));
          Bwrite(IBlock(inum), PutWords(bp, 16 * (inum % IPB), InodeWords(EmptyInode(kind))));
          return Ok(inum);
        }
        inum := inum + 1;
      }
      return Stop;
    }
  }

  // Blocks in use after a write of n bytes at off to a file of `size` bytes, when `used` were in use before.
  function BlocksAfter(used: int, size: int, off: int, n: int): int {
    used + BlocksFor(Max(size, Min(off + n, MAXFILE * BSIZE))) - BlocksFor(size)
  }

  // A dinode after memset and the setting of its type.
  function EmptyInode(kind: U16): DInode {
    DInode(kind, 0, 0, 0, 0, seq(13, _ => 0))
  }

  lemma EmptyHasNoBlocks(d: seq<Block>, kind: U16)
    ensures NoBlocks(d, EmptyInode(kind))
  {
  }

  lemma FreeIsEmpty(d: seq<Block>, t: seq<DInode>, i: int)
    requires AllTight(d, t) && 0 <= i < |t| && t[i].kind == 0
    ensures NoBlocks(d, t[i])
  {
    TightEmpty(d, t[i]);
  }

  lemma DecodeIs(g: Geo, d: seq<Block>, i: int)
    requires Sane(g, |d|) && 0 <= i < g.ninodes
    ensures DiskTable(g, d)[i] == InodeOfWords(WordsAt(d[IBlock(i)], 16 * (i % IPB), 16))
  {
  }

  lemma StoreIs(d: seq<Block>, i: int, di: DInode)
    requires 0 <= i && IBlock(i) < |d|
    ensures StoreInode(d, i, di) == d[IBlock(i) := PutWords(d[IBlock(i)], 16 * (i % IPB), InodeWords(di))]
  {
  }

  lemma SlotIsEmpty(d: seq<Block>, di: DInode, k: int)
    requires 0 <= k <= NDIRECT
    ensures Slot(d, di, k) == di.addrs[k]
  {
  }

  // A turn of the copy loops stays within one block of the file; a write of n bytes needs what its first m need.
  lemma ChunkFits(cover: int, o: int, n: int, m: int)
    requires 0 <= o && 0 < n && o + n <= MAXFILE * BSIZE && m == Min(n, BSIZE - o % BSIZE)
    ensures 0 < m <= n && o % BSIZE + m <= BSIZE && o / BSIZE < MAXFILE
    ensures o <= Max(cover, o) && (o + m <= cover ==> o + m <= Max(cover, o))
    ensures Max(Max(cover, o), o + m) == Max(cover, o + m)
    ensures BlocksFor(Max(cover, o + m)) <= BlocksFor(Max(cover, o + n))
  {
    BlocksForMonotone(Max(cover, o + m), Max(cover, o + n));
  }

  lemma Stretch<T>(s: seq<T>, a: int, b: int, c: int)
    requires 0 <= a <= b <= c <= |s|
    ensures s[a..b] + s[b..c] == s[a..c]
  {
  }

  // The scan of one bitmap block: its lowest clear bit, or BPB.
  method FirstClear(bp: Block) returns (bi: int)
    ensures 0 <= bi <= BPB
    ensures forall j :: 0 <= j < bi ==> Bit(bp, j)
    ensures bi < BPB ==> !Bit(bp, bi)
    ensures forall y :: 0 <= y < bi / 8 ==> bp[y] == 255
    ensures bi < 4096 ==>
      var m := [1, 2, 4, 8, 16, 32, 64, 128][bi % 8]; bp[bi / 8] % m == m - 1 && bp[bi / 8] / m % 2 == 0
  {
    hide Bit;
    bi := 0;
    while bi < BPB
      invariant 0 <= bi <= BPB
      invariant forall j :: 0 <= j < bi ==> Bit(bp, j)
    {
      if !Bit(bp, bi) {
        FullBytes(bp, bi);
        BitIs(bp, bi);
        return;
      }
      bi := bi + 1;
    }
    FullBytes(bp, bi);
  }

  // What a scan of the bitmap block that covers b, b + 1, ... says about those blocks.
  lemma BlockScanned(g: Geo, d: seq<Block>, b: int, bi: int)
    requires Sane(g, |d|) && 0 <= b < g.size && b % BPB == 0 && 0 <= bi <= BPB
    requires forall j :: 0 <= j < bi ==> Bit(d[BBlock(g, b)], j)
    requires bi < BPB ==> !Bit(d[BBlock(g, b)], bi)
    ensures b + BPB <= ScanLimit(g) && (b + BPB) % BPB == 0 && 0 <= BBlock(g, b) < |d|
    ensures forall c :: b <= c < b + bi ==> Used(g, d, c)
    ensures bi < BPB ==> !Used(g, d, b + bi)
    ensures bi < BPB ==> d[BBlock(g, b) := PutBit(d[BBlock(g, b)], bi, true)] == SetUsed(g, d, b + bi, true)
  {
    hide Bit, PutBit;
    forall c | b <= c < b + bi
      ensures Used(g, d, c)
    {
      Quotient(b, c - b);
      assert Bit(d[BBlock(g, b)], c - b);
    }
    if bi < BPB {
      Quotient(b, bi);
    }
  }

  // Blocks lo up to hi hold nothing but ones.
  ghost predicate AllOnes(d: seq<Block>, lo: int, hi: int) {
    0 <= lo && hi <= |d| && forall x, y :: lo <= x < hi && 0 <= y < 512 ==> d[x][y] == 255
  }

  // From d to d' the lowest zero bit of the bitmap, v, has become a one: all bytes before its byte are full, so are the
  // bits below it, and its weight, which the byte lacked, is added to the byte.
  ghost predicate LowestTaken(g: Geo, d: seq<Block>, d': seq<Block>, v: int)
    requires 0 <= v
  {
    var blk, k, m := v / 4096 + g.ninodes / 8 + 3, v % 4096 / 8, [1, 2, 4, 8, 16, 32, 64, 128][v % 8];
    && 0 <= blk < |d| && AllOnes(d, g.ninodes / 8 + 3, blk) && (forall y :: 0 <= y < k ==> d[blk][y] == 255)
    && var x := d[blk][k] as int;
       x % m == m - 1 && x / m % 2 == 0 && x + m < 256 && d' == d[blk := d[blk][k := x + m]]
  }

  lemma TakenBytes(g: Geo, d: seq<Block>, b: int, bi: int)
    requires Sane(g, |d|) && 0 <= b && b % 4096 == 0 && 0 <= bi < 4096 && b + bi < ScanLimit(g)
    requires !Used(g, d, b + bi) && AllOnes(d, g.ninodes / 8 + 3, b / 4096 + g.ninodes / 8 + 3)
    requires var bp := d[BBlock(g, b)]; var m := [1, 2, 4, 8, 16, 32, 64, 128][bi % 8];
      (forall y :: 0 <= y < bi / 8 ==> bp[y] == 255) && bp[bi / 8] % m == m - 1
    ensures LowestTaken(g, d, SetUsed(g, d, b + bi, true), b + bi)
  {
    hide Used, SetUsed, AllOnes;
    Quotient(b, bi);
    InBlock(b + bi);
    InBlock(bi);
    UsedIs(g, d, b + bi);
    SetUsedIs(g, d, b + bi, true);
    NotOdd(d[BBlock(g, b)][bi / 8], [1, 2, 4, 8, 16, 32, 64, 128][bi % 8]);
  }

  lemma NotOdd(x: int, m: int)
    requires m > 0
    ensures x / m % 2 == 0 || x / m % 2 == 1
  {
  }

  lemma OnesMore(g: Geo, d: seq<Block>, b: int)
    requires Sane(g, |d|) && 0 <= b && b % 4096 == 0 && b + 4096 <= ScanLimit(g)
    requires AllOnes(d, g.ninodes / 8 + 3, b / 4096 + g.ninodes / 8 + 3)
    requires forall y :: 0 <= y < 512 ==> d[BBlock(g, b)][y] == 255
    ensures AllOnes(d, g.ninodes / 8 + 3, (b + 4096) / 4096 + g.ninodes / 8 + 3)
  {
    assert (b + 4096) / 4096 == b / 4096 + 1;
    assert b / 4096 + g.ninodes / 8 + 3 == BBlock(g, b) < |d|;
  }

  lemma NoOnes(g: Geo, d: seq<Block>)
    requires Sane(g, |d|)
    ensures AllOnes(d, g.ninodes / 8 + 3, 0 / 4096 + g.ninodes / 8 + 3)
    ensures ScanLimit(g) / 4096 == (g.size + 4095) / 4096
  {
  }

  lemma ScanStart(g: Geo)
    ensures g.size <= ScanLimit(g)
  {
  }

  lemma ScanDone(g: Geo, b: int)
    requires b % BPB == 0 && g.size <= b <= ScanLimit(g)
    ensures b == ScanLimit(g)
  {
  }

  lemma Quotient(b: int, bi: int)
    requires 0 <= b && b % BPB == 0 && 0 <= bi < BPB
    ensures (b + bi) / BPB == b / BPB && (b + bi) % BPB == bi
  {
  }
}
