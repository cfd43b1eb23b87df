/** How taking and releasing one block keeps the ownership invariant, and what that means for file contents. */
module FsOwnership {
  import opened DiskFormat
  import opened FsLayout

  // ---- taking and releasing one block ----

  // After slot k of inode i is given block b, that slot and no other has changed.
  ghost predicate OnlySlot(d: seq<Block>, t: seq<DInode>, d': seq<Block>, t': seq<DInode>, i: int, k: int, b: U32) {
    && |t'| == |t|
    && forall i', k' {:trigger Slot(d', t'[i'], k')} :: 0 <= i' < |t| && 0 <= k' < SLOTS ==>
         Slot(d', t'[i'], k') == if i' == i && k' == k then b else Slot(d, t[i'], k')
  }

  lemma SlotChange(g: Geo, d: seq<Block>, t: seq<DInode>, owner: map<int, Name>, m: seq<Block>, i: int, k: int, b: U32)
    requires Sane(g, |d|) && SlotsOwned(d, t, owner) && OwnersNamed(g, d, t, owner)
    requires 0 <= i < |t| && 0 <= k < SLOTS
    requires |m| == |d|
    requires forall x {:trigger m[x]} :: x in owner && owner[x].slot == NDIRECT && owner[x] != Name(i, k) ==>
      m[x] == d[x]
    requires k > NDIRECT ==> t[i].addrs[NDIRECT] != 0
    requires k == NDIRECT ==> 0 <= b < |d| && forall j :: NDIRECT < j < SLOTS ==> Slot(d, t[i], j) == 0
    requires k == NDIRECT && b != 0 ==> m[b] == ZeroBlock()
    ensures k > NDIRECT ==> 0 < t[i].addrs[NDIRECT] < |d|
    ensures OnlySlot(d, t, SlotDisk(m, t[i], k, b), t[i := SlotInode(t[i], k, b)], i, k, b)
  {
    assert k > NDIRECT ==> Slot(d, t[i], NDIRECT) != 0;
    forall i', k' | 0 <= i' < |t| && 0 <= k' < SLOTS
      ensures Slot(SlotDisk(m, t[i], k, b), t[i := SlotInode(t[i], k, b)][i'], k') ==
              if i' == i && k' == k then b else Slot(d, t[i'], k')
    {
      OneSlotChange(g, d, t, owner, m, i, k, b, i', k');
    }
  }

  lemma OneSlotChange(g: Geo, d: seq<Block>, t: seq<DInode>, owner: map<int, Name>, m: seq<Block>, i: int, k: int,
                      b: U32,
                      i': int, k': int)
    requires Sane(g, |d|) && SlotsOwned(d, t, owner) && OwnersNamed(g, d, t, owner)
    requires 0 <= i < |t| && 0 <= k < SLOTS && 0 <= i' < |t| && 0 <= k' < SLOTS
    requires |m| == |d|
    requires forall x {:trigger m[x]} :: x in owner && owner[x].slot == NDIRECT && owner[x] != Name(i, k) ==>
      m[x] == d[x]
    requires k > NDIRECT ==> 0 < t[i].addrs[NDIRECT] < |d|
    requires k == NDIRECT ==> 0 <= b < |d| && forall j :: NDIRECT < j < SLOTS ==> Slot(d, t[i], j) == 0
    requires k == NDIRECT && b != 0 ==> m[b] == ZeroBlock()
    ensures Slot(SlotDisk(m, t[i], k, b), t[i := SlotInode(t[i], k, b)][i'], k') ==
            if i' == i && k' == k then b else Slot(d, t[i'], k')
  {
    var a, c := t[i'].addrs[NDIRECT], t[i].addrs[NDIRECT];
    assert Slot(d, t[i'], NDIRECT) == a && Slot(d, t[i], NDIRECT) == c;
    if k' > NDIRECT {
      if i' == i && k == NDIRECT {
        assert Slot(d, t[i], k') == 0;
        if b != 0 {
          ZeroWord(k' - NDIRECT - 1);
        }
      } else if a != 0 {
        assert a in owner && owner[a] == Name(i', NDIRECT);
        assert m[a] == d[a];
        if k > NDIRECT {
          assert c in owner && owner[c] == Name(i, NDIRECT);
          WordPutWord(m[c], k - NDIRECT - 1, b, k' - NDIRECT - 1);
        }
      }
    }
  }

  // Only slot k of inode i changed, from nothing to b.
  lemma NamesAfterTake(g: Geo, d: seq<Block>, t: seq<DInode>, owner: map<int, Name>, d': seq<Block>, t': seq<DInode>,
                       i: int, k: int, b: U32)
    requires SlotsOwned(d, t, owner) && OwnersNamed(g, d, t, owner)
    requires 0 <= i < |t| && 0 <= k < SLOTS && Slot(d, t[i], k) == 0
    requires IsData(g, b) && b !in owner && b != 0
    requires OnlySlot(d, t, d', t', i, k, b)
    ensures SlotsOwned(d', t', owner[b := Name(i, k)]) && OwnersNamed(g, d', t', owner[b := Name(i, k)])
  {
    var owner' := owner[b := Name(i, k)];
    assert Slot(d', t'[i], k) == b;
    forall x {:trigger owner'[x]} | x in owner'
      ensures IsData(g, x) && 0 <= owner'[x].inum < |t'| && 0 <= owner'[x].slot < SLOTS
      ensures Slot(d', t'[owner'[x].inum], owner'[x].slot) == x
    {
      if x != b {
        assert x in owner && owner'[x] == owner[x];
      }
    }
  }

  // Only slot k of inode i changed, from b to nothing.
  lemma NamesAfterRelease(g: Geo, d: seq<Block>, t: seq<DInode>, owner: map<int, Name>, d': seq<Block>, t': seq<DInode>,
                          i: int, k: int, b: U32)
    requires SlotsOwned(d, t, owner) && OwnersNamed(g, d, t, owner)
    requires 0 <= i < |t| && 0 <= k < SLOTS && Slot(d, t[i], k) == b != 0
    requires OnlySlot(d, t, d', t', i, k, 0)
    ensures SlotsOwned(d', t', owner - {b}) && OwnersNamed(g, d', t', owner - {b})
  {
    var owner' := owner - {b};
    assert owner[b] == Name(i, k);
    forall x {:trigger owner'[x]} | x in owner'
      ensures IsData(g, x) && 0 <= owner'[x].inum < |t'| && 0 <= owner'[x].slot < SLOTS
      ensures Slot(d', t'[owner'[x].inum], owner'[x].slot) == x
    {
      assert x in owner && owner'[x] == owner[x];
    }
  }

  lemma BitmapFrame(g: Geo, d: seq<Block>, d': seq<Block>)
    requires Sane(g, |d|) && |d'| == |d|
    requires forall x :: BBlock(g, 0) <= x < DataStart(g) ==> d'[x] == d[x]
    ensures forall b :: 0 <= b < ScanLimit(g) ==> Used(g, d', b) == Used(g, d, b)
  {
  }

  // The numbers from the end of the file system to the end of its last bitmap block: balloc sees bits for them.
  predicate PastEnd(g: Geo, b: int) {
    g.size <= b < ScanLimit(g)
  }

  ghost predicate SpareBit(g: Geo, d: seq<Block>) {
    Sane(g, |d|) && exists b :: PastEnd(g, b) && !Used(g, d, b)
  }

  ghost predicate SameTail(g: Geo, d: seq<Block>, d': seq<Block>) {
    && Sane(g, |d|) && |d'| == |d|
    && forall b :: PastEnd(g, b) ==> Used(g, d', b) == Used(g, d, b)
  }

  // A slot of the inode names b.
  ghost predicate Names(d: seq<Block>, di: DInode, b: U32) {
    exists k :: 0 <= k < SLOTS && Slot(d, di, k) == b
  }

  lemma SameSpare(g: Geo, d: seq<Block>, d': seq<Block>)
    requires SameTail(g, d, d')
    ensures SpareBit(g, d') <==> SpareBit(g, d)
  {
  }

  lemma TailAfterTake(g: Geo, d: seq<Block>, b: int)
    requires Sane(g, |d|) && IsData(g, b)
    ensures SameTail(g, d, SetUsed(g, d, b, true))
  {
    SetUsedEffect(g, d, b, true);
  }

  lemma TailAfterWrite(g: Geo, d: seq<Block>, a: int, blk: Block)
    requires Sane(g, |d|) && IsData(g, a)
    ensures SameTail(g, d, d[a := blk])
  {
    BitmapFrame(g, d, d[a := blk]);
  }

  lemma SameTailTwice(g: Geo, d: seq<Block>, m: seq<Block>, d': seq<Block>)
    requires SameTail(g, d, m) && SameTail(g, m, d')
    ensures SameTail(g, d, d')
  {
  }

  // A clear data block becomes slot k of inode i: balloc and the store of its number.
  lemma TakeBlock(g: Geo, d: seq<Block>, t: seq<DInode>, owner: map<int, Name>, i: int, k: int, b: U32)
    requires Owned(g, d, t, owner)
    requires IsData(g, b) && b !in owner
    requires 0 <= i < |t| && 0 <= k < SLOTS && Slot(d, t[i], k) == 0
    requires k > NDIRECT ==> t[i].addrs[NDIRECT] != 0
    ensures k > NDIRECT ==> IsData(g, t[i].addrs[NDIRECT])
    ensures var d', t' := SlotDisk(SetUsed(g, d, b, true), t[i], k, b), t[i := SlotInode(t[i], k, b)];
      && Owned(g, d', t', owner[b := Name(i, k)])
      && OnlySlot(d, t, d', t', i, k, b)
  {
    var m := SetUsed(g, d, b, true);
    var owner' := owner[b := Name(i, k)];
    TakeBits(g, d, owner, b, Name(i, k));
    IndirectIsData(g, d, t, owner, i);
    IndirectEmpty(d, t[i]);
    SlotChange(g, d, t, owner, m, i, k, b);
    var d' := SlotDisk(m, t[i], k, b);
    NamesAfterTake(g, d, t, owner, d', t[i := SlotInode(t[i], k, b)], i, k, b);
    BitmapFrame(g, m, d');
    FreeZeroAfterTake(g, m, owner', d', t[i], k, b);
  }

  lemma TakeBits(g: Geo, d: seq<Block>, owner: map<int, Name>, b: U32, n: Name)
    requires Sane(g, |d|) && BitsMatch(g, d, owner) && FreeZero(g, d, owner) && IsData(g, b) && b !in owner
    ensures var m := SetUsed(g, d, b, true);
      && |m| == |d| && BitsMatch(g, m, owner[b := n]) && FreeZero(g, m, owner[b := n])
      && m[b] == ZeroBlock()
      && forall x :: 0 <= x < |d| && !(BBlock(g, 0) <= x < DataStart(g)) ==> m[x] == d[x]
  {
    SetUsedEffect(g, d, b, true);
  }

  lemma FreeZeroAfterTake(g: Geo, m: seq<Block>, owner': map<int, Name>, d': seq<Block>, di: DInode, k: int, b: U32)
    requires Sane(g, |m|) && 0 <= k < SLOTS && FreeZero(g, m, owner')
    requires k > NDIRECT ==> 0 < di.addrs[NDIRECT] < |m| && di.addrs[NDIRECT] in owner'
    requires d' == SlotDisk(m, di, k, b)
    ensures FreeZero(g, d', owner')
  {
  }

  lemma IndirectIsData(g: Geo, d: seq<Block>, t: seq<DInode>, owner: map<int, Name>, i: int)
    requires SlotsOwned(d, t, owner) && OwnersNamed(g, d, t, owner) && 0 <= i < |t|
    ensures t[i].addrs[NDIRECT] != 0 ==>
      IsData(g, t[i].addrs[NDIRECT]) && t[i].addrs[NDIRECT] in owner && owner[t[i].addrs[NDIRECT]] == Name(i, NDIRECT)
  {
    assert Slot(d, t[i], NDIRECT) == t[i].addrs[NDIRECT];
  }

  lemma SlotIsOwned(g: Geo, d: seq<Block>, t: seq<DInode>, owner: map<int, Name>, i: int, k: int)
    requires SlotsOwned(d, t, owner) && OwnersNamed(g, d, t, owner) && 0 <= i < |t| && 0 <= k < SLOTS
    ensures Slot(d, t[i], k) != 0 ==>
      IsData(g, Slot(d, t[i], k)) && Slot(d, t[i], k) in owner && owner[Slot(d, t[i], k)] == Name(i, k)
  {
  }

  lemma IndirectEmpty(d: seq<Block>, di: DInode)
    ensures di.addrs[NDIRECT] == 0 ==> forall j :: NDIRECT < j < SLOTS ==> Slot(d, di, j) == 0
  {
  }

  // Slot k of inode i is cleared and its block zeroed and marked free: bfree and the clearing of its number.
  lemma ReleaseBlock(g: Geo, d: seq<Block>, t: seq<DInode>, owner: map<int, Name>, i: int, k: int, b: U32)
    requires Owned(g, d, t, owner)
    requires 0 <= i < |t| && 0 <= k < SLOTS && Slot(d, t[i], k) == b != 0
    requires k == NDIRECT ==> forall j :: NDIRECT < j < SLOTS ==> Slot(d, t[i], j) == 0
    ensures IsData(g, b) && Used(g, d, b)
    ensures k > NDIRECT ==> IsData(g, t[i].addrs[NDIRECT])
    ensures var d', t' := SlotDisk(Freed(g, d, b), t[i], k, 0), t[i := SlotInode(t[i], k, 0)];
      && Owned(g, d', t', owner - {b})
      && OnlySlot(d, t, d', t', i, k, 0)
  {
    assert b in owner && owner[b] == Name(i, k);
    var m := Freed(g, d, b);
    ReleaseBits(g, d, owner, b);
    IndirectIsData(g, d, t, owner, i);
    SlotChange(g, d, t, owner, m, i, k, 0);
    var d' := SlotDisk(m, t[i], k, 0);
    NamesAfterRelease(g, d, t, owner, d', t[i := SlotInode(t[i], k, 0)], i, k, b);
    BitmapFrame(g, m, d');
    FreeZeroAfterRelease(g, d, owner, m, d', b, t[i], k);
  }

  lemma ReleaseBits(g: Geo, d: seq<Block>, owner: map<int, Name>, b: U32)
    requires Sane(g, |d|) && BitsMatch(g, d, owner) && IsData(g, b)
    ensures var m := Freed(g, d, b);
      && |m| == |d| && BitsMatch(g, m, owner - {b})
      && m[b] == ZeroBlock()
      && forall x :: 0 <= x < |d| && x != b && !(BBlock(g, 0) <= x < DataStart(g)) ==> m[x] == d[x]
  {
    var z := d[b := ZeroBlock()];
    BitmapFrame(g, d, z);
    SetUsedEffect(g, z, b, false);
  }

  lemma FreeZeroAfterRelease(g: Geo, d: seq<Block>, owner: map<int, Name>, m: seq<Block>, d': seq<Block>, b: int,
                             di: DInode, k: int)
    requires Sane(g, |d|) && |m| == |d| && 0 <= k < SLOTS && FreeZero(g, d, owner)
    requires k > NDIRECT ==> 0 < di.addrs[NDIRECT] < |d| && di.addrs[NDIRECT] in owner && di.addrs[NDIRECT] != b
    requires d' == SlotDisk(m, di, k, 0)
    requires IsData(g, b) && m[b] == ZeroBlock() && forall x :: IsData(g, x) && x != b ==> m[x] == d[x]
    ensures FreeZero(g, d', owner - {b})
  {
  }

  // ---- what an operation on inode i leaves alone ----

  ghost predicate KeptOthers(d: seq<Block>, t: seq<DInode>, owner: map<int, Name>,
                             d': seq<Block>, t': seq<DInode>, owner': map<int, Name>, i: int)
  {
    && |t'| == |t| && |d'| == |d|
    && (forall j :: 0 <= j < |t| && j != i ==> t'[j] == t[j])
    && forall b :: b in owner && owner[b].inum != i && 0 <= b < |d| ==>
         b in owner' && owner'[b] == owner[b] && d'[b] == d[b]
  }

  lemma OtherSlot(g: Geo, d: seq<Block>, t: seq<DInode>, owner: map<int, Name>,
                  d': seq<Block>, t': seq<DInode>, owner': map<int, Name>, i: int, j: int, k: int)
    requires Sane(g, |d|) && SlotsOwned(d, t, owner) && OwnersNamed(g, d, t, owner)
    requires KeptOthers(d, t, owner, d', t', owner', i)
    requires 0 <= j < |t| && j != i && 0 <= k < SLOTS
    ensures Slot(d', t'[j], k) == Slot(d, t[j], k)
    ensures Slot(d, t[j], k) != 0 ==> Slot(d, t[j], k) < |d| && d'[Slot(d, t[j], k)] == d[Slot(d, t[j], k)]
  {
    var a, s := Slot(d, t[j], NDIRECT), Slot(d, t[j], k);
    assert a != 0 ==> a in owner && owner[a] == Name(j, NDIRECT);
    assert s != 0 ==> s in owner && owner[s] == Name(j, k);
  }

  lemma OtherByte(g: Geo, d: seq<Block>, t: seq<DInode>, owner: map<int, Name>,
                  d': seq<Block>, t': seq<DInode>, owner': map<int, Name>, i: int, j: int, n: int)
    requires Sane(g, |d|) && SlotsOwned(d, t, owner) && OwnersNamed(g, d, t, owner)
    requires KeptOthers(d, t, owner, d', t', owner', i)
    requires 0 <= j < |t| && j != i && 0 <= n < MAXFILE * BSIZE
    ensures Slot(d, t[j], FileSlot(n / BSIZE)) != 0 ==> ByteAt(d', t'[j], n) == ByteAt(d, t[j], n)
  {
    OtherSlot(g, d, t, owner, d', t', owner', i, j, FileSlot(n / BSIZE));
  }

  // A file other than i reads as before.
  lemma OtherContents(g: Geo, d: seq<Block>, t: seq<DInode>, owner: map<int, Name>,
                      d': seq<Block>, t': seq<DInode>, owner': map<int, Name>, i: int, j: int)
    requires Sane(g, |d|) && SlotsOwned(d, t, owner) && OwnersNamed(g, d, t, owner)
    requires KeptOthers(d, t, owner, d', t', owner', i)
    requires 0 <= j < |t| && j != i && Tight(d, t[j], t[j].size)
    ensures Tight(d', t'[j], t'[j].size) && Contents(d', t'[j]) == Contents(d, t[j])
    ensures ZeroTail(d, t[j], t[j].size) ==> ZeroTail(d', t'[j], t'[j].size)
  {
    forall k | 0 <= k < SLOTS
      ensures Slot(d', t'[j], k) == Slot(d, t[j], k)
    {
      OtherSlot(g, d, t, owner, d', t', owner', i, j, k);
    }
    forall n {:trigger ByteAt(d', t'[j], n)} | 0 <= n < BlockEnd(t[j].size) && n < MAXFILE * BSIZE
      ensures ByteAt(d', t'[j], n) == ByteAt(d, t[j], n)
    {
      assert n / BSIZE * BSIZE < t[j].size;
      OtherByte(g, d, t, owner, d', t', owner', i, j, n);
    }
    assert t[j].size <= BlockEnd(t[j].size);
  }

  // ---- growing a file: nothing is released ----

  // Every owned block keeps its owner and, except for inode i's indirect block, its bytes.
  ghost predicate Kept(d: seq<Block>, owner: map<int, Name>, d': seq<Block>, owner': map<int, Name>, i: int) {
    && |d'| == |d|
    && forall b {:trigger owner[b]} {:trigger b in owner} :: b in owner && 0 <= b < |d| ==>
         b in owner' && owner'[b] == owner[b] && (owner[b] != Name(i, NDIRECT) ==> d'[b] == d[b])
  }

  lemma TableFrame(g: Geo, d: seq<Block>, d': seq<Block>)
    requires Sane(g, |d|) && |d'| == |d|
    requires forall x :: 2 <= x < BBlock(g, 0) ==> d'[x] == d[x]
    ensures DiskTable(g, d') == DiskTable(g, d)
  {
    forall i | 0 <= i < g.ninodes
      ensures DecodeInode(d', i) == DecodeInode(d, i)
    {
    }
  }

  // Slot k of inode i, in memory di, was given the free block b; d', di' and owner' are the result.
  ghost predicate Taken(g: Geo, d: seq<Block>, di: DInode, owner: map<int, Name>,
                        d': seq<Block>, di': DInode, owner': map<int, Name>, i: int, k: int, b: U32)
    requires Sane(g, |d|) && 0 <= k < SLOTS
  {
    && |d'| == |d| && d'[1] == d[1] && DiskTable(g, d') == DiskTable(g, d)
    && IsData(g, b) && b !in owner && owner' == owner[b := Name(i, k)]
    && (forall k' :: 0 <= k' < SLOTS ==> Slot(d', di', k') == if k' == k then b else Slot(d, di, k'))
    && Kept(d, owner, d', owner', i)
    && d'[b] == ZeroBlock()
  }

  // TakeBlock as seen by a kernel that holds inode i in memory as di.
  lemma TakeInCore(g: Geo, d: seq<Block>, owner: map<int, Name>, i: int, di: DInode, k: int, b: U32)
    requires Sane(g, |d|) && 0 <= i < g.ninodes && Owned(g, d, DiskTable(g, d)[i := di], owner)
    requires IsData(g, b) && b !in owner
    requires 0 <= k < SLOTS && Slot(d, di, k) == 0
    requires k > NDIRECT ==> di.addrs[NDIRECT] != 0
    ensures k > NDIRECT ==> IsData(g, di.addrs[NDIRECT])
    ensures var d', di', owner' := SlotDisk(SetUsed(g, d, b, true), di, k, b), SlotInode(di, k, b),
      owner[b := Name(i, k)];
      && Taken(g, d, di, owner, d', di', owner', i, k, b)
      && Owned(g, d', DiskTable(g, d')[i := di'], owner')
  {
    var t := DiskTable(g, d)[i := di];
    TakeBlock(g, d, t, owner, i, k, b);
    var d', di' := SlotDisk(SetUsed(g, d, b, true), di, k, b), SlotInode(di, k, b);
    assert t[i := di'] == DiskTable(g, d)[i := di'];
    TakeFrame(g, d, t, owner, i, k, b);
    TableFrame(g, d, d');
    forall k' | 0 <= k' < SLOTS
      ensures Slot(d', di', k') == if k' == k then b else Slot(d, di, k')
    {
      assert Slot(d', t[i := di'][i], k') == if k' == k then b else Slot(d, t[i], k');
    }
  }

  lemma TakeFrame(g: Geo, d: seq<Block>, t: seq<DInode>, owner: map<int, Name>, i: int, k: int, b: U32)
    requires Owned(g, d, t, owner)
    requires IsData(g, b) && b !in owner
    requires 0 <= i < |t| && 0 <= k < SLOTS && (k > NDIRECT ==> t[i].addrs[NDIRECT] != 0)
    ensures k > NDIRECT ==> IsData(g, t[i].addrs[NDIRECT])
    ensures var d' := SlotDisk(SetUsed(g, d, b, true), t[i], k, b);
      && |d'| == |d| && (forall x :: 0 <= x < BBlock(g, 0) ==> d'[x] == d[x])
      && Kept(d, owner, d', owner[b := Name(i, k)], i)
      && d'[b] == ZeroBlock()
  {
    SetUsedEffect(g, d, b, true);
    IndirectIsData(g, d, t, owner, i);
  }

  // How many blocks bmap must allocate to reach block bn.
  function MapCost(d: seq<Block>, di: DInode, bn: int): nat
    requires 0 <= bn < MAXFILE
  {
    (if Slot(d, di, FileSlot(bn)) == 0 then 1 else 0) + (if bn >= NDIRECT && di.addrs[NDIRECT] == 0 then 1 else 0)
  }

  // What bmap(bn) on inode i, answering b, does to the disk, the in-memory inode and the owners.
  ghost predicate Mapped(g: Geo, d: seq<Block>, di: DInode, owner: map<int, Name>,
                         d': seq<Block>, di': DInode, owner': map<int, Name>, i: int, bn: int, b: U32)
    requires 0 <= bn < MAXFILE && Sane(g, |d|)
  {
    && |d'| == |d| && d'[1] == d[1] && DiskTable(g, d') == DiskTable(g, d)
    && Kept(d, owner, d', owner', i)
    && b != 0 && IsData(g, b) && b in owner' && owner'[b] == Name(i, FileSlot(bn))
    && (forall k {:trigger Slot(d', di', k)} :: 0 <= k < SLOTS && k != NDIRECT ==>
          Slot(d', di', k) == if k == FileSlot(bn) then b else Slot(d, di, k))
    && (if bn < NDIRECT || di.addrs[NDIRECT] != 0
        then di'.addrs[NDIRECT] == di.addrs[NDIRECT] else di'.addrs[NDIRECT] != 0)
    && (Slot(d, di, FileSlot(bn)) != 0 ==> d' == d && di' == di && owner' == owner)
    && (Slot(d, di, FileSlot(bn)) == 0 ==> b !in owner && d'[b] == ZeroBlock())
    && |owner'| == |owner| + MapCost(d, di, bn)
  }

  lemma MappedNone(g: Geo, d: seq<Block>, di: DInode, owner: map<int, Name>, i: int, bn: int, b: U32)
    requires Sane(g, |d|) && 0 <= bn < MAXFILE && (bn >= NDIRECT ==> di.addrs[NDIRECT] != 0)
    requires b == Slot(d, di, FileSlot(bn)) != 0 && IsData(g, b) && b in owner && owner[b] == Name(i, FileSlot(bn))
    ensures Mapped(g, d, di, owner, d, di, owner, i, bn, b)
  {
  }

  lemma MappedOne(g: Geo, d: seq<Block>, di: DInode, owner: map<int, Name>,
                  d': seq<Block>, di': DInode, owner': map<int, Name>, i: int, bn: int, b: U32)
    requires Sane(g, |d|) && 0 <= bn < MAXFILE && (bn >= NDIRECT ==> di.addrs[NDIRECT] != 0)
    requires Slot(d, di, FileSlot(bn)) == 0 && Taken(g, d, di, owner, d', di', owner', i, FileSlot(bn), b)
    ensures Mapped(g, d, di, owner, d', di', owner', i, bn, b)
  {
    assert Slot(d', di', NDIRECT) == Slot(d, di, NDIRECT);
  }

  // The state after making sure that there is an indirect block, a.
  ghost predicate WithIndirect(g: Geo, d: seq<Block>, di: DInode, owner: map<int, Name>,
                               m: seq<Block>, mi: DInode, mowner: map<int, Name>, i: int, a: U32)
    requires Sane(g, |d|)
  {
    if di.addrs[NDIRECT] != 0 then m == d && mi == di && mowner == owner && a == di.addrs[NDIRECT]
    else Taken(g, d, di, owner, m, mi, mowner, i, NDIRECT, a)
  }

  lemma IndirectReady(g: Geo, d: seq<Block>, di: DInode, owner: map<int, Name>,
                      m: seq<Block>, mi: DInode, mowner: map<int, Name>, i: int, a: U32, bn: int)
    requires Sane(g, |d|) && NDIRECT <= bn < MAXFILE && WithIndirect(g, d, di, owner, m, mi, mowner, i, a)
    requires di.addrs[NDIRECT] != 0 ==> IsData(g, di.addrs[NDIRECT])
    ensures IsData(g, a) && mi.addrs[NDIRECT] == a && |m| == |d|
    ensures Slot(m, mi, FileSlot(bn)) == Slot(d, di, FileSlot(bn)) == Word(m[a], bn - NDIRECT)
    ensures |mowner| == |owner| + if di.addrs[NDIRECT] == 0 then 1 else 0
  {
    assert Slot(m, mi, NDIRECT) == mi.addrs[NDIRECT] && Slot(d, di, NDIRECT) == di.addrs[NDIRECT];
    if di.addrs[NDIRECT] == 0 {
      IndirectEmpty(d, di);
    }
  }

  ghost predicate ReachedBy(g: Geo, owner: map<int, Name>, i: int, bn: int, b: U32) {
    IsData(g, b) && b in owner && owner[b] == Name(i, FileSlot(bn))
  }

  // The state after making sure that there is an entry for block bn in the indirect block.
  ghost predicate WithEntry(g: Geo, m: seq<Block>, mi: DInode, mowner: map<int, Name>,
                            d': seq<Block>, di': DInode, owner': map<int, Name>, i: int, bn: int, b: U32)
    requires Sane(g, |m|) && NDIRECT <= bn < MAXFILE
  {
    var s := Slot(m, mi, FileSlot(bn));
    if s == 0 then Taken(g, m, mi, mowner, d', di', owner', i, FileSlot(bn), b)
    else d' == m && di' == mi && owner' == mowner && b == s && ReachedBy(g, mowner, i, bn, b)
  }

  // The indirect block, allocated if need be, and then the entry in it, allocated if need be.
  lemma MappedIndirect(g: Geo, d: seq<Block>, di: DInode, owner: map<int, Name>, m: seq<Block>, mi: DInode,
                       mowner: map<int, Name>,
                       d': seq<Block>, di': DInode, owner': map<int, Name>, i: int, bn: int, a: U32, b: U32)
    requires Sane(g, |d|) && NDIRECT <= bn < MAXFILE && WithIndirect(g, d, di, owner, m, mi, mowner, i, a)
    requires di.addrs[NDIRECT] != 0 ==> IsData(g, di.addrs[NDIRECT])
    requires |m| == |d| && WithEntry(g, m, mi, mowner, d', di', owner', i, bn, b)
    ensures Mapped(g, d, di, owner, d', di', owner', i, bn, b)
  {
    IndirectReady(g, d, di, owner, m, mi, mowner, i, a, bn);
    if Slot(m, mi, FileSlot(bn)) == 0 {
      if di.addrs[NDIRECT] != 0 {
        MappedOne(g, d, di, owner, d', di', owner', i, bn, b);
      } else {
        MappedTwo(g, d, di, owner, m, mi, mowner, d', di', owner', i, bn, a, b);
      }
    }
  }

  lemma MappedTwo(g: Geo, d: seq<Block>, di: DInode, owner: map<int, Name>, m: seq<Block>, mi: DInode,
                  mowner: map<int, Name>,
                  d': seq<Block>, di': DInode, owner': map<int, Name>, i: int, bn: int, a: U32, b: U32)
    requires Sane(g, |d|) && NDIRECT <= bn < MAXFILE && di.addrs[NDIRECT] == 0
    requires Taken(g, d, di, owner, m, mi, mowner, i, NDIRECT, a)
    requires Taken(g, m, mi, mowner, d', di', owner', i, FileSlot(bn), b)
    ensures Mapped(g, d, di, owner, d', di', owner', i, bn, b)
  {
    assert Slot(d, di, FileSlot(bn)) == 0;
    assert Slot(d', di', NDIRECT) == Slot(m, mi, NDIRECT) == a;
    assert a in mowner && Slot(m, mi, FileSlot(bn)) == 0;
    forall x {:trigger owner[x]} | x in owner && 0 <= x < |d|
      ensures x in owner' && owner'[x] == owner[x] && (owner[x] != Name(i, NDIRECT) ==> d'[x] == d[x])
    {
      assert x in mowner && mowner[x] == owner[x];
    }
  }

  // TakeInCore for an entry of the indirect block, whose buffer bp was read before the allocation.
  lemma TakeEntry(g: Geo, d: seq<Block>, owner: map<int, Name>, i: int, di: DInode, j: int, b: U32, bp: Block)
    requires Sane(g, |d|) && 0 <= i < g.ninodes && Owned(g, d, DiskTable(g, d)[i := di], owner)
    requires IsData(g, b) && b !in owner
    requires 0 <= j < NINDIRECT && 0 < di.addrs[NDIRECT] < |d| && bp == d[di.addrs[NDIRECT]] && Word(bp, j) == 0
    ensures var d', owner' := SetUsed(g, d, b, true)[di.addrs[NDIRECT] := PutWord(bp, j, b)],
      owner[b := Name(i, NDIRECT + 1 + j)];
      && Taken(g, d, di, owner, d', di, owner', i, NDIRECT + 1 + j, b)
      && Owned(g, d', DiskTable(g, d')[i := di], owner')
  {
    hide Owned, Taken, BitsMatch, SlotsOwned, OwnersNamed, FreeZero, Used;
    var k, a := NDIRECT + 1 + j, di.addrs[NDIRECT];
    assert Slot(d, di, k) == 0;
    TakeInCore(g, d, owner, i, di, k, b);
    SetUsedEffect(g, d, b, true);
    assert SetUsed(g, d, b, true)[a] == bp;
  }

  lemma MappedFacts(g: Geo, d: seq<Block>, di: DInode, owner: map<int, Name>,
                    d': seq<Block>, di': DInode, owner': map<int, Name>, i: int, bn: int, b: U32)
    requires Sane(g, |d|) && 0 <= bn < MAXFILE && Mapped(g, d, di, owner, d', di', owner', i, bn, b)
    ensures |d'| == |d| && d'[1] == d[1] && DiskTable(g, d') == DiskTable(g, d) && Kept(d, owner, d', owner', i)
    ensures IsData(g, b) && b in owner' && owner'[b] == Name(i, FileSlot(bn))
  {
  }

  // ---- counting ----

  function DataCount(g: Geo): int {
    g.size - DataStart(g)
  }

  function DataBlocks(g: Geo): (s: set<int>)
    requires DataStart(g) <= g.size
    ensures |s| == DataCount(g) && forall b :: b in s <==> IsData(g, b)
  {
    Range(DataStart(g), g.size)
  }

  function Range(lo: int, hi: int): (s: set<int>)
    requires lo <= hi
    ensures |s| == hi - lo && forall b :: b in s <==> lo <= b < hi
    decreases hi - lo
  {
    if lo == hi then {} else Range(lo, hi - 1) + {hi - 1}
  }

  // Some data block is free exactly when fewer blocks are owned than there are.
  lemma FreeBlockExists(g: Geo, owner: map<int, Name>)
    requires DataStart(g) <= g.size
    requires forall b :: b in owner ==> IsData(g, b)
    ensures |owner| < DataCount(g) <==> exists b :: IsData(g, b) && b !in owner
  {
    assert |owner.Keys| == |owner|;
    assert owner.Keys <= DataBlocks(g);
    if forall b :: IsData(g, b) ==> b in owner {
      assert owner.Keys == DataBlocks(g);
    } else {
      var b :| IsData(g, b) && b !in owner;
      assert owner.Keys < DataBlocks(g);
      Strict(owner.Keys, DataBlocks(g), b);
    }
  }

  lemma OwnersAtMost(g: Geo, owner: map<int, Name>)
    requires DataStart(g) <= g.size
    requires forall b :: b in owner ==> IsData(g, b)
    ensures |owner| <= DataCount(g)
  {
    if forall b :: IsData(g, b) ==> b in owner {
      assert owner.Keys == DataBlocks(g);
    } else {
      FreeBlockExists(g, owner);
    }
  }

  // What bmap relies on: the blocks it finds in slots are data blocks of this file, and there are only so many.
  lemma ReachSlot(g: Geo, d: seq<Block>, t: seq<DInode>, owner: map<int, Name>, i: int, bn: int)
    requires Owned(g, d, t, owner) && 0 <= i < |t| && 0 <= bn < MAXFILE
    ensures var s := Slot(d, t[i], FileSlot(bn)); s != 0 ==>
      IsData(g, s) && s in owner && owner[s] == Name(i, FileSlot(bn))
    ensures var a := t[i].addrs[NDIRECT]; a != 0 ==> IsData(g, a) && a in owner && owner[a] == Name(i, NDIRECT)
    ensures |owner| <= DataCount(g)
  {
    SlotIsOwned(g, d, t, owner, i, FileSlot(bn));
    IndirectIsData(g, d, t, owner, i);
    OwnersAtMost(g, owner);
  }

  lemma Strict(s: set<int>, u: set<int>, b: int)
    requires s <= u && b in u && b !in s
    ensures |s| < |u|
  {
    assert u == s + (u - s) && b in u - s;
  }
}
