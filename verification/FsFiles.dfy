/** File contents as byte strings: what one step of readi, writei and itrunc does to them. */
module FsFiles {
  import opened Basics
  import opened DiskFormat
  import opened FsLayout
  import opened FsOwnership

  // Data blocks and indirect block of a file of `size` bytes.
  function BlocksFor(size: int): int {
    (size + BSIZE - 1) / BSIZE + (if size > NDIRECT * BSIZE then 1 else 0)
  }

  // s with w written over it from position off, growing if need be.
  function Overlay(s: seq<Byte>, off: int, w: seq<Byte>): seq<Byte>
    requires 0 <= off <= |s|
  {
    s[..off] + w + (if off + |w| < |s| then s[off + |w|..] else [])
  }

  // A block with the bytes w copied in from position at.
  function Patch(b: Block, at: int, w: seq<Byte>): Block
    requires 0 <= at && at + |w| <= BSIZE
  {
    b[..at] + w + b[at + |w|..]
  }

  // Reaching block bn of a file that is full up to it makes the file tight up to anywhere in that block.
  lemma MappedTight(g: Geo, d: seq<Block>, di: DInode, owner: map<int, Name>,
                    d': seq<Block>, di': DInode, owner': map<int, Name>, i: int, bn: int, b: U32, cover: int, end: int)
    requires Sane(g, |d|) && 0 <= bn < MAXFILE && Tight(d, di, cover)
    requires bn * BSIZE <= cover && bn * BSIZE < end <= (bn + 1) * BSIZE
    requires Mapped(g, d, di, owner, d', di', owner', i, bn, b)
    ensures Tight(d', di', Max(cover, end))
    ensures MapCost(d, di, bn) == BlocksFor(Max(cover, end)) - BlocksFor(cover)
    ensures |owner'| - |owner| == BlocksFor(Max(cover, end)) - BlocksFor(cover)
  {
    forall n | 0 <= n < MAXFILE
      ensures Slot(d', di', FileSlot(n)) != 0 <==> n * BSIZE < Max(cover, end)
    {
    }
    MapCostIs(d, di, bn, cover, end);
  }

  lemma MapCostIs(d: seq<Block>, di: DInode, bn: int, cover: int, end: int)
    requires 0 <= bn < MAXFILE && Tight(d, di, cover)
    requires bn * BSIZE <= cover && bn * BSIZE < end <= (bn + 1) * BSIZE
    ensures MapCost(d, di, bn) == BlocksFor(Max(cover, end)) - BlocksFor(cover)
  {
    if bn * BSIZE < cover {
      assert (Max(cover, end) + BSIZE - 1) / BSIZE == (cover + BSIZE - 1) / BSIZE;
    } else {
      assert cover == bn * BSIZE;
      assert (end + BSIZE - 1) / BSIZE == bn + 1;
    }
  }

  // Writing a data block that file slot k of inode i names disturbs no slot and no ownership.
  lemma StoreDataOwned(g: Geo, d: seq<Block>, t: seq<DInode>, owner: map<int, Name>, b: int, blk: Block)
    requires Owned(g, d, t, owner) && b in owner && owner[b].slot != NDIRECT
    ensures 0 <= b < |d|
    ensures Owned(g, d[b := blk], t, owner)
    ensures forall i, k {:trigger Slot(d[b := blk], t[i], k)} :: 0 <= i < |t| && 0 <= k < SLOTS ==>
      Slot(d[b := blk], t[i], k) == Slot(d, t[i], k)
  {
    var d' := d[b := blk];
    forall i, k | 0 <= i < |t| && 0 <= k < SLOTS
      ensures Slot(d', t[i], k) == Slot(d, t[i], k)
    {
      IndirectIsData(g, d, t, owner, i);
    }
    BitmapFrame(g, d, d');
    NamesFrame(g, d, t, owner, d', t);
  }

  // Byte k when w has been laid over the file from o: in a block that the file did not have, the rest is zero.
  function After(d: seq<Block>, di: DInode, cover: int, o: int, w: seq<Byte>, k: int): Byte
    requires 0 <= k < MAXFILE * BSIZE
  {
    if o <= k < o + |w| then w[k - o] else if k < BlockEnd(cover) then ByteAt(d, di, k) else 0
  }

  // One turn of the copy loop in writei: bmap answered b for block bn, and w is copied into it at position o.
  // The invariant of the loop, and its next instance, are about the bytes in the blocks up to `cover`.
  lemma StepByte(g: Geo, d: seq<Block>, t: seq<DInode>, owner: map<int, Name>, d': seq<Block>, di': DInode,
                 owner': map<int, Name>,
                 i: int, b: U32, cover: int, o: int, w: seq<Byte>, k: int)
    requires Sane(g, |d|) && SlotsOwned(d, t, owner) && OwnersNamed(g, d, t, owner) && 0 <= i < |t|
    requires Tight(d, t[i], cover) && 0 <= o <= cover && 0 < |w| && o % BSIZE + |w| <= BSIZE && o / BSIZE < MAXFILE
    requires Mapped(g, d, t[i], owner, d', di', owner', i, o / BSIZE, b)
    requires 0 <= k < BlockEnd(Max(cover, o + |w|))
    requires Slot(d'[b := Patch(d'[b], o % BSIZE, w)], di', FileSlot(k / BSIZE)) == Slot(d', di', FileSlot(k / BSIZE))
    ensures k < MAXFILE * BSIZE
    ensures ByteAt(d'[b := Patch(d'[b], o % BSIZE, w)], di', k) == After(d, t[i], cover, o, w, k)
  {
    hide SlotsOwned, OwnersNamed, Patch, Tight, Mapped;
    LastByte(d, t[i], cover, o, |w|);
    assert k < MAXFILE * BSIZE;
    if k / BSIZE == o / BSIZE {
      SameBlockByte(g, d, t[i], owner, d', di', owner', i, b, cover, o, w, k);
    } else {
      OtherBlockByte(g, d, t, owner, d', di', owner', i, b, cover, o, w, k);
    }
  }

  lemma SameBlockByte(g: Geo, d: seq<Block>, di: DInode, owner: map<int, Name>, d': seq<Block>, di': DInode,
                      owner': map<int, Name>,
                      i: int, b: U32, cover: int, o: int, w: seq<Byte>, k: int)
    requires Sane(g, |d|) && Tight(d, di, cover) && 0 <= o <= cover && o % BSIZE + |w| <= BSIZE && o / BSIZE < MAXFILE
    requires Mapped(g, d, di, owner, d', di', owner', i, o / BSIZE, b) && 0 <= k && k / BSIZE == o / BSIZE
    requires Slot(d'[b := Patch(d'[b], o % BSIZE, w)], di', FileSlot(k / BSIZE)) == Slot(d', di', FileSlot(k / BSIZE))
    ensures ByteAt(d'[b := Patch(d'[b], o % BSIZE, w)], di', k) == After(d, di, cover, o, w, k)
  {
    var bn := o / BSIZE;
    if Slot(d, di, FileSlot(bn)) == 0 {
      assert o == cover == bn * BSIZE && BlockEnd(cover) == cover;
    } else {
      assert k < BlockEnd(cover);
    }
    assert k % BSIZE - o % BSIZE == k - o;
  }

  lemma OtherBlockByte(g: Geo, d: seq<Block>, t: seq<DInode>, owner: map<int, Name>, d': seq<Block>, di': DInode,
                       owner': map<int, Name>, i: int, b: U32, cover: int, o: int, w: seq<Byte>, k: int)
    requires Sane(g, |d|) && SlotsOwned(d, t, owner) && OwnersNamed(g, d, t, owner) && 0 <= i < |t|
    requires Tight(d, t[i], cover) && 0 <= o <= cover && 0 < |w| && o % BSIZE + |w| <= BSIZE && o / BSIZE < MAXFILE
    requires Mapped(g, d, t[i], owner, d', di', owner', i, o / BSIZE, b)
    requires 0 <= k < BlockEnd(Max(cover, o + |w|)) && k / BSIZE < MAXFILE && k / BSIZE != o / BSIZE
    requires Slot(d'[b := Patch(d'[b], o % BSIZE, w)], di', FileSlot(k / BSIZE)) == Slot(d', di', FileSlot(k / BSIZE))
    ensures ByteAt(d'[b := Patch(d'[b], o % BSIZE, w)], di', k) == After(d, t[i], cover, o, w, k)
  {
    hide SlotsOwned, OwnersNamed, Patch;
    var bn, n := o / BSIZE, k / BSIZE;
    OtherBlock(cover, o, |w|, k);
    SlotIsOwned(g, d, t, owner, i, FileSlot(n));
    assert FileSlot(n) != FileSlot(bn) && FileSlot(n) != NDIRECT;
    var s := Slot(d, t[i], FileSlot(n));
    assert s in owner && owner'[s] == Name(i, FileSlot(n));
    assert s != b && d'[s] == d[s];
  }

  lemma OtherBlock(cover: int, o: int, m: int, k: int)
    requires 0 <= o <= cover && 0 < m && o % BSIZE + m <= BSIZE && 0 <= k < BlockEnd(Max(cover, o + m))
    requires k / BSIZE != o / BSIZE
    ensures k / BSIZE * BSIZE < cover && k < BlockEnd(cover) && !(o <= k < o + m)
  {
  }

  lemma TightSame(d: seq<Block>, di: DInode, d': seq<Block>, di': DInode, cover: int)
    requires Tight(d, di, cover) && forall k :: 0 <= k < SLOTS ==> Slot(d', di', k) == Slot(d, di, k)
    ensures Tight(d', di', cover)
  {
    assert Slot(d', di', NDIRECT) == Slot(d, di, NDIRECT);
  }

  lemma DataWrite(g: Geo, d: seq<Block>, b: int, blk: Block)
    requires Sane(g, |d|) && IsData(g, b)
    ensures |d[b := blk]| == |d| && d[b := blk][1] == d[1] && DiskTable(g, d[b := blk]) == DiskTable(g, d)
  {
    TableFrame(g, d, d[b := blk]);
  }

  // All of StepByte's bytes at once.
  ghost predicate Stepped(d: seq<Block>, di: DInode, d': seq<Block>, di': DInode, cover: int, o: int, w: seq<Byte>) {
    0 <= o <= cover && Max(cover, o + |w|) <= MAXFILE * BSIZE
    && forall k {:trigger ByteAt(d', di', k)} :: 0 <= k < BlockEnd(Max(cover, o + |w|)) ==>
         ByteAt(d', di', k) == After(d, di, cover, o, w, k)
  }

  lemma StepBytes(g: Geo, d: seq<Block>, t: seq<DInode>, owner: map<int, Name>, d': seq<Block>, di': DInode,
                  owner': map<int, Name>,
                  i: int, b: U32, cover: int, o: int, w: seq<Byte>)
    requires Owned(g, d, t, owner) && 0 <= i < |t|
    requires Tight(d, t[i], cover) && 0 <= o <= cover && 0 < |w| && o % BSIZE + |w| <= BSIZE && o / BSIZE < MAXFILE
    requires Mapped(g, d, t[i], owner, d', di', owner', i, o / BSIZE, b)
    requires 0 <= b < |d'|
    requires forall k :: 0 <= k < SLOTS ==> Slot(d'[b := Patch(d'[b], o % BSIZE, w)], di', k) == Slot(d', di', k)
    ensures Stepped(d, t[i], d'[b := Patch(d'[b], o % BSIZE, w)], di', cover, o, w)
  {
    hide Used, Mapped, Tight, BitsMatch, FreeZero, Patch, SlotsOwned, OwnersNamed;
    LastByte(d, t[i], cover, o, |w|);
    var d2 := d'[b := Patch(d'[b], o % BSIZE, w)];
    assert BlockEnd(Max(cover, o + |w|)) <= MAXFILE * BSIZE;
    forall k {:trigger ByteAt(d2, di', k)} | 0 <= k < BlockEnd(Max(cover, o + |w|))
      ensures ByteAt(d2, di', k) == After(d, t[i], cover, o, w, k)
    {
      StepByte(g, d, t, owner, d', di', owner', i, b, cover, o, w, k);
    }
  }

  lemma LastByte(d: seq<Block>, di: DInode, cover: int, o: int, m: int)
    requires Tight(d, di, cover) && 0 <= o <= cover && 0 < m && o % BSIZE + m <= BSIZE && o / BSIZE < MAXFILE
    ensures Max(cover, o + m) <= MAXFILE * BSIZE
  {
  }

  lemma OwnedParts(g: Geo, d: seq<Block>, t: seq<DInode>, owner: map<int, Name>)
    requires Owned(g, d, t, owner)
    ensures Sane(g, |d|) && |t| == g.ninodes && SlotsOwned(d, t, owner) && OwnersNamed(g, d, t, owner)
  {
  }

  lemma KeptSelf(d: seq<Block>, t: seq<DInode>, owner: map<int, Name>, i: int)
    ensures KeptOthers(d, t, owner, d, t, owner, i)
  {
  }

  lemma Step(g: Geo, d: seq<Block>, t: seq<DInode>, owner: map<int, Name>, d': seq<Block>, di': DInode,
             owner': map<int, Name>,
             i: int, b: U32, cover: int, o: int, w: seq<Byte>)
    requires Owned(g, d, t, owner) && 0 <= i < |t| && t == DiskTable(g, d)[i := t[i]]
    requires Tight(d, t[i], cover) && 0 <= o <= cover && 0 < |w| && o % BSIZE + |w| <= BSIZE && o / BSIZE < MAXFILE
    requires Mapped(g, d, t[i], owner, d', di', owner', i, o / BSIZE, b)
    requires Owned(g, d', DiskTable(g, d')[i := di'], owner')
    ensures var d2 := d'[b := Patch(d'[b], o % BSIZE, w)];
      && |d2| == |d| && d2[1] == d[1] && DiskTable(g, d2) == DiskTable(g, d)
      && Owned(g, d2, t[i := di'], owner')
      && Tight(d2, di', Max(cover, o + |w|))
      && Stepped(d, t[i], d2, di', cover, o, w)
      && KeptOthers(d, t, owner, d2, t[i := di'], owner', i)
    ensures |owner'| - |owner| == BlocksFor(Max(cover, o + |w|)) - BlocksFor(cover)
  {
    hide Used, Owned, Mapped, Tight, BitsMatch, FreeZero, Patch, ByteAt, SlotsOwned, OwnersNamed, Stepped, KeptOthers;
    hide Kept;
    hide BlocksFor, Slot, DecodeInode, After, BlockEnd, DataStart;
    OwnedParts(g, d, t, owner);
    KeptSelf(d, t, owner, i);
    var t' := t[i := di'];
    MappedFacts(g, d, t[i], owner, d', di', owner', i, o / BSIZE, b);
    var blk := Patch(d'[b], o % BSIZE, w);
    var d2, end := d'[b := blk], o + |w|;
    assert t' == DiskTable(g, d')[i := di'];
    OwnedParts(g, d', t', owner');
    MappedTight(g, d, t[i], owner, d', di', owner', i, o / BSIZE, b, cover, end);
    StoreDataOwned(g, d', t', owner', b, blk);
    DataWrite(g, d', b, blk);
    assert t'[i] == di' && forall k :: 0 <= k < SLOTS ==> Slot(d2, t'[i], k) == Slot(d', t'[i], k);
    TightSame(d', di', d2, di', Max(cover, end));
    StepBytes(g, d, t, owner, d', di', owner', i, b, cover, o, w);
    KeptToOthers(g, d, t, owner, d, t, owner, d', t', owner', i, b, blk);
  }

  // Nothing below `cover` is a hole, so bmap only looks it up.
  lemma LookupOnly(d: seq<Block>, di: DInode, cover: int, bn: int)
    requires Tight(d, di, cover) && 0 <= bn && bn * BSIZE < cover
    ensures bn < MAXFILE && Slot(d, di, FileSlot(bn)) != 0 && MapCost(d, di, bn) == 0
  {
  }

  lemma BlocksForMonotone(a: int, b: int)
    requires a <= b
    ensures BlocksFor(a) <= BlocksFor(b)
  {
  }

  lemma KeptToOthers(g: Geo, d: seq<Block>, t: seq<DInode>, owner: map<int, Name>,
                     m: seq<Block>, mt: seq<DInode>, mowner: map<int, Name>,
                     d': seq<Block>, t': seq<DInode>, owner': map<int, Name>, i: int, b: int, blk: Block)
    requires KeptOthers(d, t, owner, m, mt, mowner, i) && Kept(m, mowner, d', owner', i)
    requires |t'| == |mt| && forall j :: 0 <= j < |mt| && j != i ==> t'[j] == mt[j]
    requires 0 <= b < |d'| && b in owner' && owner'[b].inum == i
    ensures KeptOthers(d, t, owner, d'[b := blk], t', owner', i)
  {
  }

  // ---- iupdate ----

  lemma StoreInodeOwned(g: Geo, d: seq<Block>, owner: map<int, Name>, i: int, di: DInode)
    requires Sane(g, |d|) && 0 <= i < g.ninodes && Owned(g, d, DiskTable(g, d)[i := di], owner)
    ensures var d' := StoreInode(d, i, di);
      && |d'| == |d| && d'[1] == d[1]
      && (forall x :: 0 <= x < |d| && !(2 <= x < BBlock(g, 0)) ==> d'[x] == d[x])
      && DiskTable(g, d') == DiskTable(g, d)[i := di]
      && Owned(g, d', DiskTable(g, d'), owner)
      && forall j, k {:trigger Slot(d', DiskTable(g, d')[j], k)} :: 0 <= j < g.ninodes && 0 <= k < SLOTS ==>
           Slot(d', DiskTable(g, d')[j], k) == Slot(d, DiskTable(g, d)[i := di][j], k)
  {
    var d', t := StoreInode(d, i, di), DiskTable(g, d)[i := di];
    StoreInodeTable(g, d, i, di);
    SlotFrame(g, d, t, owner, d');
    BitmapFrame(g, d, d');
    NamesFrame(g, d, t, owner, d', t);
  }

  lemma StoreInodeTable(g: Geo, d: seq<Block>, i: int, di: DInode)
    requires Sane(g, |d|) && 0 <= i < g.ninodes
    ensures |StoreInode(d, i, di)| == |d|
    ensures DiskTable(g, StoreInode(d, i, di)) == DiskTable(g, d)[i := di]
    ensures forall x :: 0 <= x < |d| && !(2 <= x < BBlock(g, 0)) ==> StoreInode(d, i, di)[x] == d[x]
  {
    forall j | 0 <= j < g.ninodes
      ensures DecodeInode(StoreInode(d, i, di), j) == if j == i then di else DecodeInode(d, j)
    {
      DecodeStoreInode(d, i, di, j);
    }
  }

  // Slots read nothing but data blocks.
  lemma SlotFrame(g: Geo, d: seq<Block>, t: seq<DInode>, owner: map<int, Name>, d': seq<Block>)
    requires SlotsOwned(d, t, owner) && OwnersNamed(g, d, t, owner)
    requires |d'| == |d| && forall x :: 0 <= x < |d| && IsData(g, x) ==> d'[x] == d[x]
    ensures forall j, k {:trigger Slot(d', t[j], k)} :: 0 <= j < |t| && 0 <= k < SLOTS ==>
      Slot(d', t[j], k) == Slot(d, t[j], k)
  {
    forall j, k | 0 <= j < |t| && 0 <= k < SLOTS
      ensures Slot(d', t[j], k) == Slot(d, t[j], k)
    {
      IndirectIsData(g, d, t, owner, j);
    }
  }

  lemma NamesFrame(g: Geo, d: seq<Block>, t: seq<DInode>, owner: map<int, Name>, d': seq<Block>, t': seq<DInode>)
    requires SlotsOwned(d, t, owner) && OwnersNamed(g, d, t, owner) && |t'| == |t|
    requires forall j, k {:trigger Slot(d', t'[j], k)} :: 0 <= j < |t| && 0 <= k < SLOTS ==>
      Slot(d', t'[j], k) == Slot(d, t[j], k)
    ensures SlotsOwned(d', t', owner) && OwnersNamed(g, d', t', owner)
  {
  }

  // ---- a whole write ----

  lemma SteppedTwice(d: seq<Block>, di: DInode, m: seq<Block>, mi: DInode, d': seq<Block>, di': DInode,
                     cover: int, o: int, v: seq<Byte>, w: seq<Byte>)
    requires Stepped(d, di, m, mi, cover, o, v)
    requires Stepped(m, mi, d', di', Max(cover, o + |v|), o + |v|, w)
    ensures Stepped(d, di, d', di', cover, o, v + w)
  {
    assert Max(Max(cover, o + |v|), o + |v| + |w|) == Max(cover, o + |v + w|);
    BlockEndGrows(cover, Max(cover, o + |v|));
    BlockEndGrows(Max(cover, o + |v|), Max(cover, o + |v + w|));
    BlockEndGrows(Max(cover, o + |v + w|), MAXFILE * BSIZE);
  }

  lemma BlockEndGrows(a: int, b: int)
    requires a <= b
    ensures a <= BlockEnd(a) <= BlockEnd(b)
  {
  }

  lemma KeptOthersTwice(d: seq<Block>, t: seq<DInode>, owner: map<int, Name>, m: seq<Block>, mt: seq<DInode>,
                        mowner: map<int, Name>,
                        d': seq<Block>, t': seq<DInode>, owner': map<int, Name>, i: int)
    requires KeptOthers(d, t, owner, m, mt, mowner, i) && KeptOthers(m, mt, mowner, d', t', owner', i)
    ensures KeptOthers(d, t, owner, d', t', owner', i)
  {
  }

  // From (d, t, owner) to (d', t', owner'): w has been laid over file i from o, which had its blocks up to cover.
  ghost predicate Copied(g: Geo, d: seq<Block>, t: seq<DInode>, owner: map<int, Name>,
                         d': seq<Block>, t': seq<DInode>, owner': map<int, Name>, i: int, cover: int, o: int,
                         w: seq<Byte>)
  {
    && Owned(g, d', t', owner') && 0 <= i < |t| == |t'|
    && Tight(d', t'[i], Max(cover, o + |w|))
    && Stepped(d, t[i], d', t'[i], cover, o, w)
    && KeptOthers(d, t, owner, d', t', owner', i)
    && SameTail(g, d, d')
    && |owner'| - |owner| == BlocksFor(Max(cover, o + |w|)) - BlocksFor(cover)
  }

  lemma CopiedTwice(g: Geo, d: seq<Block>, t: seq<DInode>, owner: map<int, Name>,
                    m: seq<Block>, mt: seq<DInode>, mowner: map<int, Name>,
                    d': seq<Block>, t': seq<DInode>, owner': map<int, Name>, i: int, cover: int, o: int, v: seq<Byte>,
                    w: seq<Byte>)
    requires Copied(g, d, t, owner, m, mt, mowner, i, cover, o, v)
    requires Copied(g, m, mt, mowner, d', t', owner', i, Max(cover, o + |v|), o + |v|, w)
    ensures Copied(g, d, t, owner, d', t', owner', i, cover, o, v + w)
  {
    hide Owned, Tight, Stepped, KeptOthers, SameTail, BlocksFor;
    SteppedTwice(d, t[i], m, mt[i], d', t'[i], cover, o, v, w);
    KeptOthersTwice(d, t, owner, m, mt, mowner, d', t', owner', i);
    SameTailTwice(g, d, m, d');
    assert Max(Max(cover, o + |v|), o + |v| + |w|) == Max(cover, o + |v + w|);
  }

  lemma NothingCopied(g: Geo, d: seq<Block>, t: seq<DInode>, owner: map<int, Name>, i: int, o: int)
    requires Owned(g, d, t, owner) && AllTight(d, t) && 0 <= i < |t| && 0 <= o <= t[i].size
    ensures Copied(g, d, t, owner, d, t, owner, i, t[i].size, o, [])
  {
    hide SlotsOwned, OwnersNamed, BitsMatch, FreeZero, Tight, BlocksFor;
    var w: seq<Byte> := [];
    assert Max(t[i].size, o + |w|) == t[i].size;
    LastByteOfTight(d, t[i]);
    assert Copied(g, d, t, owner, d, t, owner, i, t[i].size, o, w);
  }

  lemma LastByteOfTight(d: seq<Block>, di: DInode)
    requires Tight(d, di, di.size)
    ensures di.size <= MAXFILE * BSIZE
  {
  }

  // What the next turn of the loop needs to know.
  lemma CopiedFacts(g: Geo, d: seq<Block>, t: seq<DInode>, owner: map<int, Name>,
                    d': seq<Block>, t': seq<DInode>, owner': map<int, Name>, i: int, cover: int, o: int, w: seq<Byte>)
    requires Copied(g, d, t, owner, d', t', owner', i, cover, o, w)
    ensures 0 <= i < |t| == |t'| && 0 <= o <= cover && Owned(g, d', t', owner') && Tight(d', t'[i], Max(cover, o + |w|))
    ensures |owner'| - |owner| == BlocksFor(Max(cover, o + |w|)) - BlocksFor(cover) && |owner'| <= DataCount(g)
    ensures SpareBit(g, d') <==> SpareBit(g, d)
    ensures Stepped(d, t[i], d', t'[i], cover, o, w) && KeptOthers(d, t, owner, d', t', owner', i)
  {
    hide Tight, KeptOthers, BlocksFor, SpareBit;
    OwnersAreData(g, d', t', owner');
    SameSpare(g, d, d');
  }

  // The size field says nothing about blocks.
  lemma Resize(g: Geo, d: seq<Block>, t: seq<DInode>, owner: map<int, Name>, i: int, size: U32)
    requires Owned(g, d, t, owner) && 0 <= i < |t|
    ensures Owned(g, d, t[i := t[i].(size := size)], owner)
    ensures forall k :: 0 <= k < SLOTS ==> Slot(d, t[i].(size := size), k) == Slot(d, t[i], k)
  {
    NamesFrame(g, d, t, owner, d, t[i := t[i].(size := size)]);
  }

  // Slots and data blocks decide the bytes of a file.
  lemma SameBytes(g: Geo, d: seq<Block>, t: seq<DInode>, owner: map<int, Name>, d': seq<Block>, di': DInode, i: int,
                  cover: int)
    requires Sane(g, |d|) && SlotsOwned(d, t, owner) && OwnersNamed(g, d, t, owner) && 0 <= i < |t|
    requires Tight(d, t[i], cover)
    requires |d'| == |d| && forall x :: IsData(g, x) ==> d'[x] == d[x]
    requires forall k :: 0 <= k < SLOTS ==> Slot(d', di', k) == Slot(d, t[i], k)
    ensures Tight(d', di', cover)
    ensures forall k {:trigger ByteAt(d', di', k)} :: 0 <= k < BlockEnd(cover) && k < MAXFILE * BSIZE ==>
      ByteAt(d', di', k) == ByteAt(d, t[i], k)
  {
    assert Slot(d', di', NDIRECT) == Slot(d, t[i], NDIRECT);
    forall k {:trigger ByteAt(d', di', k)} | 0 <= k < BlockEnd(cover) && k < MAXFILE * BSIZE
      ensures ByteAt(d', di', k) == ByteAt(d, t[i], k)
    {
      SlotIsOwned(g, d, t, owner, i, FileSlot(k / BSIZE));
    }
  }

  // Every file has exactly the blocks its size needs, with zeros past its end, and a free inode has none.
  ghost predicate AllTight(d: seq<Block>, t: seq<DInode>) {
    forall j :: 0 <= j < |t| ==>
      Tight(d, t[j], t[j].size) && ZeroTail(d, t[j], t[j].size) && (t[j].kind == 0 ==> t[j].size == 0)
  }

  // The state (d', t', owner') is one in which w has been stored at off in file i, and inode i written back.
  ghost predicate Stored(g: Geo, d: seq<Block>, t: seq<DInode>, d': seq<Block>, owner: map<int, Name>,
                         owner': map<int, Name>,
                         i: int, off: int, w: seq<Byte>)
    requires Sane(g, |d'|) && |t| == g.ninodes && 0 <= i < |t|
  {
    var t' := DiskTable(g, d');
    && Owned(g, d', t', owner') && KeptOthers(d, t, owner, d', t', owner', i)
    && Stepped(d, t[i], d', t'[i], t[i].size, off, w)
    && t'[i].size == Max(t[i].size, off + |w|) && t'[i].kind != 0 && Tight(d', t'[i], t'[i].size)
  }

  // What a write of w at off into file i means for every file.
  lemma WriteDone(g: Geo, d: seq<Block>, t: seq<DInode>, d': seq<Block>, owner: map<int, Name>, owner': map<int, Name>,
                  i: int, off: int, w: seq<Byte>)
    requires Owned(g, d, t, owner) && AllTight(d, t) && 0 <= i < |t|
    requires Sane(g, |d'|) && Stored(g, d, t, d', owner, owner', i, off, w)
    ensures var t' := DiskTable(g, d');
      && Owned(g, d', t', owner') && AllTight(d', t')
      && (forall j :: 0 <= j < |t| && j != i ==> Contents(d', t'[j]) == Contents(d, t[j]) && t'[j] == t[j])
      && 0 <= off <= t[i].size && Contents(d', t'[i]) == Overlay(Contents(d, t[i]), off, w)
  {
    var t' := DiskTable(g, d');
    forall j | 0 <= j < |t| && j != i
      ensures Tight(d', t'[j], t'[j].size) && ZeroTail(d', t'[j], t'[j].size)
      ensures Contents(d', t'[j]) == Contents(d, t[j])
    {
      OtherContents(g, d, t, owner, d', t', owner', i, j);
    }
    BlockEndGrows(t[i].size, t'[i].size);
    OverlayAt(Contents(d, t[i]), off, w);
    forall k | 0 <= k < t'[i].size
      ensures Contents(d', t'[i])[k] == Overlay(Contents(d, t[i]), off, w)[k]
    {
    }
  }

  lemma OverlayAt(s: seq<Byte>, off: int, w: seq<Byte>)
    requires 0 <= off <= |s|
    ensures |Overlay(s, off, w)| == Max(|s|, off + |w|)
    ensures forall k :: 0 <= k < Max(|s|, off + |w|) ==>
      Overlay(s, off, w)[k] == if off <= k < off + |w| then w[k - off] else s[k]
  {
  }

  // The size is recorded and the inode written back.
  lemma WriteBack(g: Geo, d: seq<Block>, t: seq<DInode>, owner: map<int, Name>, m: seq<Block>, di: DInode,
                  mowner: map<int, Name>,
                  i: int, off: int, w: seq<Byte>, size: U32)
    requires Sane(g, |m|) && 0 <= i < g.ninodes && Owned(g, m, DiskTable(g, m)[i := di], mowner) && |t| == g.ninodes
    requires KeptOthers(d, t, owner, m, DiskTable(g, m)[i := di], mowner, i)
    requires forall b :: b in owner ==> IsData(g, b)
    requires Stepped(d, t[i], m, di, t[i].size, off, w) && size == Max(t[i].size, off + |w|) && di.kind != 0
    requires Tight(m, di, size)
    ensures var d' := StoreInode(m, i, di.(size := size));
      && |d'| == |d| && d'[1] == m[1] && DiskTable(g, d')[i] == di.(size := size)
      && Stored(g, d, t, d', owner, mowner, i, off, w)
  {
    hide SlotsOwned, OwnersNamed, BitsMatch, FreeZero, Tight, Stepped, DecodeInode, StoreInode;
    var mt, di' := DiskTable(g, m)[i := di], di.(size := size);
    Resize(g, m, mt, mowner, i, size);
    assert mt[i := di'] == DiskTable(g, m)[i := di'];
    StoreInodeOwned(g, m, mowner, i, di');
    var d' := StoreInode(m, i, di');
    forall k | 0 <= k < SLOTS
      ensures Slot(d', di', k) == Slot(m, di, k)
    {
      assert Slot(d', DiskTable(g, d')[i], k) == Slot(m, DiskTable(g, m)[i := di'][i], k);
    }
    SameBytes(g, m, mt, mowner, d', di', i, size);
    SteppedSame(d, t[i], m, di, d', di', t[i].size, off, w);
  }

  lemma SteppedSame(d: seq<Block>, di: DInode, m: seq<Block>, mi: DInode, d': seq<Block>, di': DInode, cover: int,
                    o: int, w: seq<Byte>)
    requires Stepped(d, di, m, mi, cover, o, w)
    requires forall k {:trigger ByteAt(d', di', k)} :: 0 <= k < BlockEnd(Max(cover, o + |w|)) && k < MAXFILE * BSIZE ==>
      ByteAt(d', di', k) == ByteAt(m, mi, k)
    ensures Stepped(d, di, d', di', cover, o, w)
  {
    BlockEndGrows(Max(cover, o + |w|), MAXFILE * BSIZE);
  }

  // A write that does not lengthen the file needs no inode update.
  lemma InPlace(g: Geo, d: seq<Block>, t: seq<DInode>, owner: map<int, Name>, m: seq<Block>, di: DInode,
                mowner: map<int, Name>,
                i: int, off: int, w: seq<Byte>)
    requires Sane(g, |m|) && 0 <= i < g.ninodes && Owned(g, m, DiskTable(g, m)[i := di], mowner) && |t| == g.ninodes
    requires KeptOthers(d, t, owner, m, DiskTable(g, m)[i := di], mowner, i)
    requires t == DiskTable(g, m) && t[i] == di && off + |w| <= di.size && di.kind != 0 && Tight(m, di, di.size)
    requires Stepped(d, di, m, di, di.size, off, w)
    ensures Stored(g, d, t, m, owner, mowner, i, off, w)
  {
    assert DiskTable(g, m)[i := di] == DiskTable(g, m);
  }

  lemma Unchanged(g: Geo, d: seq<Block>, di: DInode, owner: map<int, Name>, d': seq<Block>, di': DInode,
                  owner': map<int, Name>,
                  i: int, o: int, b: U32, cover: int)
    requires Sane(g, |d|) && 0 <= o && o / BSIZE < MAXFILE && Tight(d, di, cover)
    requires Mapped(g, d, di, owner, d', di', owner', i, o / BSIZE, b)
    ensures o < cover ==> di' == di && d' == d && owner' == owner
  {
  }

  lemma OwnersAreData(g: Geo, d: seq<Block>, t: seq<DInode>, owner: map<int, Name>)
    requires Owned(g, d, t, owner)
    ensures forall b :: b in owner ==> IsData(g, b)
    ensures |owner| <= DataCount(g)
  {
    OwnersAtMost(g, owner);
  }

  lemma SizeBound(d: seq<Block>, t: seq<DInode>, i: int)
    requires AllTight(d, t) && 0 <= i < |t|
    ensures t[i].size <= MAXFILE * BSIZE
  {
  }

  // ---- reading ----

  // A stretch of one block is the same stretch of the file.
  lemma ChunkRead(d: seq<Block>, di: DInode, o: int, m: int)
    requires di.size <= MAXFILE * BSIZE && 0 <= o && 0 < m && o % BSIZE + m <= BSIZE && o + m <= di.size
    requires Slot(d, di, FileSlot(o / BSIZE)) < |d|
    ensures d[Slot(d, di, FileSlot(o / BSIZE))][o % BSIZE..o % BSIZE + m] == Contents(d, di)[o..o + m]
  {
    var b := Slot(d, di, FileSlot(o / BSIZE));
    var x, y := d[b][o % BSIZE..o % BSIZE + m], Contents(d, di)[o..o + m];
    forall k | 0 <= k < m
      ensures x[k] == y[k]
    {
      assert (o + k) / BSIZE == o / BSIZE && (o + k) % BSIZE == o % BSIZE + k;
    }
  }

  // Looking up a block below the file size changes nothing and finds it.
  lemma Looked(g: Geo, d: seq<Block>, di: DInode, owner: map<int, Name>, d': seq<Block>, di': DInode,
               owner': map<int, Name>,
               i: int, bn: int, b: U32)
    requires Sane(g, |d|) && Tight(d, di, di.size) && 0 <= bn < MAXFILE && bn * BSIZE < di.size
    requires Mapped(g, d, di, owner, d', di', owner', i, bn, b)
    ensures d' == d && di' == di && owner' == owner && b == Slot(d, di, FileSlot(bn)) < |d|
  {
  }

  lemma ReadStarts(g: Geo, d: seq<Block>, t: seq<DInode>, owner: map<int, Name>, i: int, di: DInode)
    requires Owned(g, d, t, owner) && AllTight(d, t) && 0 <= i < |t| && t[i] == di
    ensures t[i := di] == t && Tight(d, di, di.size) && di.size <= MAXFILE * BSIZE && |owner| <= DataCount(g)
  {
    OwnersAreData(g, d, t, owner);
  }
}
