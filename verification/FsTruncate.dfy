/** Releasing the blocks of a file one by one, as itrunc does. */
module FsTruncate {
  import opened DiskFormat
  import opened FsLayout
  import opened FsOwnership
  import opened FsFiles

  // The owners without inode i's slots below n and without its first m indirect entries.
  ghost function Without(owner: map<int, Name>, i: int, n: int, m: int): map<int, Name> {
    map b | b in owner && !(owner[b].inum == i && (owner[b].slot < n || NDIRECT < owner[b].slot <= NDIRECT + m)) ::
      owner[b]
  }

  // Block b, which slot k of inode i (in memory: di) named, was freed and the slot cleared.
  ghost predicate Released(g: Geo, d: seq<Block>, di: DInode, owner: map<int, Name>,
                           d': seq<Block>, di': DInode, owner': map<int, Name>, i: int, k: int, b: U32)
    requires Sane(g, |d|) && 0 <= k < SLOTS
  {
    && |d'| == |d| && d'[1] == d[1] && DiskTable(g, d') == DiskTable(g, d)
    && b in owner && owner[b] == Name(i, k) && owner' == owner - {b}
    && (forall k' :: 0 <= k' < SLOTS ==> Slot(d', di', k') == if k' == k then 0 else Slot(d, di, k'))
    && (forall x {:trigger owner[x]} {:trigger x in owner} :: x in owner && owner[x].inum != i && 0 <= x < |d| ==>
         d'[x] == d[x])
  }

  lemma ReleaseInCore(g: Geo, d: seq<Block>, owner: map<int, Name>, i: int, di: DInode, k: int, b: U32)
    requires Sane(g, |d|) && 0 <= i < g.ninodes && Owned(g, d, DiskTable(g, d)[i := di], owner)
    requires 0 <= k < SLOTS && Slot(d, di, k) == b != 0
    requires k == NDIRECT ==> forall j :: NDIRECT < j < SLOTS ==> Slot(d, di, j) == 0
    ensures IsData(g, b) && Used(g, d, b)
    ensures k > NDIRECT ==> IsData(g, di.addrs[NDIRECT])
    ensures var d', di', owner' := SlotDisk(Freed(g, d, b), di, k, 0), SlotInode(di, k, 0), owner - {b};
      && Released(g, d, di, owner, d', di', owner', i, k, b)
      && Owned(g, d', DiskTable(g, d')[i := di'], owner')
  {
    var t := DiskTable(g, d)[i := di];
    SlotIsOwned(g, d, t, owner, i, k);
    ReleaseBlock(g, d, t, owner, i, k, b);
    hide Owned, BitsMatch, FreeZero, Used;
    var d', di' := SlotDisk(Freed(g, d, b), di, k, 0), SlotInode(di, k, 0);
    assert t[i := di'] == DiskTable(g, d)[i := di'];
    ReleaseFrame(g, d, t, owner, i, k, b);
    TableFrame(g, d, d');
    forall k' | 0 <= k' < SLOTS
      ensures Slot(d', di', k') == if k' == k then 0 else Slot(d, di, k')
    {
      assert Slot(d', t[i := di'][i], k') == if k' == k then 0 else Slot(d, t[i], k');
    }
  }

  lemma ReleaseFrame(g: Geo, d: seq<Block>, t: seq<DInode>, owner: map<int, Name>, i: int, k: int, b: U32)
    requires Sane(g, |d|) && SlotsOwned(d, t, owner) && OwnersNamed(g, d, t, owner) && 0 <= i < |t| && 0 <= k < SLOTS
    requires IsData(g, b) && b in owner && owner[b] == Name(i, k)
    requires k > NDIRECT ==> t[i].addrs[NDIRECT] != 0
    ensures k > NDIRECT ==> IsData(g, t[i].addrs[NDIRECT])
    ensures var d' := SlotDisk(Freed(g, d, b), t[i], k, 0);
      && |d'| == |d| && (forall x :: 0 <= x < BBlock(g, 0) ==> d'[x] == d[x])
      && (forall x {:trigger owner[x]} {:trigger x in owner} :: x in owner && owner[x].inum != i && 0 <= x < |d| ==>
           d'[x] == d[x])
  {
    SetUsedEffect(g, d[b := ZeroBlock()], b, false);
    IndirectIsData(g, d, t, owner, i);
  }

  // ---- which owners are left ----

  lemma WithoutStep(g: Geo, d: seq<Block>, t: seq<DInode>, owner: map<int, Name>, owner0: map<int, Name>, i: int,
                    n: int, b: U32)
    requires SlotsOwned(d, t, owner) && OwnersNamed(g, d, t, owner) && 0 <= i < |t| && 0 <= n < NDIRECT
    requires owner == Without(owner0, i, n, 0) && Slot(d, t[i], n) == b
    ensures Without(owner0, i, n + 1, 0) == if b == 0 then owner else owner - {b}
  {
    var owner1 := Without(owner0, i, n + 1, 0);
    if b != 0 {
      assert owner[b] == Name(i, n);
    }
    forall x | x in owner
      ensures x in owner1 <==> x != b
    {
      if owner[x] == Name(i, n) {
        assert Slot(d, t[owner[x].inum], owner[x].slot) == x;
      }
    }
    assert owner1 == if b == 0 then owner else owner - {b};
  }

  lemma WithoutEntry(g: Geo, d: seq<Block>, t: seq<DInode>, owner: map<int, Name>, owner0: map<int, Name>, i: int,
                     m: int, b: U32)
    requires SlotsOwned(d, t, owner) && OwnersNamed(g, d, t, owner) && 0 <= i < |t| && 0 <= m < NINDIRECT
    requires owner == Without(owner0, i, NDIRECT, m) && Slot(d, t[i], NDIRECT + 1 + m) == b
    ensures Without(owner0, i, NDIRECT, m + 1) == if b == 0 then owner else owner - {b}
  {
    var owner1 := Without(owner0, i, NDIRECT, m + 1);
    if b != 0 {
      assert owner[b] == Name(i, NDIRECT + 1 + m);
    }
    forall x | x in owner
      ensures x in owner1 <==> x != b
    {
      if owner[x] == Name(i, NDIRECT + 1 + m) {
        assert Slot(d, t[owner[x].inum], owner[x].slot) == x;
      }
    }
    assert owner1 == if b == 0 then owner else owner - {b};
  }

  lemma ReleasedOthers(g: Geo, d0: seq<Block>, t0: seq<DInode>, owner0: map<int, Name>, d: seq<Block>, t: seq<DInode>,
                       owner: map<int, Name>,
                       d': seq<Block>, di': DInode, owner': map<int, Name>, i: int, k: int, b: U32)
    requires Sane(g, |d|) && 0 <= k < SLOTS && 0 <= i < |t|
    requires KeptOthers(d0, t0, owner0, d, t, owner, i) && Released(g, d, t[i], owner, d', di', owner', i, k, b)
    ensures KeptOthers(d0, t0, owner0, d', t[i := di'], owner', i)
  {
  }

  // The first n direct slots are clear, the others as they were.
  ghost predicate DirectCleared(d0: seq<Block>, di0: DInode, d: seq<Block>, di: DInode, n: int) {
    forall k :: 0 <= k < SLOTS ==> Slot(d, di, k) == if k < n then 0 else Slot(d0, di0, k)
  }

  lemma DirectClearedStep(g: Geo, d0: seq<Block>, di0: DInode, d: seq<Block>, di: DInode, owner: map<int, Name>,
                          d': seq<Block>, di': DInode, owner': map<int, Name>, i: int, n: int, b: U32)
    requires Sane(g, |d|) && 0 <= n < NDIRECT && DirectCleared(d0, di0, d, di, n)
    requires Released(g, d, di, owner, d', di', owner', i, n, b)
    ensures DirectCleared(d0, di0, d', di', n + 1)
  {
  }

  lemma DirectClearedSkip(d0: seq<Block>, di0: DInode, d: seq<Block>, di: DInode, n: int)
    requires 0 <= n < NDIRECT && DirectCleared(d0, di0, d, di, n) && di.addrs[n] == 0
    ensures DirectCleared(d0, di0, d, di, n + 1)
  {
    assert Slot(d, di, n) == 0;
  }

  // What the release of a slot leaves of the disk outside the file system's data, and what the caller needs next.
  lemma ReleasedFacts(g: Geo, d: seq<Block>, di: DInode, owner: map<int, Name>,
                      d': seq<Block>, di': DInode, owner': map<int, Name>, i: int, k: int, b: U32)
    requires Sane(g, |d|) && 0 <= k < SLOTS && Released(g, d, di, owner, d', di', owner', i, k, b)
    ensures |d'| == |d| && d'[1] == d[1] && DiskTable(g, d') == DiskTable(g, d)
    ensures b in owner && owner' == owner - {b}
    ensures forall k' :: 0 <= k' < SLOTS ==> Slot(d', di', k') == if k' == k then 0 else Slot(d, di, k')
  {
  }

  lemma TruncStarts(g: Geo, d: seq<Block>, t: seq<DInode>, owner: map<int, Name>, i: int)
    requires Owned(g, d, t, owner) && 0 <= i < |t|
    ensures owner == Without(owner, i, 0, 0) && DirectCleared(d, t[i], d, t[i], 0)
    ensures KeptOthers(d, t, owner, d, t, owner, i)
  {
    forall b | b in owner
      ensures b in Without(owner, i, 0, 0)
    {
      assert owner[b].slot >= 0;
    }
  }

  // ---- the indirect block ----
  // itrunc frees the blocks an indirect block bp names without touching bp itself. The disk is then a consistent
  // disk v on which the entries freed so far are clear, but with bp still in place at ind.

  ghost predicate EntriesCleared(d0: seq<Block>, di: DInode, v: seq<Block>, m: int) {
    forall k :: 0 <= k < SLOTS ==> Slot(v, di, k) == if NDIRECT < k <= NDIRECT + m then 0 else Slot(d0, di, k)
  }

  lemma EntryOf(d0: seq<Block>, di: DInode, v: seq<Block>, m: int, bp: Block)
    requires 0 < di.addrs[NDIRECT] < |d0| && bp == d0[di.addrs[NDIRECT]] && 0 <= m < NINDIRECT
    requires EntriesCleared(d0, di, v, m)
    ensures Slot(v, di, NDIRECT + 1 + m) == Word(bp, m)
  {
    assert Slot(d0, di, NDIRECT + 1 + m) == Word(bp, m);
  }

  lemma EntriesClearedStep(g: Geo, d0: seq<Block>, di: DInode, v: seq<Block>, owner: map<int, Name>,
                           v': seq<Block>, owner': map<int, Name>, i: int, m: int, b: U32)
    requires Sane(g, |v|) && 0 <= m < NINDIRECT && EntriesCleared(d0, di, v, m)
    requires if b == 0 then v' == v && Slot(v, di, NDIRECT + 1 + m) == 0
             else Released(g, v, di, owner, v', di, owner', i, NDIRECT + 1 + m, b)
    ensures EntriesCleared(d0, di, v', m + 1)
  {
  }

  lemma BehindIndirect(g: Geo, d: seq<Block>, v: seq<Block>, ind: int, bp: Block, b: U32, w: Block)
    requires Sane(g, |v|) && IsData(g, ind) && d == v[ind := bp] && IsData(g, b)
    ensures Used(g, d, b) == Used(g, v, b)
    ensures b != ind ==>
      Freed(g, d, b) == Freed(g, v, b)[ind := w][ind := bp]
    ensures b == ind ==> Freed(g, d, b) == Freed(g, v, b)
  {
    BitmapFrame(g, v, d);
    if b == ind {
      assert d[b := ZeroBlock()] == v[b := ZeroBlock()];
    } else {
      SetUsedBehind(g, v[b := ZeroBlock()], d[b := ZeroBlock()], ind, bp, b, w);
    }
  }

  lemma SetUsedBehind(g: Geo, v: seq<Block>, d: seq<Block>, ind: int, bp: Block, b: U32, w: Block)
    requires Sane(g, |v|) && IsData(g, ind) && d == v[ind := bp] && IsData(g, b)
    ensures SetUsed(g, d, b, false) == SetUsed(g, v, b, false)[ind := w][ind := bp]
  {
  }

  lemma WithoutAll(g: Geo, d: seq<Block>, t: seq<DInode>, all: map<int, Name>, owner: map<int, Name>, i: int, ind: U32)
    requires SlotsOwned(d, t, owner) && OwnersNamed(g, d, t, owner) && 0 <= i < |t|
    requires forall b :: b in all ==> 0 <= all[b].slot < SLOTS
    requires owner == Without(all, i, NDIRECT, NINDIRECT) && Slot(d, t[i], NDIRECT) == ind
    ensures ind != 0 ==> ind in owner && owner[ind] == Name(i, NDIRECT)
    ensures (if ind == 0 then owner else owner - {ind}) == map b | b in all && all[b].inum != i :: all[b]
  {
    var rest := map b | b in all && all[b].inum != i :: all[b];
    if ind != 0 {
      assert ind in owner && owner[ind] == Name(i, NDIRECT);
    }
    forall x | x in owner
      ensures x in rest <==> x != ind
    {
      if owner[x].inum == i {
        assert owner[x] == Name(i, NDIRECT);
        assert Slot(d, t[owner[x].inum], owner[x].slot) == x;
      }
    }
    assert (if ind == 0 then owner else owner - {ind}) == rest;
  }

  lemma WithoutNoEntries(g: Geo, d: seq<Block>, t: seq<DInode>, owner: map<int, Name>, all: map<int, Name>, i: int)
    requires SlotsOwned(d, t, owner) && OwnersNamed(g, d, t, owner) && 0 <= i < |t|
    requires owner == Without(all, i, NDIRECT, 0) && t[i].addrs[NDIRECT] == 0
    ensures owner == Without(all, i, NDIRECT, NINDIRECT)
  {
    var rest := Without(all, i, NDIRECT, NINDIRECT);
    IndirectEmpty(d, t[i]);
    forall x | x in owner
      ensures x in rest
    {
      assert Slot(d, t[owner[x].inum], owner[x].slot) == x;
    }
    assert owner == rest;
  }

  lemma IndirectStarts(g: Geo, d: seq<Block>, t: seq<DInode>, owner: map<int, Name>, i: int)
    requires Owned(g, d, t, owner) && 0 <= i < |t|
    ensures EntriesCleared(d, t[i], d, 0) && KeptOthers(d, t, owner, d, t, owner, i)
  {
  }

  lemma AllEntriesClear(d0: seq<Block>, di: DInode, v: seq<Block>)
    requires EntriesCleared(d0, di, v, NINDIRECT)
    ensures forall k :: 0 <= k < SLOTS ==> Slot(v, di, k) == if k > NDIRECT then 0 else Slot(d0, di, k)
  {
  }

  lemma NotIndirect(g: Geo, d: seq<Block>, t: seq<DInode>, owner: map<int, Name>, i: int, k: int)
    requires SlotsOwned(d, t, owner) && OwnersNamed(g, d, t, owner) && 0 <= i < |t| && NDIRECT < k < SLOTS
    requires Slot(d, t[i], k) != 0
    ensures Slot(d, t[i], k) != t[i].addrs[NDIRECT]
  {
    assert owner[Slot(d, t[i], k)] == Name(i, k);
    assert Slot(d, t[i], NDIRECT) == t[i].addrs[NDIRECT];
  }

  lemma OwnedNames(g: Geo, d: seq<Block>, t: seq<DInode>, owner: map<int, Name>)
    requires Owned(g, d, t, owner)
    ensures SlotsOwned(d, t, owner) && OwnersNamed(g, d, t, owner)
  {
  }

  // The consistent disk v behind the loop over the indirect block, its first m entries freed.
  ghost predicate Behind(g: Geo, d0: seq<Block>, t: seq<DInode>, owner0: map<int, Name>, all: map<int, Name>,
                         v: seq<Block>, owner: map<int, Name>, i: int, m: int)
    requires Sane(g, |d0|) && |t| == g.ninodes && 0 <= i < |t|
  {
    && |v| == |d0| && v[1] == d0[1] && DiskTable(g, v) == DiskTable(g, d0) && Owned(g, v, t, owner)
    && EntriesCleared(d0, t[i], v, m)
    && owner == Without(all, i, NDIRECT, m)
    && KeptOthers(d0, t, owner0, v, t, owner, i)
  }

  lemma BehindSkip(g: Geo, d0: seq<Block>, t: seq<DInode>, owner0: map<int, Name>, all: map<int, Name>,
                   v: seq<Block>, owner: map<int, Name>, i: int, m: int, bp: Block)
    requires Sane(g, |d0|) && |t| == g.ninodes && 0 <= i < |t| && 0 <= m < NINDIRECT
    requires Behind(g, d0, t, owner0, all, v, owner, i, m)
    requires 0 < t[i].addrs[NDIRECT] < |d0| && bp == d0[t[i].addrs[NDIRECT]] && Word(bp, m) == 0
    ensures Behind(g, d0, t, owner0, all, v, owner, i, m + 1)
  {
    hide BitsMatch, FreeZero, Used, KeptOthers, Released, DecodeInode;
    EntryOf(d0, t[i], v, m, bp);
    WithoutEntry(g, v, t, owner, all, i, m, 0);
    EntriesClearedStep(g, d0, t[i], v, owner, v, owner, i, m, 0);
  }

  lemma BehindFree(g: Geo, d0: seq<Block>, t: seq<DInode>, owner0: map<int, Name>, all: map<int, Name>,
                   v: seq<Block>, owner: map<int, Name>, i: int, m: int, bp: Block, b: U32) returns (v': seq<Block>)
    requires Sane(g, |d0|) && |t| == g.ninodes && 0 <= i < |t| && 0 <= m < NINDIRECT && t == DiskTable(g, d0)[i := t[i]]
    requires 0 < t[i].addrs[NDIRECT] < |d0| && bp == d0[t[i].addrs[NDIRECT]] && Word(bp, m) == b != 0
    requires |v| == |d0| && Behind(g, d0, t, owner0, all, v, owner, i, m)
    ensures IsData(g, b) && |v'| == |v|
    ensures Used(g, v[t[i].addrs[NDIRECT] := bp], b)
    ensures Freed(g, v[t[i].addrs[NDIRECT] := bp], b) == v'[t[i].addrs[NDIRECT] := bp]
    ensures Behind(g, d0, t, owner0, all, v', owner - {b}, i, m + 1)
  {
    var k, ind, di := NDIRECT + 1 + m, t[i].addrs[NDIRECT], t[i];
    OwnedNames(g, v, t, owner);
    hide BitsMatch, FreeZero, Used, KeptOthers, Released, DecodeInode, EntriesCleared, Without, SlotsOwned, OwnersNamed;
    hide Owned, SetUsed;
    EntryOf(d0, di, v, m, bp);
    WithoutEntry(g, v, t, owner, all, i, m, b);
    IndirectIsData(g, v, t, owner, i);
    ReleaseInCore(g, v, owner, i, di, k, b);
    v' := SlotDisk(Freed(g, v, b), di, k, 0);
    ReleasedFacts(g, v, di, owner, v', di, owner - {b}, i, k, b);
    ReleasedOthers(g, d0, t, owner0, v, t, owner, v', di, owner - {b}, i, k, b);
    EntriesClearedStep(g, d0, di, v, owner, v', owner - {b}, i, m, b);
    NotIndirect(g, v, t, owner, i, k);
    BehindIndirect(g, v[ind := bp], v, ind, bp, b, v'[ind]);
  }

  // ---- an inode without blocks ----

  ghost predicate NoBlocks(d: seq<Block>, di: DInode) {
    di.size == 0 && forall k :: 0 <= k < SLOTS ==> Slot(d, di, k) == 0
  }

  // An inode without blocks is written to disk: after itrunc, and by ialloc.
  lemma StoreEmpty(g: Geo, d0: seq<Block>, t0: seq<DInode>, owner0: map<int, Name>, d: seq<Block>, di: DInode,
                   owner: map<int, Name>, i: int)
    requires Sane(g, |d|) && 0 <= i < g.ninodes && Owned(g, d, DiskTable(g, d)[i := di], owner) && NoBlocks(d, di)
    requires Owned(g, d0, t0, owner0) && AllTight(d0, t0)
    requires KeptOthers(d0, t0, owner0, d, DiskTable(g, d)[i := di], owner, i)
    ensures var d' := StoreInode(d, i, di); var t' := DiskTable(g, d');
      && |d'| == |d| && d'[1] == d[1] && t'[i] == di && NoBlocks(d', di)
      && Owned(g, d', t', owner) && AllTight(d', t')
      && Contents(d', di) == []
      && forall j :: 0 <= j < |t0| && j != i ==> Contents(d', t'[j]) == Contents(d0, t0[j]) && t'[j] == t0[j]
  {
    hide BitsMatch, FreeZero, Used, DecodeInode;
    var d', t := StoreInode(d, i, di), DiskTable(g, d)[i := di];
    StoreInodeOwned(g, d, owner, i, di);
    var t' := DiskTable(g, d');
    forall k | 0 <= k < SLOTS
      ensures Slot(d', di, k) == 0
    {
      assert Slot(d', t'[i], k) == Slot(d, t[i], k);
    }
    NoBlocksTight(d', di);
    assert KeptOthers(d0, t0, owner0, d', t', owner, i) by {
      OwnedNames(g, d0, t0, owner0);
    }
    forall j | 0 <= j < |t0| && j != i
      ensures Tight(d', t'[j], t'[j].size) && ZeroTail(d', t'[j], t'[j].size)
      ensures Contents(d', t'[j]) == Contents(d0, t0[j]) && t'[j] == t0[j]
    {
      OtherContents(g, d0, t0, owner0, d', t', owner, i, j);
    }
  }

  lemma NoBlocksTight(d: seq<Block>, di: DInode)
    requires NoBlocks(d, di)
    ensures Tight(d, di, 0)
  {
    assert Slot(d, di, NDIRECT) == di.addrs[NDIRECT];
  }

  // A tight file of size 0 has no block.
  lemma TightEmpty(d: seq<Block>, di: DInode)
    requires Tight(d, di, 0) && di.size == 0
    ensures NoBlocks(d, di)
  {
    forall k | 0 <= k < SLOTS
      ensures Slot(d, di, k) == 0
    {
      if k < NDIRECT {
        assert FileSlot(k) == k;
      } else if k > NDIRECT {
        assert FileSlot(k - 1) == k;
      }
    }
  }

  // Exactly the bits of inode i's blocks were cleared.
  lemma BitsCleared(g: Geo, d: seq<Block>, owner: map<int, Name>, d': seq<Block>, owner': map<int, Name>, i: int)
    requires Sane(g, |d|) && |d'| == |d| && BitsMatch(g, d, owner) && BitsMatch(g, d', owner')
    requires forall b :: b in owner ==> IsData(g, b)
    requires owner' == map b | b in owner && owner[b].inum != i :: owner[b]
    ensures forall b :: 0 <= b < g.size ==> (Used(g, d', b) <==> Used(g, d, b) && !(b in owner && owner[b].inum == i))
  {
  }

  // An inode without blocks may stand in for another one.
  lemma ReplaceEmpty(g: Geo, d: seq<Block>, t: seq<DInode>, owner: map<int, Name>, i: int, di: DInode)
    requires Owned(g, d, t, owner) && 0 <= i < |t| && NoBlocks(d, t[i]) && NoBlocks(d, di)
    ensures Owned(g, d, t[i := di], owner) && KeptOthers(d, t, owner, d, t[i := di], owner, i)
  {
    NamesFrame(g, d, t, owner, d, t[i := di]);
  }

  lemma SlotsInRange(g: Geo, d: seq<Block>, t: seq<DInode>, owner: map<int, Name>)
    requires Owned(g, d, t, owner)
    ensures forall b :: b in owner ==> 0 <= owner[b].slot < SLOTS
  {
  }

  lemma OwnedBits(g: Geo, d: seq<Block>, t: seq<DInode>, owner: map<int, Name>)
    requires Owned(g, d, t, owner)
    ensures Sane(g, |d|) && BitsMatch(g, d, owner)
  {
  }

  lemma ResizeOthers(d0: seq<Block>, t0: seq<DInode>, owner0: map<int, Name>, d: seq<Block>, t: seq<DInode>,
                     owner: map<int, Name>,
                     i: int, size: U32)
    requires KeptOthers(d0, t0, owner0, d, t, owner, i) && 0 <= i < |t|
    ensures KeptOthers(d0, t0, owner0, d, t[i := t[i].(size := size)], owner, i)
  {
  }
}
