/** Where the xv6 file system keeps things on disk, and the ownership invariant over data blocks. */
module FsLayout {
  import opened DiskFormat

  // The superblock: file system size in blocks and number of inodes.
  datatype Geo = Geo(size: U32, ninodes: U32)

  type Addrs = a: seq<U32> | |a| == 13 witness seq(13, _ => 0)

  datatype DInode = DInode(kind: U16, major: U16, minor: U16, nlink: U16, size: U32, addrs: Addrs)

  // Which inode, and which of its slots, holds a data block.
  datatype Name = Name(inum: int, slot: int)

  function SuperBlock(b: Block): Geo {
    Geo(Word(b, 0), Word(b, 2))
  }

  // The two numbers, byte by byte.
  lemma SuperBytes(b: Block)
    ensures SuperBlock(b).size ==
      b[0] as int + 256 * b[1] as int + 65536 * b[2] as int + 16777216 * b[3] as int
    ensures SuperBlock(b).ninodes ==
      b[8] as int + 256 * b[9] as int + 65536 * b[10] as int + 16777216 * b[11] as int
  {
  }

  // ---- layout: superblock, inodes, bitmap, data ----

  function IBlock(i: int): int {
    i / IPB + 2
  }

  function BBlock(g: Geo, b: int): int {
    b / BPB + g.ninodes / IPB + 3
  }

  function DataStart(g: Geo): int {
    g.ninodes / IPB + 3 + (g.size / BPB + 1)
  }

  // balloc scans whole bitmap blocks, so it looks at bits below this bound
  function ScanLimit(g: Geo): int {
    (g.size + BPB - 1) / BPB * BPB
  }

  predicate Sane(g: Geo, diskLen: int) {
    DataStart(g) <= g.size <= diskLen
  }

  predicate IsData(g: Geo, b: int) {
    DataStart(g) <= b < g.size
  }

  // ---- bitmap ----

  predicate Used(g: Geo, d: seq<Block>, b: int)
    requires Sane(g, |d|) && 0 <= b < ScanLimit(g)
  {
    Bit(d[BBlock(g, b)], b % BPB)
  }

  function SetUsed(g: Geo, d: seq<Block>, b: int, on: bool): seq<Block>
    requires Sane(g, |d|) && 0 <= b < ScanLimit(g)
  {
    d[BBlock(g, b) := PutBit(d[BBlock(g, b)], b % BPB, on)]
  }

  // Block b zeroed and then marked free.
  function Freed(g: Geo, d: seq<Block>, b: int): seq<Block>
    requires Sane(g, |d|) && IsData(g, b)
  {
    SetUsed(g, d[b := ZeroBlock()], b, false)
  }

  lemma SetUsedEffect(g: Geo, d: seq<Block>, b: int, on: bool)
    requires Sane(g, |d|) && 0 <= b < ScanLimit(g)
    ensures |SetUsed(g, d, b, on)| == |d|
    ensures forall c :: 0 <= c < ScanLimit(g) ==> Used(g, SetUsed(g, d, b, on), c) == if c == b then on
      else Used(g, d, c)
    ensures forall x :: 0 <= x < |d| && !(BBlock(g, 0) <= x < DataStart(g)) ==> SetUsed(g, d, b, on)[x] == d[x]
  {
    hide Bit;
    forall c | 0 <= c < ScanLimit(g)
      ensures Used(g, SetUsed(g, d, b, on), c) == if c == b then on else Used(g, d, c)
    {
      assert c == c / BPB * BPB + c % BPB && b == b / BPB * BPB + b % BPB;
    }
  }

  // Where the bit of block b is on disk, in plain numbers.
  lemma UsedIs(g: Geo, d: seq<Block>, b: int)
    requires Sane(g, |d|) && 0 <= b < ScanLimit(g)
    ensures 0 <= b / 4096 + g.ninodes / 8 + 3 < |d|
    ensures Used(g, d, b) <==>
      d[b / 4096 + g.ninodes / 8 + 3][b % 4096 / 8] / [1, 2, 4, 8, 16, 32, 64, 128][b % 8] % 2 == 1
  {
    hide Bit;
    InBlock(b);
    BitIs(d[BBlock(g, b)], b % BPB);
  }

  lemma InBlock(b: int)
    requires 0 <= b
    ensures 0 <= b % 4096 / 8 < 512 && b % 4096 % 8 == b % 8
  {
  }

  lemma SetUsedIs(g: Geo, d: seq<Block>, b: int, on: bool)
    requires Sane(g, |d|) && 0 <= b < ScanLimit(g) && Used(g, d, b) != on
    ensures var blk, k := b / 4096 + g.ninodes / 8 + 3, b % 4096 / 8;
      && 0 <= blk < |d|
      && var x := d[blk][k] as int + (if on then 1 else -1) * [1, 2, 4, 8, 16, 32, 64, 128][b % 8];
         0 <= x < 256 && SetUsed(g, d, b, on) == d[blk := d[blk][k := x]]
  {
    hide Bit, PutBit;
    InBlock(b);
    PutBitIs(d[BBlock(g, b)], b % BPB, on);
  }

  // ---- inodes on disk ----

  function WordsAt(b: Block, w: int, n: nat): (ws: seq<U32>)
    requires 0 <= w && w + n <= WORDS
    ensures |ws| == n && forall j :: 0 <= j < n ==> ws[j] == Word(b, w + j)
  {
    if n == 0 then [] else WordsAt(b, w, n - 1) + [Word(b, w + n - 1)]
  }

  function InodeOfWords(ws: seq<U32>): DInode
    requires |ws| == 16
  {
    DInode(ws[0] % 0x1_0000, ws[0] / 0x1_0000, ws[1] % 0x1_0000, ws[1] / 0x1_0000, ws[2], ws[3..])
  }

  function DecodeInode(d: seq<Block>, i: int): DInode
    requires 0 <= i && IBlock(i) < |d|
  {
    InodeOfWords(WordsAt(d[IBlock(i)], 16 * (i % IPB), 16))
  }

  function InodeWords(di: DInode): (ws: seq<U32>)
    ensures |ws| == 16
  {
    [di.kind as int + 0x1_0000 * di.major as int, di.minor as int + 0x1_0000 * di.nlink as int, di.size] + di.addrs
  }

  function PutWords(b: Block, w: int, ws: seq<U32>): Block
    requires 0 <= w && w + |ws| <= WORDS
    decreases |ws|
  {
    if ws == [] then b else PutWords(PutWord(b, w, ws[0]), w + 1, ws[1..])
  }

  lemma {:induction false} WordPutWords(b: Block, w: int, ws: seq<U32>, k: int)
    requires 0 <= w && w + |ws| <= WORDS && 0 <= k < WORDS
    ensures Word(PutWords(b, w, ws), k) == if w <= k < w + |ws| then ws[k - w] else Word(b, k)
    decreases |ws|
  {
    if ws != [] {
      WordPutWords(PutWord(b, w, ws[0]), w + 1, ws[1..], k);
      WordPutWord(b, w, ws[0], k);
    }
  }

  function StoreInode(d: seq<Block>, i: int, di: DInode): seq<Block>
    requires 0 <= i && IBlock(i) < |d|
  {
    d[IBlock(i) := PutWords(d[IBlock(i)], 16 * (i % IPB), InodeWords(di))]
  }

  lemma WordsAtPutWords(b: Block, w: int, ws: seq<U32>, v: int)
    requires 0 <= w && w + |ws| <= WORDS && 0 <= v && v + |ws| <= WORDS
    requires v == w || v + |ws| <= w || w + |ws| <= v
    ensures WordsAt(PutWords(b, w, ws), v, |ws|) == if v == w then ws else WordsAt(b, v, |ws|)
  {
    var got, want := WordsAt(PutWords(b, w, ws), v, |ws|), if v == w then ws else WordsAt(b, v, |ws|);
    forall k | 0 <= k < |ws|
      ensures got[k] == want[k]
    {
      WordPutWords(b, w, ws, v + k);
    }
  }

  lemma InodeOfInodeWords(di: DInode)
    ensures InodeOfWords(InodeWords(di)) == di
  {
    assert InodeWords(di)[3..] == di.addrs;
  }

  lemma DecodeStoreInode(d: seq<Block>, i: int, di: DInode, j: int)
    requires 0 <= i && IBlock(i) < |d| && 0 <= j && IBlock(j) < |d|
    ensures DecodeInode(StoreInode(d, i, di), j) == if j == i then di else DecodeInode(d, j)
  {
    if IBlock(j) == IBlock(i) {
      assert j != i ==> i % IPB != j % IPB;
      WordsAtPutWords(d[IBlock(i)], 16 * (i % IPB), InodeWords(di), 16 * (j % IPB));
      InodeOfInodeWords(di);
    }
  }

  // The bytes of a stored inode: inode i has the 64 from 64 * (i % 8) of block i / 8 + 2, and no other changes.
  lemma InodeBytes(d: seq<Block>, i: int, di: DInode)
    requires 0 <= i && i / 8 + 2 < |d|
    ensures var d', blk, at := StoreInode(d, i, di), i / 8 + 2, 64 * (i % 8);
      && |d'| == |d| && (forall x :: 0 <= x < |d| && x != blk ==> d'[x] == d[x])
      && (forall y :: 0 <= y < 512 && !(at <= y < at + 64) ==> d'[blk][y] == d[blk][y])
      && d'[blk][at] == di.kind % 256 && d'[blk][at + 1] == di.kind / 256
      && d'[blk][at + 2] == di.major % 256 && d'[blk][at + 3] == di.major / 256
      && d'[blk][at + 4] == di.minor % 256 && d'[blk][at + 5] == di.minor / 256
      && d'[blk][at + 6] == di.nlink % 256 && d'[blk][at + 7] == di.nlink / 256
      && d'[blk][at + 8] == di.size % 256 && d'[blk][at + 9] == di.size / 256 % 256
      && d'[blk][at + 10] == di.size / 65536 % 256 && d'[blk][at + 11] == di.size / 16777216
      && forall k {:trigger di.addrs[k]} :: 0 <= k < 13 ==>
           && d'[blk][at + 12 + 4 * k] == di.addrs[k] % 256 && d'[blk][at + 13 + 4 * k] == di.addrs[k] / 256 % 256
           && d'[blk][at + 14 + 4 * k] == di.addrs[k] / 65536 % 256
           && d'[blk][at + 15 + 4 * k] == di.addrs[k] / 16777216
  {
    hide Word, PutWords, InodeWords;
    var b, b', w, ws := d[i / 8 + 2], StoreInode(d, i, di)[i / 8 + 2], 16 * (i % 8), InodeWords(di);
    forall y | 0 <= y < 512 && !(4 * w <= y < 4 * w + 64)
      ensures b'[y] == b[y]
    {
      OtherByte(b, w, ws, y);
    }
    StoredWord(d, i, di, 0);
    StoredWord(d, i, di, 1);
    StoredWord(d, i, di, 2);
    Halfwords(di);
    forall k {:trigger di.addrs[k]} | 0 <= k < 13
      ensures && b'[4 * w + 12 + 4 * k] == di.addrs[k] % 256 && b'[4 * w + 13 + 4 * k] == di.addrs[k] / 256 % 256
              && b'[4 * w + 14 + 4 * k] == di.addrs[k] / 65536 % 256
              && b'[4 * w + 15 + 4 * k] == di.addrs[k] / 16777216
    {
      StoredWord(d, i, di, 3 + k);
      AddressWord(di, k);
    }
  }

  lemma StoredWord(d: seq<Block>, i: int, di: DInode, j: int)
    requires 0 <= i && i / 8 + 2 < |d| && 0 <= j < 16
    ensures var b', y, v := StoreInode(d, i, di)[i / 8 + 2], 64 * (i % 8) + 4 * j, InodeWords(di)[j];
      && b'[y] == v % 256 && b'[y + 1] == v / 256 % 256 && b'[y + 2] == v / 65536 % 256 && b'[y + 3] == v / 16777216
  {
    hide Word, PutWords, InodeWords;
    var w := 16 * (i % 8);
    WordPutWords(d[i / 8 + 2], w, InodeWords(di), w + j);
    WordBytes(StoreInode(d, i, di)[i / 8 + 2], w + j);
  }

  lemma OtherByte(b: Block, w: int, ws: seq<U32>, y: int)
    requires 0 <= w && w + |ws| <= WORDS && 0 <= y < 512 && !(4 * w <= y < 4 * (w + |ws|))
    ensures PutWords(b, w, ws)[y] == b[y]
  {
    hide Word, PutWords;
    WordPutWords(b, w, ws, y / 4);
    WordBytes(b, y / 4);
    WordBytes(PutWords(b, w, ws), y / 4);
  }

  lemma Halfwords(di: DInode)
    ensures var v, u := InodeWords(di)[0], InodeWords(di)[1];
      && v % 256 == di.kind % 256 && v / 256 % 256 == di.kind / 256
      && v / 65536 % 256 == di.major % 256 && v / 16777216 == di.major / 256
      && u % 256 == di.minor % 256 && u / 256 % 256 == di.minor / 256
      && u / 65536 % 256 == di.nlink % 256 && u / 16777216 == di.nlink / 256
    ensures InodeWords(di)[2] == di.size
  {
    LowAndHigh(di.kind, di.major);
    LowAndHigh(di.minor, di.nlink);
  }

  lemma LowAndHigh(lo: U16, hi: U16)
    ensures var v := lo as int + 0x1_0000 * hi as int;
      && v % 256 == lo % 256 && v / 256 % 256 == lo / 256
      && v / 65536 % 256 == hi % 256 && v / 16777216 == hi / 256
  {
    var v := lo as int + 0x1_0000 * hi as int;
    assert v / 256 == lo / 256 + 256 * hi as int;
    assert v / 65536 == hi;
  }

  lemma AddressWord(di: DInode, k: int)
    requires 0 <= k < 13
    ensures InodeWords(di)[3 + k] == di.addrs[k]
  {
  }

  function DiskTable(g: Geo, d: seq<Block>): seq<DInode>
    requires Sane(g, |d|)
  {
    seq(g.ninodes, i requires 0 <= i < g.ninodes => DecodeInode(d, i))
  }

  // ---- the blocks of one inode ----
  // Slots 0..11 are the direct blocks, 12 the indirect block, 13..140 the entries of the indirect block.

  const SLOTS := 141

  function Slot(d: seq<Block>, di: DInode, k: int): U32
    requires 0 <= k < SLOTS
  {
    if k <= NDIRECT then di.addrs[k]
    else if di.addrs[NDIRECT] == 0 || di.addrs[NDIRECT] >= |d| then 0
    else Word(d[di.addrs[NDIRECT]], k - NDIRECT - 1)
  }

  // The slot of the bn-th block of a file.
  function FileSlot(bn: int): int {
    if bn < NDIRECT then bn else bn + 1
  }

  // Slot k of di now says b: in the inode itself, or in its indirect block.
  function SlotInode(di: DInode, k: int, b: U32): DInode
    requires 0 <= k < SLOTS
  {
    if k <= NDIRECT then di.(addrs := di.addrs[k := b]) else di
  }

  function SlotDisk(d: seq<Block>, di: DInode, k: int, b: U32): seq<Block>
    requires 0 <= k < SLOTS
    requires k > NDIRECT ==> 0 < di.addrs[NDIRECT] < |d|
  {
    if k <= NDIRECT then d
    else d[di.addrs[NDIRECT] := PutWord(d[di.addrs[NDIRECT]], k - NDIRECT - 1, b)]
  }

  // ---- block ownership ----

  // Every block an inode slot names is a data block recorded under that slot alone.
  ghost predicate SlotsOwned(d: seq<Block>, t: seq<DInode>, owner: map<int, Name>) {
    forall i, k {:trigger Slot(d, t[i], k)} :: 0 <= i < |t| && 0 <= k < SLOTS && Slot(d, t[i], k) != 0 ==>
      Slot(d, t[i], k) in owner && owner[Slot(d, t[i], k)] == Name(i, k)
  }

  // Every recorded block is named by the slot it is recorded under.
  ghost predicate OwnersNamed(g: Geo, d: seq<Block>, t: seq<DInode>, owner: map<int, Name>) {
    forall b {:trigger owner[b]} {:trigger b in owner} :: b in owner ==>
      IsData(g, b) && 0 <= owner[b].inum < |t| && 0 <= owner[b].slot < SLOTS
        && Slot(d, t[owner[b].inum], owner[b].slot) == b
  }

  // The bitmap marks the metadata blocks and the owned blocks, and nothing else of the file system.
  ghost predicate BitsMatch(g: Geo, d: seq<Block>, owner: map<int, Name>)
    requires Sane(g, |d|)
  {
    forall b :: 0 <= b < g.size ==> (Used(g, d, b) <==> b < DataStart(g) || b in owner)
  }

  ghost predicate FreeZero(g: Geo, d: seq<Block>, owner: map<int, Name>)
    requires Sane(g, |d|)
  {
    forall b :: IsData(g, b) && b !in owner ==> d[b] == ZeroBlock()
  }

  ghost predicate Owned(g: Geo, d: seq<Block>, t: seq<DInode>, owner: map<int, Name>) {
    && Sane(g, |d|) && |t| == g.ninodes
    && SlotsOwned(d, t, owner)
    && OwnersNamed(g, d, t, owner)
    && BitsMatch(g, d, owner)
    && FreeZero(g, d, owner)
  }

  // Exactly the blocks below `cover` bytes are allocated.
  ghost predicate Tight(d: seq<Block>, di: DInode, cover: int) {
    && 0 <= cover <= MAXFILE * BSIZE
    && (forall bn :: 0 <= bn < MAXFILE ==> (Slot(d, di, FileSlot(bn)) != 0 <==> bn * BSIZE < cover))
    && (di.addrs[NDIRECT] != 0 <==> NDIRECT * BSIZE < cover)
  }

  // ---- file contents ----

  function ByteAt(d: seq<Block>, di: DInode, k: int): Byte
    requires 0 <= k < MAXFILE * BSIZE
  {
    var b := Slot(d, di, FileSlot(k / BSIZE));
    if b < |d| then d[b][k % BSIZE] else 0
  }

  function Contents(d: seq<Block>, di: DInode): (s: seq<Byte>)
    requires di.size <= MAXFILE * BSIZE
    ensures |s| == di.size
  {
    seq(di.size, k requires 0 <= k < di.size => ByteAt(d, di, k))
  }

  // Where byte k of a file is: in one of the 12 blocks the inode names, or in one of those that the words of its
  // thirteenth block name.
  lemma FileByte(d: seq<Block>, di: DInode, k: int)
    requires di.size <= 71680 && 0 <= k < di.size
    ensures k < 12 * 512 && di.addrs[k / 512] < |d| ==> Contents(d, di)[k] == d[di.addrs[k / 512]][k % 512]
    ensures 12 * 512 <= k && 0 < di.addrs[12] < |d| ==>
      var a, y := d[di.addrs[12]], 4 * (k / 512 - 12);
      var b := a[y] as int + 256 * a[y + 1] as int + 65536 * a[y + 2] as int + 16777216 * a[y + 3] as int;
      b < |d| ==> Contents(d, di)[k] == d[b][k % 512]
  {
  }

  // Where the last block of a file of `size` bytes ends.
  function BlockEnd(size: int): int {
    (size + BSIZE - 1) / BSIZE * BSIZE
  }

  // The bytes of the last block that lie past the end of the file are zero.
  ghost predicate ZeroTail(d: seq<Block>, di: DInode, size: int) {
    forall k {:trigger ByteAt(d, di, k)} :: 0 <= size <= k < BlockEnd(size) && k < MAXFILE * BSIZE ==>
      ByteAt(d, di, k) == 0
  }
}
