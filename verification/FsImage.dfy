/** The empty image that xv6/tools/mkfs.c lays out before it copies files in: a state the kernel can start from. */
module FsImage {
  import opened DiskFormat
  import opened FsLayout
  import opened FsOwnership
  import opened FsFiles
  import opened FsTruncate
  import opened FileSystem

  function SuperOf(g: Geo): Block
    requires Sane(g, g.size)
  {
    PutWord(PutWord(PutWord(ZeroBlock(), 0, g.size), 1, DataCount(g)), 2, g.ninodes)
  }

  function Zeroed(g: Geo): (d: seq<Block>)
    requires Sane(g, g.size)
    ensures |d| == g.size
  {
    seq(g.size as int, _ => ZeroBlock())[1 := SuperOf(g)]
  }

  // The bits of the first n blocks are set, one after another.
  function Marked(g: Geo, n: nat): (d: seq<Block>)
    requires Sane(g, g.size) && n <= ScanLimit(g)
    ensures |d| == g.size
  {
    if n == 0 then Zeroed(g) else SetUsed(g, Marked(g, n - 1), n - 1, true)
  }

  function Image(g: Geo): (d: seq<Block>)
    requires Sane(g, g.size)
    ensures |d| == g.size
  {
    Marked(g, DataStart(g))
  }

  lemma ZeroBit(i: int)
    requires 0 <= i < BPB
    ensures !Bit(ZeroBlock(), i)
  {
    NoBit(i % 8);
  }

  lemma {:induction false} NoBit(k: nat)
    ensures !TestBit(0, k)
  {
    if k > 0 {
      NoBit(k - 1);
    }
  }

  lemma {:induction false} MarkedEffect(g: Geo, n: nat)
    requires Sane(g, g.size) && n <= ScanLimit(g)
    ensures forall c :: 0 <= c < ScanLimit(g) ==> (Used(g, Marked(g, n), c) <==> c < n)
    ensures forall x :: 0 <= x < g.size && !(BBlock(g, 0) <= x < DataStart(g)) ==> Marked(g, n)[x] == Zeroed(g)[x]
  {
    hide ZeroBlock, Bit, SuperOf, Used, SetUsed, Zeroed;
    if n > 0 {
      MarkedEffect(g, n - 1);
      SetUsedEffect(g, Marked(g, n - 1), n - 1, true);
    } else {
      forall c | 0 <= c < ScanLimit(g)
        ensures !Used(g, Zeroed(g), c)
      {
        ZeroedClear(g, c);
      }
    }
  }

  lemma ZeroedClear(g: Geo, c: int)
    requires Sane(g, g.size) && 0 <= c < ScanLimit(g)
    ensures !Used(g, Zeroed(g), c)
  {
    hide SuperOf;
    ZeroBit(c % BPB);
  }

  lemma SuperOfIs(g: Geo)
    requires Sane(g, g.size)
    ensures SuperBlock(SuperOf(g)) == g
  {
    var z := PutWord(ZeroBlock(), 0, g.size);
    var y := PutWord(z, 1, DataCount(g));
    WordPutWord(y, 2, g.ninodes, 0);
    WordPutWord(y, 2, g.ninodes, 2);
    WordPutWord(z, 1, DataCount(g), 0);
    WordPutWord(ZeroBlock(), 0, g.size, 0);
  }

  lemma ZeroInode(d: seq<Block>, i: int)
    requires 0 <= i && IBlock(i) < |d| && d[IBlock(i)] == ZeroBlock()
    ensures DecodeInode(d, i) == EmptyInode(0)
  {
    var ws := WordsAt(ZeroBlock(), 16 * (i % IPB), 16);
    forall k | 0 <= k < 16
      ensures ws[k] == 0
    {
      ZeroWord(16 * (i % IPB) + k);
    }
    assert InodeOfWords(ws).addrs == EmptyInode(0).addrs;
  }

  // No block is owned, every inode is free, and the bits below the data blocks are set.
  lemma ImageIsSound(g: Geo)
    requires Sane(g, g.size)
    ensures var d := Image(g);
      SuperBlock(d[1]) == g && Owned(g, d, DiskTable(g, d), map[]) && AllTight(d, DiskTable(g, d))
    ensures forall c :: 0 <= c < g.size ==>
      (Used(g, Image(g), c) <==> c < g.ninodes / 8 + 3 + (g.size / 4096 + 1))
  {
    hide DecodeInode, ZeroBlock, SuperBlock, Used, Tight;
    var d := Image(g);
    MarkedEffect(g, DataStart(g));
    SuperOfIs(g);
    forall i | 0 <= i < g.ninodes
      ensures DiskTable(g, d)[i] == EmptyInode(0) && Tight(d, DiskTable(g, d)[i], 0)
    {
      assert IBlock(i) < BBlock(g, 0);
      ZeroInode(d, i);
      EmptyHasNoBlocks(d, 0);
      NoBlocksTight(d, EmptyInode(0));
    }
  }

  // A kernel that mounts the image starts in a valid state, and then every operation keeps it valid.
  lemma ImageIsValid(fs: FileSys)
    requires Sane(fs.geo, fs.geo.size) && fs.disk == Image(fs.geo) && fs.owner == map[]
    ensures fs.Valid()
  {
    ImageIsSound(fs.geo);
  }
}
