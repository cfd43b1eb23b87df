/** The first-fit heap: Mem_Alloc and Mem_Free over a linked list of block headers. */
module FirstFit {

  const HD := 8 // sizeof(block_header), a multiple of 4

  // A header: the address of the next one, 0 for none, and the size with the lowest bit set when the block is busy.
  datatype Header = Header(next: int, sizeStatus: int)

  // A block as the list stands for it; size leaves out the header.
  datatype Block = Block(at: int, size: int, busy: bool)

  // The blocks lie side by side from lo to hi, their sizes are multiples of 4, and no two free ones touch.
  ghost predicate Tiled(bs: seq<Block>, lo: int, hi: int) {
    && bs != [] && bs[0].at == lo
    && (forall i :: 0 <= i < |bs| ==> 0 <= bs[i].size && bs[i].size % 4 == 0)
    && (forall i {:trigger End(bs, i)} :: 0 <= i < |bs| ==> End(bs, i) == if i + 1 < |bs| then bs[i + 1].at else hi)
    && (forall i {:trigger Touch(bs, i)} :: 0 <= i < |bs| - 1 ==> !Touch(bs, i))
  }

  function End(bs: seq<Block>, i: int): int
    requires 0 <= i < |bs|
  {
    bs[i].at + HD + bs[i].size
  }

  predicate Touch(bs: seq<Block>, i: int)
    requires 0 <= i < |bs| - 1
  {
    !bs[i].busy && !bs[i + 1].busy
  }

  function RoundUp(size: int): int {
    (size + 3) / 4 * 4
  }

  // The size, rounded up and with a header, fits an int; the C code overflows otherwise.
  predicate FitsInt(size: int) {
    size <= 0 || RoundUp(size) + HD <= 2147483647
  }

  // A free block that Mem_Alloc takes for a request rounded up to size: of that size, or with room for a header more.
  predicate Fits(b: Block, size: int) {
    !b.busy && (b.size == size || b.size >= size + HD)
  }

  ghost predicate FirstFitting(bs: seq<Block>, size: int, k: int) {
    0 <= k < |bs| && Fits(bs[k], size) && forall i :: 0 <= i < k ==> !Fits(bs[i], size)
  }

  function Taken(b: Block, size: int): seq<Block> {
    if b.size == size then [Block(b.at, size, true)]
    else [Block(b.at, size, true), Block(b.at + HD + size, b.size - size - HD, false)]
  }

  function Allocated(bs: seq<Block>, k: int, size: int): seq<Block>
    requires 0 <= k < |bs|
  {
    bs[..k] + Taken(bs[k], size) + bs[k + 1..]
  }

  // What Mem_Free of block k leaves: it takes in a free neighbour on either side.
  predicate FreeBefore(bs: seq<Block>, k: int)
    requires 0 <= k < |bs|
  {
    0 < k && !bs[k - 1].busy
  }

  predicate FreeAfter(bs: seq<Block>, k: int)
    requires 0 <= k < |bs|
  {
    k + 1 < |bs| && !bs[k + 1].busy
  }

  // The first and the last block of the three that become one.
  function Front(bs: seq<Block>, k: int): int
    requires 0 <= k < |bs|
  {
    if FreeBefore(bs, k) then k - 1 else k
  }

  function Back(bs: seq<Block>, k: int): int
    requires 0 <= k < |bs|
  {
    if FreeAfter(bs, k) then k + 1 else k
  }

  function FreedSize(bs: seq<Block>, k: int): int
    requires 0 <= k < |bs|
  {
    var i, j := Front(bs, k), Back(bs, k);
    bs[k].size + (if i < k then bs[i].size + HD else 0) + (if k < j then bs[j].size + HD else 0)
  }

  function Freed(bs: seq<Block>, k: int): seq<Block>
    requires 0 <= k < |bs|
  {
    var i := Front(bs, k);
    bs[..i] + [Block(bs[i].at, FreedSize(bs, k), false)] + bs[Back(bs, k) + 1..]
  }

  // ---- what the two operations keep and undo ----

  lemma AllocatedAt(bs: seq<Block>, k: int, size: int, i: int)
    requires 0 <= k < |bs|
    ensures var n := |Taken(bs[k], size)|;
      |Allocated(bs, k, size)| == |bs| + n - 1
      && (0 <= i < k ==> Allocated(bs, k, size)[i] == bs[i])
      && (k <= i < k + n ==> Allocated(bs, k, size)[i] == Taken(bs[k], size)[i - k])
      && (k + n <= i < |bs| + n - 1 ==> Allocated(bs, k, size)[i] == bs[i - n + 1])
  {
  }

  lemma AllocatedEnds(bs: seq<Block>, lo: int, hi: int, k: int, size: int)
    requires Tiled(bs, lo, hi) && 0 <= k < |bs| && Fits(bs[k], size)
    ensures var t := Allocated(bs, k, size);
      forall i {:trigger End(t, i)} :: 0 <= i < |t| ==> End(t, i) == if i + 1 < |t| then t[i + 1].at else hi
  {
    hide Allocated, Touch;
    var t, n := Allocated(bs, k, size), |Taken(bs[k], size)|;
    AllocatedAt(bs, k, size, 0);
    forall i {:trigger End(t, i)} | 0 <= i < |t|
      ensures End(t, i) == if i + 1 < |t| then t[i + 1].at else hi
    {
      AllocatedAt(bs, k, size, i);
      AllocatedAt(bs, k, size, i + 1);
      assert End(bs, k) == if k + 1 < |bs| then bs[k + 1].at else hi;
      assert i < k ==> End(bs, i) == bs[i + 1].at;
      assert k + n <= i ==> End(bs, i - n + 1) == End(t, i);
    }
  }

  lemma AllocatedApart(bs: seq<Block>, lo: int, hi: int, k: int, size: int)
    requires Tiled(bs, lo, hi) && 0 <= k < |bs| && Fits(bs[k], size)
    ensures var t := Allocated(bs, k, size); forall i {:trigger Touch(t, i)} :: 0 <= i < |t| - 1 ==> !Touch(t, i)
  {
    hide Allocated;
    var t, n := Allocated(bs, k, size), |Taken(bs[k], size)|;
    AllocatedAt(bs, k, size, 0);
    forall i {:trigger Touch(t, i)} | 0 <= i < |t| - 1
      ensures !Touch(t, i)
    {
      AllocatedAt(bs, k, size, i);
      AllocatedAt(bs, k, size, i + 1);
      assert i + 1 < k ==> !Touch(bs, i);
      assert k < |bs| - 1 ==> !Touch(bs, k);
      assert k + n <= i ==> !Touch(bs, i - n + 1);
    }
  }

  lemma TakenIsFirst(b: Block, size: int)
    ensures Taken(b, size) != [] && Taken(b, size)[0].at == b.at
  {
  }

  lemma TakenSizes(b: Block, size: int)
    requires 0 < size && size % 4 == 0 && Fits(b, size) && b.size % 4 == 0
    ensures forall i :: 0 <= i < |Taken(b, size)| ==> 0 <= Taken(b, size)[i].size && Taken(b, size)[i].size % 4 == 0
  {
  }

  lemma AllocatedTiled(bs: seq<Block>, lo: int, hi: int, k: int, size: int)
    requires Tiled(bs, lo, hi) && 0 <= k < |bs| && 0 < size && size % 4 == 0 && Fits(bs[k], size)
    ensures Tiled(Allocated(bs, k, size), lo, hi)
  {
    hide Allocated, Touch, End, Taken, Fits;
    var t := Allocated(bs, k, size);
    AllocatedAt(bs, k, size, 0);
    AllocatedEnds(bs, lo, hi, k, size);
    AllocatedApart(bs, lo, hi, k, size);
    TakenIsFirst(bs[k], size);
    TakenSizes(bs[k], size);
    forall i | 0 <= i < |t|
      ensures 0 <= t[i].size && t[i].size % 4 == 0
    {
      AllocatedAt(bs, k, size, i);
    }
  }

  lemma FreedAt(bs: seq<Block>, k: int, x: int)
    requires 0 <= k < |bs|
    ensures var t, i, j := Freed(bs, k), Front(bs, k), Back(bs, k);
      && |t| == |bs| - (j - i) && 0 <= i <= k <= j < |bs|
      && t[i] == Block(bs[i].at, FreedSize(bs, k), false)
      && (0 <= x < i ==> t[x] == bs[x])
      && (i < x < |t| ==> t[x] == bs[x + (j - i)])
  {
  }

  lemma FreedWords(bs: seq<Block>, k: int, i: int, j: int)
    requires 0 <= k < |bs| && i == Front(bs, k) && j == Back(bs, k)
    requires bs[i].size % 4 == 0 && bs[k].size % 4 == 0 && bs[j].size % 4 == 0
    ensures FreedSize(bs, k) % 4 == 0
  {
  }

  // The merged block covers those it is made of.
  lemma FreedSpan(bs: seq<Block>, lo: int, hi: int, k: int)
    requires Tiled(bs, lo, hi) && 0 <= k < |bs|
    ensures var i, j := Front(bs, k), Back(bs, k);
      && bs[i].at + HD + FreedSize(bs, k) == (if j + 1 < |bs| then bs[j + 1].at else hi)
      && 0 <= FreedSize(bs, k) && FreedSize(bs, k) % 4 == 0
  {
    hide Touch;
    FreedWords(bs, k, Front(bs, k), Back(bs, k));
    var i, j := Front(bs, k), Back(bs, k);
    assert End(bs, i) == if i + 1 < |bs| then bs[i + 1].at else hi;
    assert End(bs, k) == if k + 1 < |bs| then bs[k + 1].at else hi;
    assert End(bs, j) == if j + 1 < |bs| then bs[j + 1].at else hi;
  }

  lemma FreedEnds(bs: seq<Block>, lo: int, hi: int, k: int)
    requires Tiled(bs, lo, hi) && 0 <= k < |bs|
    ensures var t := Freed(bs, k);
      forall x {:trigger End(t, x)} :: 0 <= x < |t| ==> End(t, x) == if x + 1 < |t| then t[x + 1].at else hi
  {
    hide Freed, Front, Back, FreedSize, Touch;
    var t, i, n := Freed(bs, k), Front(bs, k), Back(bs, k) - Front(bs, k);
    FreedAt(bs, k, 0);
    FreedSpan(bs, lo, hi, k);
    forall x {:trigger End(t, x)} | 0 <= x < |t|
      ensures End(t, x) == if x + 1 < |t| then t[x + 1].at else hi
    {
      FreedAt(bs, k, x);
      FreedAt(bs, k, x + 1);
      assert x < i ==> End(bs, x) == bs[x + 1].at;
      assert i < x ==> End(bs, x + n) == End(t, x);
    }
  }

  lemma FreedApart(bs: seq<Block>, lo: int, hi: int, k: int)
    requires Tiled(bs, lo, hi) && 0 <= k < |bs|
    ensures var t := Freed(bs, k); forall x {:trigger Touch(t, x)} :: 0 <= x < |t| - 1 ==> !Touch(t, x)
  {
    hide Freed, FreedSize, End;
    var t, i, n := Freed(bs, k), Front(bs, k), Back(bs, k) - Front(bs, k);
    FreedAt(bs, k, 0);
    forall x {:trigger Touch(t, x)} | 0 <= x < |t| - 1
      ensures !Touch(t, x)
    {
      FreedAt(bs, k, x);
      FreedAt(bs, k, x + 1);
      assert x + 1 < i ==> !Touch(bs, x);
      assert i < x ==> !Touch(bs, x + n);
      assert x + 1 == i && FreeBefore(bs, k) ==> !Touch(bs, x);
      assert x == i && FreeAfter(bs, k) ==> !Touch(bs, k + 1);
    }
  }

  lemma FreedTiled(bs: seq<Block>, lo: int, hi: int, k: int)
    requires Tiled(bs, lo, hi) && 0 <= k < |bs| && bs[k].busy
    ensures Tiled(Freed(bs, k), lo, hi)
  {
    hide Freed, Front, Back, FreedSize, End, Touch;
    var t := Freed(bs, k);
    FreedEnds(bs, lo, hi, k);
    FreedApart(bs, lo, hi, k);
    FreedSpan(bs, lo, hi, k);
    forall x | 0 <= x < |t|
      ensures 0 <= t[x].size && t[x].size % 4 == 0
    {
      FreedAt(bs, k, x);
    }
    FreedAt(bs, k, 0);
  }

  // Freeing what was just allocated gives back the same list of blocks.
  lemma FreeUndoesAlloc(bs: seq<Block>, lo: int, hi: int, k: int, size: int)
    requires Tiled(bs, lo, hi) && 0 <= k < |bs| && 0 < size && Fits(bs[k], size)
    ensures Freed(Allocated(bs, k, size), k) == bs
  {
    hide Tiled, Allocated;
    var t, n := Allocated(bs, k, size), |Taken(bs[k], size)|;
    NeighboursBusy(bs, lo, hi, k);
    AllocatedAt(bs, k, size, k - 1);
    AllocatedAt(bs, k, size, k);
    AllocatedAt(bs, k, size, k + 1);
    AllocatedAt(bs, k, size, k + 2);
    AllocatedParts(bs, k, size);
    assert t[..k] == bs[..k] && t[k + n..] == bs[k + 1..];
    assert bs == bs[..k] + [bs[k]] + bs[k + 1..];
  }

  lemma NeighboursBusy(bs: seq<Block>, lo: int, hi: int, k: int)
    requires Tiled(bs, lo, hi) && 0 <= k < |bs| && !bs[k].busy
    ensures (0 < k ==> bs[k - 1].busy) && (k + 1 < |bs| ==> bs[k + 1].busy)
  {
    assert 0 < k ==> !Touch(bs, k - 1);
    assert k < |bs| - 1 ==> !Touch(bs, k);
  }

  lemma AllocatedParts(bs: seq<Block>, k: int, size: int)
    requires 0 <= k < |bs|
    ensures var t, n := Allocated(bs, k, size), |Taken(bs[k], size)|;
      k + n <= |t| && t[..k] == bs[..k] && t[k + n..] == bs[k + 1..]
  {
  }

  // ---- the list in memory ----

  function AddressAt(bs: seq<Block>, i: int): int {
    if 0 <= i < |bs| then bs[i].at else 0
  }

  function HeaderOf(bs: seq<Block>, i: int): Header
    requires 0 <= i < |bs|
  {
    Header(AddressAt(bs, i + 1), bs[i].size + if bs[i].busy then 1 else 0)
  }

  ghost predicate Listed(mem: map<int, Header>, bs: seq<Block>) {
    forall i :: 0 <= i < |bs| ==> bs[i].at in mem && mem[bs[i].at] == HeaderOf(bs, i)
  }

  lemma {:induction false} Ascending(bs: seq<Block>, lo: int, hi: int, i: int, j: int)
    requires Tiled(bs, lo, hi) && 0 <= i < j < |bs|
    ensures End(bs, i) <= bs[j].at
    decreases j
  {
    assert End(bs, j - 1) == bs[j].at;
    if i < j - 1 {
      Ascending(bs, lo, hi, i, j - 1);
    }
  }

  // A block's own addresses are not another's.
  lemma Elsewhere(bs: seq<Block>, lo: int, hi: int, k: int, i: int, x: int)
    requires Tiled(bs, lo, hi) && 0 <= k < |bs| && 0 <= i < |bs| && i != k && bs[k].at <= x < End(bs, k)
    ensures bs[i].at != x
  {
    if i < k {
      Ascending(bs, lo, hi, i, k);
    } else {
      Ascending(bs, lo, hi, k, i);
    }
  }

  function Carved(mem: map<int, Header>, b: Block, size: int): map<int, Header>
    requires b.at in mem
  {
    var p, q := b.at, b.at + HD + size;
    if b.size == size then mem[p := Header(mem[p].next, size + 1)]
    else mem[q := Header(mem[p].next, b.size - size - HD)][p := Header(q, size + 1)]
  }

  lemma CarvedInside(mem: map<int, Header>, bs: seq<Block>, k: int, size: int, i: int)
    requires Listed(mem, bs) && 0 <= k < |bs| && 0 < size && Fits(bs[k], size)
    requires bs[k].at in mem && k <= i < k + |Taken(bs[k], size)|
    ensures var t, m := Allocated(bs, k, size), Carved(mem, bs[k], size);
      t[i].at in m && m[t[i].at] == HeaderOf(t, i)
  {
    AllocatedAt(bs, k, size, i);
    AllocatedAt(bs, k, size, i + 1);
    hide Allocated;
    assert mem[bs[k].at] == HeaderOf(bs, k);
  }

  lemma CarvedOutside(mem: map<int, Header>, bs: seq<Block>, lo: int, hi: int, k: int, size: int, j: int)
    requires Tiled(bs, lo, hi) && Listed(mem, bs) && 0 <= k < |bs| && 0 < size && Fits(bs[k], size)
    requires bs[k].at in mem && 0 <= j < |bs| && j != k
    ensures bs[j].at in Carved(mem, bs[k], size) && Carved(mem, bs[k], size)[bs[j].at] == HeaderOf(bs, j)
  {
    assert 0 <= bs[k].size;
    Elsewhere(bs, lo, hi, k, j, bs[k].at);
    if bs[k].size != size {
      Elsewhere(bs, lo, hi, k, j, bs[k].at + HD + size);
    }
    hide Tiled, HeaderOf;
  }

  lemma CarvedAt(mem: map<int, Header>, bs: seq<Block>, lo: int, hi: int, k: int, size: int, i: int)
    requires Tiled(bs, lo, hi) && Listed(mem, bs) && 0 <= k < |bs| && 0 < size && Fits(bs[k], size)
    requires bs[k].at in mem && 0 <= i < |Allocated(bs, k, size)|
    ensures var t, m := Allocated(bs, k, size), Carved(mem, bs[k], size);
      t[i].at in m && m[t[i].at] == HeaderOf(t, i)
  {
    hide Tiled, Listed, Carved, Fits;
    var t, n := Allocated(bs, k, size), |Taken(bs[k], size)|;
    AllocatedAt(bs, k, size, i);
    AllocatedAt(bs, k, size, i + 1);
    if k <= i < k + n {
      CarvedInside(mem, bs, k, size, i);
    } else {
      var j := if i < k then i else i - n + 1;
      CarvedOutside(mem, bs, lo, hi, k, size, j);
      assert t[i] == bs[j] && HeaderOf(t, i) == HeaderOf(bs, j);
    }
  }

  lemma AllocatedListed(mem: map<int, Header>, bs: seq<Block>, lo: int, hi: int, k: int, size: int)
    requires Tiled(bs, lo, hi) && Listed(mem, bs) && 0 <= k < |bs| && 0 < size && Fits(bs[k], size) && bs[k].at in mem
    ensures Listed(Carved(mem, bs[k], size), Allocated(bs, k, size))
  {
    hide Tiled, Carved, Allocated, HeaderOf;
    forall i | 0 <= i < |Allocated(bs, k, size)|
      ensures Allocated(bs, k, size)[i].at in Carved(mem, bs[k], size)
      ensures Carved(mem, bs[k], size)[Allocated(bs, k, size)[i].at] == HeaderOf(Allocated(bs, k, size), i)
    {
      CarvedAt(mem, bs, lo, hi, k, size, i);
    }
  }

  lemma AddressesDiffer(bs: seq<Block>, lo: int, hi: int, k: int, i: int)
    requires Tiled(bs, lo, hi) && 0 <= k < |bs| && 0 <= i < |bs| && i != k
    ensures bs[i].at != bs[k].at
  {
    Elsewhere(bs, lo, hi, k, i, bs[k].at);
  }

  function Merged(mem: map<int, Header>, bs: seq<Block>, k: int): map<int, Header>
    requires 0 <= k < |bs|
  {
    mem[bs[Front(bs, k)].at := Header(AddressAt(bs, Back(bs, k) + 1), FreedSize(bs, k))]
  }

  lemma MergedAt(mem: map<int, Header>, bs: seq<Block>, lo: int, hi: int, k: int, x: int)
    requires Tiled(bs, lo, hi) && Listed(mem, bs) && 0 <= k < |bs| && bs[k].busy && 0 <= x < |Freed(bs, k)|
    ensures Freed(bs, k)[x].at in Merged(mem, bs, k)
    ensures Merged(mem, bs, k)[Freed(bs, k)[x].at] == HeaderOf(Freed(bs, k), x)
  {
    hide Freed, Front, Back, FreedSize, Tiled;
    var i, j := Front(bs, k), Back(bs, k);
    FreedAt(bs, k, x);
    FreedAt(bs, k, x + 1);
    if x != i {
      var y := if x < i then x else x + (j - i);
      AddressesDiffer(bs, lo, hi, i, y);
    }
  }

  lemma FreedListed(mem: map<int, Header>, bs: seq<Block>, lo: int, hi: int, k: int)
    requires Tiled(bs, lo, hi) && Listed(mem, bs) && 0 <= k < |bs| && bs[k].busy
    ensures Listed(Merged(mem, bs, k), Freed(bs, k))
  {
    hide Tiled, Merged, Freed, HeaderOf;
    forall x | 0 <= x < |Freed(bs, k)|
      ensures Freed(bs, k)[x].at in Merged(mem, bs, k)
      ensures Merged(mem, bs, k)[Freed(bs, k)[x].at] == HeaderOf(Freed(bs, k), x)
    {
      MergedAt(mem, bs, lo, hi, k, x);
    }
  }

  lemma Rounds(size: int)
    requires 0 < size
    ensures size <= RoundUp(size) < size + 4 && RoundUp(size) % 4 == 0
  {
  }

  lemma SameMap(m: map<int, Header>, m': map<int, Header>, x: int)
    requires x in m && x in m' && m[x] == m'[x] && m.Keys == m'.Keys && forall y :: y in m && y != x ==> m[y] == m'[y]
    ensures m == m'
  {
  }

  lemma Parity(size: int)
    requires size % 4 == 0
    ensures size % 2 == 0 && (size + 1) % 2 == 1
  {
    var q := size / 4;
    assert size == 2 * (2 * q);
  }

  class Heap {
    var mem: map<int, Header>
    var listHead: int
    const lo: int
    const hi: int
    ghost var blocks: seq<Block>

    ghost predicate Valid()
      reads this
    {
      0 < lo && listHead == lo && Tiled(blocks, lo, hi) && Listed(mem, blocks)
    }

    // Mem_Init, when the region is mapped: one free block.
    constructor (lo: int, allocSize: int)
      requires 0 < lo && HD <= allocSize && allocSize % 4 == 0
      ensures Valid() && this.lo == lo && hi == lo + allocSize && blocks == [Block(lo, allocSize - HD, false)]
    {
      this.lo, hi, listHead := lo, lo + allocSize, lo;
      mem := map[lo := Header(0, allocSize - HD)];
      blocks := [Block(lo, allocSize - HD, false)];
    }

    lemma HeadIsFirst()
      requires Valid()
      ensures blocks != [] && listHead == AddressAt(blocks, 0)
    {
    }

    // What the header in hand tells.
    lemma HeaderAt(k: int, n: int)
      requires Valid() && 0 <= k <= |blocks| && AddressAt(blocks, k) != 0
      ensures k < |blocks| && blocks[k].at in mem && mem[blocks[k].at].next == AddressAt(blocks, k + 1)
      ensures var status := mem[blocks[k].at].sizeStatus;
        (status % 2 == 0 && (status == n || status >= n + HD)) <==> Fits(blocks[k], n)
    {
      assert mem[blocks[k].at] == HeaderOf(blocks, k);
      Parity(blocks[k].size);
      hide Tiled, Listed;
    }

    lemma Somewhere(k: int)
      requires Valid() && 0 <= k < |blocks|
      ensures blocks[k].at != 0
    {
      if k > 0 {
        Ascending(blocks, lo, hi, 0, k);
      }
    }

    method Rounded(size: int) returns (n: int)
      requires 0 < size
      ensures n == RoundUp(size) && size <= n < size + 4 && n % 4 == 0
    {
      Rounds(size);
      n := size;
      while n % 4 != 0
        invariant size <= n <= RoundUp(size)
        decreases RoundUp(size) - n
      {
        n := n + 1;
      }
    }

    // 0 exactly when the size is not positive or no free block fits; or else the first that fits is carved up.  The
    // address returned is the header's, which is what Mem_Free expects back.
    method MemAlloc(size: int) returns (p: int, ghost k: int)
      requires Valid() && FitsInt(size)
      modifies this`mem, this`blocks
      ensures Valid()
      ensures p == 0 ==> blocks == old(blocks) && mem == old(mem)
      ensures p == 0 <==> size <= 0 || forall i :: 0 <= i < |old(blocks)| ==> !Fits(old(blocks)[i], RoundUp(size))
      ensures p != 0 ==>
        FirstFitting(old(blocks), RoundUp(size), k) && p == old(blocks)[k].at
        && blocks == Allocated(old(blocks), k, RoundUp(size))
      // In numbers: the request is rounded up to n, and a header takes 8 bytes.
      ensures 0 < size ==>
        var n, bs := (size + 3) / 4 * 4, old(blocks);
        && (p == 0 <==> forall i :: 0 <= i < |bs| ==> bs[i].busy || (bs[i].size != n && bs[i].size < n + 8))
        && (p != 0 ==>
          && 0 <= k < |bs| && p == bs[k].at && !bs[k].busy && |blocks| == |bs| + (if bs[k].size == n then 0 else 1)
          && (forall i :: 0 <= i < k ==> blocks[i] == bs[i] && (bs[i].busy || (bs[i].size != n && bs[i].size < n + 8)))
          && blocks[k] == Block(p, n, true)
          && (bs[k].size != n ==> blocks[k + 1] == Block(p + 8 + n, bs[k].size - n - 8, false))
          && (forall i :: k < i < |bs| ==> blocks[|blocks| - |bs| + i] == bs[i]))
    {
      hide Tiled, Listed, Allocated, Fits, HeaderOf, RoundUp;
      if 0 < size {
        InNumbers(blocks, size);
      }
      k := 0;
      if size <= 0 {
        return 0, 0;
      }
      var n := Rounded(size);
      HeadIsFirst();
      var curr := listHead;
      while curr != 0
        invariant Valid() && mem == old(mem) && blocks == old(blocks)
        invariant 0 <= k <= |blocks| && curr == AddressAt(blocks, k)
        invariant forall i :: 0 <= i < k ==> !Fits(blocks[i], n)
        decreases |blocks| - k
      {
        HeaderAt(k, n);
        Somewhere(k);
        var status := mem[curr].sizeStatus;
        if status % 2 == 0 && status == n {
          Take(curr, n, k);
          return curr, k;
        } else if status % 2 == 0 && status >= n + HD {
          Take(curr, n, k);
          return curr, k;
        }
        curr := mem[curr].next;
        k := k + 1;
      }
      if k < |blocks| {
        Somewhere(k);
      }
      return 0, k;
    }

    lemma InNumbers(bs: seq<Block>, size: int)
      requires 0 < size
      ensures RoundUp(size) == (size + 3) / 4 * 4
      ensures forall b, n {:trigger Fits(b, n)} :: Fits(b, n) <==> !b.busy && (b.size == n || b.size >= n + 8)
      ensures forall k, n {:trigger Allocated(bs, k, n)} :: 0 <= k < |bs| && Fits(bs[k], n) ==>
        var t := Allocated(bs, k, n);
        && |t| == |bs| + (if bs[k].size == n then 0 else 1)
        && (forall i :: 0 <= i < k ==> t[i] == bs[i])
        && t[k] == Block(bs[k].at, n, true)
        && (bs[k].size != n ==> t[k + 1] == Block(bs[k].at + 8 + n, bs[k].size - n - 8, false))
        && (forall i :: k < i < |bs| ==> t[|t| - |bs| + i] == bs[i])
    {
    }

    lemma FreeHeader(k: int, n: int)
      requires Valid() && 0 <= k < |blocks| && Fits(blocks[k], n)
      ensures blocks[k].at in mem && mem[blocks[k].at].sizeStatus == blocks[k].size
      ensures blocks[k].size == n || blocks[k].size >= n + HD
    {
      assert mem[blocks[k].at] == HeaderOf(blocks, k);
    }

    // The two ways to take the block: whole, or its front.
    method Take(p: int, n: int, ghost k: int)
      requires Valid() && 0 <= k < |blocks| && p == blocks[k].at && 0 < n && n % 4 == 0 && Fits(blocks[k], n)
      modifies this`mem, this`blocks
      ensures Valid() && blocks == Allocated(old(blocks), k, n)
    {
      hide Tiled, Listed, Allocated, Fits;
      FreeHeader(k, n);
      AllocatedTiled(blocks, lo, hi, k, n);
      AllocatedListed(mem, blocks, lo, hi, k, n);
      var status := mem[p].sizeStatus;
      if status == n {
        mem := mem[p := Header(mem[p].next, n + 1)];
      } else {
        var q := p + HD + n;
        mem := mem[q := Header(mem[p].next, status - n - HD)];
        mem := mem[p := Header(q, n + 1)];
      }
      blocks := Allocated(blocks, k, n);
    }

    lemma BlockHeader(k: int)
      requires Valid() && 0 <= k < |blocks|
      ensures blocks[k].at in mem && blocks[k].at != 0 && 0 <= blocks[k].size
      ensures mem[blocks[k].at].next == AddressAt(blocks, k + 1)
      ensures mem[blocks[k].at].sizeStatus == blocks[k].size + if blocks[k].busy then 1 else 0
      ensures mem[blocks[k].at].sizeStatus % 2 == if blocks[k].busy then 1 else 0
    {
      assert mem[blocks[k].at] == HeaderOf(blocks, k);
      Parity(blocks[k].size);
      Somewhere(k);
    }

    // Mem_Free's two walks: whether ptr is a block's address, and which blocks lie before and behind it.
    method Find(ptr: int) returns (found: bool, ghost k: int)
      requires Valid() && ptr != 0
      ensures found ==> 0 <= k < |blocks| && blocks[k].at == ptr
      ensures !found ==> forall i :: 0 <= i < |blocks| ==> blocks[i].at != ptr
    {
      hide Tiled, Listed, HeaderOf;
      HeadIsFirst();
      var curr := listHead;
      k := 0;
      while curr != ptr
        invariant 0 <= k < |blocks| && curr == blocks[k].at && forall i :: 0 <= i < k ==> blocks[i].at != ptr
        decreases |blocks| - k
      {
        BlockHeader(k);
        curr := mem[curr].next;
        k := k + 1;
        if curr == 0 {
          if k < |blocks| {
            BlockHeader(k);
          }
          return false, k;
        }
      }
      return true, k;
    }

    method Neighbours(ptr: int, ghost k: int) returns (prev: int, next: int)
      requires Valid() && 0 <= k < |blocks| && blocks[k].at == ptr
      ensures prev == AddressAt(blocks, k - 1) && next == AddressAt(blocks, k + 1)
    {
      hide Tiled, Listed, HeaderOf;
      HeadIsFirst();
      BlockHeader(0);
      var curr := listHead;
      next := mem[curr].next;
      prev := 0;
      ghost var i := 0;
      while curr != ptr
        invariant 0 <= i <= k && curr == AddressAt(blocks, i) && prev == AddressAt(blocks, i - 1)
        invariant next == AddressAt(blocks, i + 1)
        decreases k - i
      {
        if i < k {
          BlockHeader(i + 1);
        }
        prev := curr;
        curr := next;
        next := mem[next].next;
        i := i + 1;
      }
      SameBlock(blocks, k, i, ptr);
    }

    // Blocks of a well-formed list are told apart by their addresses.
    lemma SameBlock(bs: seq<Block>, k: int, j: int, p: int)
      requires Tiled(bs, lo, hi) && 0 <= k < |bs| && 0 <= j < |bs| && bs[k].at == bs[j].at == p
      ensures j == k
    {
      if j != k {
        AddressesDiffer(bs, lo, hi, k, j);
      }
    }

    // Mem_Free on the busy block at ptr between prev and next: the free neighbours are taken in.
    method Coalesce(ptr: int, prev: int, next: int, ghost k: int)
      requires Valid() && 0 <= k < |blocks| && blocks[k].at == ptr && blocks[k].busy
      requires prev == AddressAt(blocks, k - 1) && next == AddressAt(blocks, k + 1)
      modifies this`mem
      ensures mem == Merged(old(mem), blocks, k)
    {
      hide Tiled, Listed, HeaderOf;
      BlockHeader(k);
      if k > 0 {
        BlockHeader(k - 1);
        Elsewhere(blocks, lo, hi, k, k - 1, ptr);
      }
      if k + 1 < |blocks| {
        BlockHeader(k + 1);
        Elsewhere(blocks, lo, hi, k, k + 1, ptr);
        if k > 0 {
          Elsewhere(blocks, lo, hi, k - 1, k + 1, prev);
        }
      }
      var curr, blockSize := ptr, 0;
      if prev != 0 {
        if mem[prev].sizeStatus % 2 == 0 {
          blockSize := mem[curr].sizeStatus + HD;
          mem := mem[prev := Header(next, mem[prev].sizeStatus + blockSize)];
          curr := prev;
        }
      }
      if next != 0 {
        if mem[next].sizeStatus % 2 == 0 {
          blockSize := mem[next].sizeStatus + HD;
          mem := mem[curr := Header(mem[next].next, mem[curr].sizeStatus + blockSize)];
        }
      }
      mem := mem[curr := Header(mem[curr].next, mem[curr].sizeStatus - 1)]; // the lowest bit is set
      SameMap(mem, Merged(old(mem), blocks, k), curr);
    }

    // 0 exactly when ptr is the address of a busy block, which is then freed; -1 changes nothing.
    method MemFree(ptr: int) returns (r: int, ghost k: int)
      requires Valid()
      modifies this`mem, this`blocks
      ensures Valid() && (r == 0 || r == -1)
      ensures r == 0 ==>
        0 <= k < |old(blocks)| && old(blocks)[k].at == ptr && old(blocks)[k].busy
        && blocks == Freed(old(blocks), k)
      // The busy blocks are the old ones without this one; with Valid, that determines the free ones.
      ensures r == 0 ==> forall b: Block :: b.busy ==> (b in blocks <==> b in old(blocks) && b.at != ptr)
      ensures r == -1 ==> blocks == old(blocks) && mem == old(mem)
      ensures r == -1 ==> forall i :: 0 <= i < |blocks| && blocks[i].at == ptr ==> !blocks[i].busy
    {
      hide Tiled, Listed, HeaderOf, Freed;
      if ptr == 0 {
        NoneAtZero();
        return -1, 0;
      }
      var found;
      found, k := Find(ptr);
      if !found {
        return -1, k;
      }
      var prev, next := Neighbours(ptr, k);
      BlockHeader(k);
      OnlyAddress(k);
      if mem[ptr].sizeStatus % 2 == 0 {
        return -1, k;
      }
      Coalesce(ptr, prev, next, k);
      FreedListed(old(mem), blocks, lo, hi, k);
      FreedTiled(blocks, lo, hi, k);
      FreedBusy(blocks, k);
      blocks := Freed(blocks, k);
      return 0, k;
    }

    lemma FreedBusy(bs: seq<Block>, k: int)
      requires 0 <= k < |bs| && bs[k].busy && forall i :: 0 <= i < |bs| && bs[i].at == bs[k].at ==> i == k
      ensures forall b: Block :: b.busy ==> (b in Freed(bs, k) <==> b in bs && b.at != bs[k].at)
    {
      var t, i, j := Freed(bs, k), Front(bs, k), Back(bs, k);
      forall b: Block | b.busy
        ensures b in t <==> b in bs && b.at != bs[k].at
      {
        if b in t {
          var x :| 0 <= x < |t| && t[x] == b;
          assert x < i ==> bs[x] == b;
          assert x > i ==> bs[x - i + j] == b;
        }
        if b in bs && b.at != bs[k].at {
          var x :| 0 <= x < |bs| && bs[x] == b;
          assert x < i ==> t[x] == b;
          assert x > j ==> t[x - j + i] == b;
        }
      }
    }

    lemma NoneAtZero()
      requires Valid()
      ensures forall i :: 0 <= i < |blocks| ==> blocks[i].at != 0
    {
      forall i | 0 <= i < |blocks| ensures blocks[i].at != 0 {
        Somewhere(i);
      }
    }

    lemma OnlyAddress(k: int)
      requires Valid() && 0 <= k < |blocks|
      ensures forall i :: 0 <= i < |blocks| && blocks[i].at == blocks[k].at ==> i == k
    {
      forall i | 0 <= i < |blocks| && blocks[i].at == blocks[k].at ensures i == k {
        SameBlock(blocks, k, i, blocks[k].at);
      }
    }
  }

  // A user of the heap: freeing what was just allocated gives back the list as it was.
  method AllocThenFree(h: Heap, size: int) returns (p: int)
    requires h.Valid() && FitsInt(size)
    modifies h
    ensures h.Valid() && h.blocks == old(h.blocks)
  {
    ghost var k: int;
    p, k := h.MemAlloc(size);
    if p != 0 {
      ghost var before := h.blocks;
      Rounds(size);
      AllocatedAt(old(h.blocks), k, RoundUp(size), k);
      FreeUndoesAlloc(old(h.blocks), h.lo, h.hi, k, RoundUp(size));
      var r, j := h.MemFree(p);
      h.SameBlock(before, k, j, p);
    }
  }
}
