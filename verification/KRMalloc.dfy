/** The storage allocator of xv6/user/umalloc.c: malloc, free and morecore over a circular, address-ordered free list.
    Addresses count units of sizeof(Header), 8 bytes; the static header `base` lies below everything sbrk returns. */
module KRMalloc {
  import opened Basics

  datatype Header = Header(ptr: int, size: int)

  type Memory = map<int, Header>

  const NULL := 0
  const BASE := 1
  const UNIT := 8
  const MORE := 4096
  const U32 := 0x1_0000_0000

  // ---- the free list ----

  function Next(ring: seq<int>, i: int): int
    requires 0 <= i < |ring|
  {
    if i + 1 < |ring| then ring[i + 1] else ring[0]
  }

  // The first unit past the block at ring[i].
  function End(mem: Memory, ring: seq<int>, i: int): int
    requires 0 <= i < |ring|
  {
    ring[i] + if ring[i] in mem then mem[ring[i]].size else 0
  }

  ghost predicate Links(mem: Memory, ring: seq<int>) {
    && (forall i {:trigger ring[i]} :: 0 <= i < |ring| ==> ring[i] in mem)
    && (forall i {:trigger Next(ring, i)} :: 0 <= i < |ring| ==> mem[ring[i]].ptr == Next(ring, i))
  }

  ghost predicate Sizes(mem: Memory, ring: seq<int>) {
    forall i :: 0 <= i < |ring| ==> if i == 0 then End(mem, ring, i) == ring[i] else End(mem, ring, i) > ring[i]
  }

  ghost predicate Apart(mem: Memory, ring: seq<int>) {
    forall i :: 0 <= i < |ring| - 1 ==> End(mem, ring, i) < ring[i + 1]
  }

  // From base, the ring visits the free blocks in increasing address order and wraps once; no two of them touch.
  ghost predicate Ring(mem: Memory, ring: seq<int>) {
    |ring| >= 1 && ring[0] == BASE && Links(mem, ring) && Sizes(mem, ring) && Apart(mem, ring)
  }

  lemma {:induction false} Ordered(mem: Memory, ring: seq<int>, i: int, j: int)
    requires Ring(mem, ring) && 0 <= i < j < |ring|
    ensures ring[i] <= End(mem, ring, i) < ring[j]
    decreases j
  {
    if i < j - 1 {
      Ordered(mem, ring, i, j - 1);
      assert ring[j - 1] <= End(mem, ring, j - 1) < ring[j];
    }
  }

  lemma AllOrdered(mem: Memory, ring: seq<int>)
    requires Ring(mem, ring)
    ensures forall i, j :: 0 <= i < j < |ring| ==> ring[i] <= End(mem, ring, i) < ring[j]
  {
    forall i, j | 0 <= i < j < |ring|
      ensures ring[i] <= End(mem, ring, i) < ring[j]
    {
      Ordered(mem, ring, i, j);
    }
  }

  // Unit u belongs to a free block.
  ghost predicate InFree(mem: Memory, ring: seq<int>, u: int) {
    exists i :: 0 <= i < |ring| && ring[i] <= u < End(mem, ring, i)
  }

  // Unit u belongs to the block allocated at a.
  predicate InBlock(a: int, size: int, u: int) {
    a <= u < a + size
  }

  // ---- allocated blocks ----

  ghost predicate Allocated(mem: Memory, alloc: map<int, int>) {
    forall a {:trigger alloc[a]} :: a in alloc ==> a in mem && mem[a].size == alloc[a] >= 1 && BASE < a
  }

  // Allocated blocks are disjoint from each other and from the free blocks.
  ghost predicate Disjoint(mem: Memory, ring: seq<int>, alloc: map<int, int>) {
    && (forall a, b {:trigger alloc[a], alloc[b]} :: a in alloc && b in alloc && a < b ==> a + alloc[a] <= b)
    && (forall a, i {:trigger alloc[a], End(mem, ring, i)} :: a in alloc && 0 <= i < |ring| ==>
          a + alloc[a] <= ring[i] || End(mem, ring, i) <= a)
  }

  // Everything lies below the break.
  ghost predicate Below(mem: Memory, ring: seq<int>, alloc: map<int, int>, brk: int) {
    && BASE < brk
    && (forall a {:trigger alloc[a]} :: a in alloc ==> a + alloc[a] <= brk)
    && (forall i :: 0 <= i < |ring| ==> End(mem, ring, i) <= brk)
  }

  // ---- the address-ordered list is determined by the set of free units ----

  lemma NotPast(mem: Memory, ring: seq<int>, n: nat)
    requires Ring(mem, ring) && n < |ring|
    ensures !InFree(mem, ring, End(mem, ring, n))
  {
    AllOrdered(mem, ring);
  }

  lemma RingStart(m: Memory, r: seq<int>, m': Memory, r': seq<int>, n: nat)
    requires Ring(m, r) && Ring(m', r') && forall u :: InFree(m, r, u) <==> InFree(m', r', u)
    requires n < |r| && n <= |r'|
    requires forall i :: 0 <= i < n ==> r[i] == r'[i] && End(m, r, i) == End(m', r', i)
    ensures n < |r'| && r'[n] <= r[n]
  {
    if n > 0 {
      AllOrdered(m, r);
      AllOrdered(m', r');
      assert InFree(m, r, r[n]) by {
        assert r[n] <= r[n] < End(m, r, n);
      }
      var i :| 0 <= i < |r'| && r'[i] <= r[n] < End(m', r', i);
      assert n < i ==> r'[n] < r'[i];
    }
  }

  lemma RingSize(m: Memory, r: seq<int>, m': Memory, r': seq<int>, n: nat)
    requires Ring(m, r) && Ring(m', r') && forall u :: InFree(m, r, u) <==> InFree(m', r', u)
    requires n < |r| && n < |r'| && r[n] == r'[n]
    ensures End(m', r', n) <= End(m, r, n)
  {
    var u := End(m, r, n);
    NotPast(m, r, n);
    assert !InFree(m', r', u);
    assert r'[n] <= u < End(m', r', n) ==> InFree(m', r', u);
    assert r[n] <= u;
  }

  lemma {:induction false} CanonicalUpTo(m: Memory, r: seq<int>, m': Memory, r': seq<int>, n: nat)
    requires Ring(m, r) && Ring(m', r') && forall u :: InFree(m, r, u) <==> InFree(m', r', u)
    requires n <= |r| && n <= |r'|
    ensures forall i :: 0 <= i < n ==> r[i] == r'[i] && End(m, r, i) == End(m', r', i)
  {
    if n > 0 {
      CanonicalUpTo(m, r, m', r', n - 1);
      RingStart(m, r, m', r', n - 1);
      RingStart(m', r', m, r, n - 1);
      RingSize(m, r, m', r', n - 1);
      RingSize(m', r', m, r, n - 1);
    }
  }

  // Two rings over the same free units visit the same blocks: the order of calls has no say in the list.
  lemma Canonical(m: Memory, r: seq<int>, m': Memory, r': seq<int>)
    requires Ring(m, r) && Ring(m', r') && forall u :: InFree(m, r, u) <==> InFree(m', r', u)
    ensures r == r' && forall i :: 0 <= i < |r| ==> m[r[i]] == m'[r'[i]]
  {
    var n := if |r| < |r'| then |r| else |r'|;
    CanonicalUpTo(m, r, m', r', n);
    if n < |r| {
      RingStart(m, r, m', r', n);
    }
    if n < |r'| {
      RingStart(m', r', m, r, n);
    }
    forall i | 0 <= i < |r|
      ensures m[r[i]] == m'[r'[i]]
    {
      assert End(m, r, i) == End(m', r', i) && m[r[i]].ptr == Next(r, i) == Next(r', i);
    }
  }

  // ---- sizes ----

  // Units asked for, in the 32-bit arithmetic of the code: the header and enough units for nbytes.
  function Units(nbytes: int): (n: int)
    requires 0 <= nbytes < U32
    ensures 1 <= n <= U32 / UNIT
  {
    (nbytes + UNIT - 1) % U32 / UNIT + 1
  }

  // The block holds nbytes beside its header exactly when the rounding does not wrap.
  lemma UnitsSuffice(nbytes: int)
    requires 0 <= nbytes < U32
    ensures 8 * (Units(nbytes) - 1) >= nbytes <==> nbytes <= 0xFFFF_FFF8
    ensures nbytes <= 0xFFFF_FFF8 ==> 8 * (Units(nbytes) - 2) < nbytes
  {
  }

  lemma UnitsWrap()
    ensures Units(U32 - 1) == 1
  {
  }

  // ---- what sbrk is asked for ----

  // morecore's argument to sbrk: an unsigned product, passed as an int.
  function SbrkArg(nu: int): int {
    var bytes := Max(nu, MORE) * UNIT % U32;
    if bytes < 0x8000_0000 then bytes else bytes - U32
  }

  predicate Fitting(nu: int) {
    Max(nu, MORE) * UNIT < 0x8000_0000
  }

  // growproc with n <= 0 bytes on a process of sz bytes: deallocuvm leaves the size when the new one is not below it,
  // and a size of 0 is taken for a failure.
  function ShrunkSize(sz: int, n: int): int {
    var newsz := (sz + n) % U32;
    if n == 0 || newsz >= sz then sz else newsz
  }

  // sbrk is asked for the bytes of the units exactly when they fit an int. Otherwise it is asked for a number that is
  // not positive, and no memory is added; it still answers as for a success unless the size comes out as 0.
  lemma SbrkArgument(nu: int, sz: int)
    requires 1 <= nu <= U32 / UNIT && 0 <= sz < U32
    ensures SbrkArg(nu) == 8 * Max(nu, 4096) <==> Fitting(nu)
    ensures Fitting(nu) <==> 8 * Max(nu, 4096) < 0x8000_0000
    ensures !Fitting(nu) ==> SbrkArg(nu) <= 0 && ShrunkSize(sz, SbrkArg(nu)) <= sz
  {
  }

  // The requests for which malloc gets there: from just below 2^31, up to where the rounding wraps.
  lemma AskedTooMuch(nbytes: int)
    requires 0 <= nbytes < U32
    ensures !Fitting(Units(nbytes)) <==> 0x7FFF_FFF0 < nbytes <= 0xFFFF_FFF8
  {
  }

  // ---- linking a block in ----

  // Where a block at bp goes: after the last free block (or base) below it.
  ghost predicate Place(ring: seq<int>, j: int, bp: int) {
    0 <= j < |ring| && ring[j] < bp && (j + 1 < |ring| ==> bp < ring[j + 1])
  }

  lemma {:induction false} PlaceExists(mem: Memory, ring: seq<int>, bp: int, size: int, n: nat) returns (j: int)
    requires Ring(mem, ring) && Clear(mem, ring, bp, size) && 1 <= n <= |ring|
    requires n < |ring| ==> bp < ring[n]
    ensures Place(ring, j, bp)
  {
    assert bp + size <= ring[n - 1] || End(mem, ring, n - 1) <= bp;
    if ring[n - 1] < bp {
      j := n - 1;
    } else {
      assert n != 1;
      j := PlaceExists(mem, ring, bp, size, n - 1);
    }
  }

  // The block [bp, bp + n) is clear of the free blocks.
  ghost predicate Clear(mem: Memory, ring: seq<int>, bp: int, n: int) {
    BASE < bp && n >= 1 && forall i :: 0 <= i < |ring| ==> bp + n <= ring[i] || End(mem, ring, i) <= bp
  }

  // free's updates of the headers, p being the free block below bp.
  function Relinked(mem: Memory, p: int, bp: int): Memory
    requires p in mem && bp in mem && mem[p].ptr in mem
  {
    var next := mem[p].ptr;
    var b := if bp + mem[bp].size == next then Header(mem[next].ptr, mem[bp].size + mem[next].size)
      else Header(next, mem[bp].size);
    var m := mem[bp := b];
    if p + m[p].size == bp then m[p := Header(b.ptr, m[p].size + b.size)] else m[p := m[p].(ptr := bp)]
  }

  // A free block as the stretch of units [lo, hi).
  datatype Span = Span(lo: int, hi: int)

  ghost function Spans(mem: Memory, ring: seq<int>): (s: seq<Span>)
    ensures |s| == |ring| && forall i :: 0 <= i < |ring| ==> s[i] == Span(ring[i], End(mem, ring, i))
  {
    seq(|ring|, i requires 0 <= i < |ring| => Span(ring[i], End(mem, ring, i)))
  }

  ghost predicate InSpans(s: seq<Span>, u: int) {
    exists i :: 0 <= i < |s| && s[i].lo <= u < s[i].hi
  }

  // Rings as rows of spans: base first, and gaps between them.
  ghost predicate Row(s: seq<Span>) {
    && |s| >= 1 && s[0] == Span(BASE, BASE)
    && (forall i :: 1 <= i < |s| ==> s[i].lo < s[i].hi)
    && (forall i {:trigger s[i].hi} :: 0 <= i < |s| - 1 ==> s[i].hi < s[i + 1].lo)
  }

  // A span b put behind s[j] joins the ones it touches: those from First to Last are replaced by Joined.
  function First(s: seq<Span>, j: int, b: Span): int
    requires 0 <= j < |s|
  {
    if s[j].hi == b.lo then j else j + 1
  }

  function Last(s: seq<Span>, j: int, b: Span): int
    requires 0 <= j < |s|
  {
    if j + 1 < |s| && b.hi == s[j + 1].lo then j + 2 else j + 1
  }

  function Joined(s: seq<Span>, j: int, b: Span): Span
    requires 0 <= j < |s|
  {
    Span(if s[j].hi == b.lo then s[j].lo else b.lo, if j + 1 < |s| && b.hi == s[j + 1].lo then s[j + 1].hi else b.hi)
  }

  function Join(s: seq<Span>, j: int, b: Span): seq<Span>
    requires 0 <= j < |s|
  {
    s[..First(s, j, b)] + [Joined(s, j, b)] + s[Last(s, j, b)..]
  }

  // b lies strictly in the gap behind s[j], touching at most its ends.
  ghost predicate Fits(s: seq<Span>, j: int, b: Span) {
    0 <= j < |s| && BASE < b.lo < b.hi && s[j].hi <= b.lo && (j + 1 < |s| ==> b.hi <= s[j + 1].lo)
  }

  lemma JoinRow(s: seq<Span>, j: int, b: Span)
    requires Row(s) && Fits(s, j, b)
    ensures Row(Join(s, j, b))
  {
    var r, k, e := Join(s, j, b), First(s, j, b), Last(s, j, b);
    assert k > 0;
    assert r[0] == s[0];
    forall x {:trigger r[x].hi} | 0 <= x < |r| - 1
      ensures r[x].hi < r[x + 1].lo
    {
      JoinGap(s, j, b, x);
    }
    assert j > 0 ==> s[j].lo < s[j].hi;
    assert j + 1 < |s| ==> s[j + 1].lo < s[j + 1].hi;
    forall x | 1 <= x < |r|
      ensures r[x].lo < r[x].hi
    {
      assert r[x] == if x < k then s[x] else if x == k then Joined(s, j, b) else s[x - k - 1 + e];
    }
  }

  lemma JoinGap(s: seq<Span>, j: int, b: Span, x: int)
    requires Row(s) && Fits(s, j, b) && 0 <= x < |Join(s, j, b)| - 1
    ensures Join(s, j, b)[x].hi < Join(s, j, b)[x + 1].lo
  {
    var r, k, e := Join(s, j, b), First(s, j, b), Last(s, j, b);
    if x < k - 1 {
      assert r[x] == s[x] && r[x + 1] == s[x + 1];
    } else if x > k {
      assert r[x] == s[x - k - 1 + e] && r[x + 1] == s[x - k + e];
    } else if x == k {
      assert r[x + 1] == s[e];
      assert s[e - 1].hi < s[e].lo;
    } else {
      assert r[x] == s[k - 1];
      assert k == j ==> s[j - 1].hi < s[j].lo;
    }
  }

  lemma InTwo(s: seq<Span>, t: seq<Span>, u: int)
    ensures InSpans(s + t, u) <==> InSpans(s, u) || InSpans(t, u)
  {
    if i :| 0 <= i < |s| && s[i].lo <= u < s[i].hi {
      assert (s + t)[i] == s[i];
    }
    if i :| 0 <= i < |t| && t[i].lo <= u < t[i].hi {
      assert (s + t)[|s| + i] == t[i];
    }
  }

  lemma JoinUnits(s: seq<Span>, j: int, b: Span, u: int)
    requires Row(s) && Fits(s, j, b)
    ensures InSpans(Join(s, j, b), u) <==> InSpans(s, u) || b.lo <= u < b.hi
  {
    hide Row, InSpans, Joined;
    var k, e, c := First(s, j, b), Last(s, j, b), Joined(s, j, b);
    assert s == s[..k] + s[k..e] + s[e..];
    InTwo(s[..k] + s[k..e], s[e..], u);
    InTwo(s[..k], s[k..e], u);
    InTwo(s[..k] + [c], s[e..], u);
    InTwo(s[..k], [c], u);
    OneSpan(c, u);
    SwallowedUnits(s, j, b, u);
  }

  lemma OneSpan(c: Span, u: int)
    ensures InSpans([c], u) <==> c.lo <= u < c.hi
  {
    assert [c][0] == c;
  }

  lemma SwallowedUnits(s: seq<Span>, j: int, b: Span, u: int)
    requires Row(s) && Fits(s, j, b)
    ensures var c := Joined(s, j, b);
      c.lo <= u < c.hi <==> InSpans(s[First(s, j, b)..Last(s, j, b)], u) || b.lo <= u < b.hi
  {
    var k, e := First(s, j, b), Last(s, j, b);
    var m := s[k..e];
    if k == j {
      assert m[0] == s[j] && s[j].lo <= s[j].hi;
    }
    if e == j + 2 {
      assert m[e - 1 - k] == s[j + 1] && s[j + 1].lo < s[j + 1].hi;
    }
  }

  // A stretch of units outside the row and outside b is outside the new row.
  lemma JoinOutside(s: seq<Span>, j: int, b: Span, lo: int, hi: int, x: int)
    requires Row(s) && Fits(s, j, b) && lo < hi && (hi <= b.lo || b.hi <= lo)
    requires forall i :: 0 <= i < |s| ==> hi <= s[i].lo || s[i].hi <= lo
    requires 0 <= x < |Join(s, j, b)|
    ensures hi <= Join(s, j, b)[x].lo || Join(s, j, b)[x].hi <= lo
  {
    var k, e := First(s, j, b), Last(s, j, b);
    if x != k {
      assert Join(s, j, b)[x] == s[if x < k then x else x - k - 1 + e];
    } else {
      assert hi <= s[j].lo || s[j].hi <= lo;
      if j + 1 < |s| {
        assert hi <= s[j + 1].lo || s[j + 1].hi <= lo;
        assert s[j + 1].lo < s[j + 1].hi;
      }
      assert j > 0 ==> s[j].lo < s[j].hi;
    }
  }

  lemma JoinBelow(s: seq<Span>, j: int, b: Span, brk: int, x: int)
    requires 0 <= j < |s| && b.hi <= brk && forall i :: 0 <= i < |s| ==> s[i].hi <= brk
    requires 0 <= x < |Join(s, j, b)|
    ensures Join(s, j, b)[x].hi <= brk
  {
  }

  lemma RingRow(mem: Memory, ring: seq<int>)
    requires Links(mem, ring)
    ensures Ring(mem, ring) <==> Row(Spans(mem, ring))
    ensures forall u :: InFree(mem, ring, u) <==> InSpans(Spans(mem, ring), u)
  {
    var s := Spans(mem, ring);
    if Ring(mem, ring) {
      assert forall i :: 0 <= i < |ring| ==> s[i] == Span(ring[i], End(mem, ring, i));
    }
    forall u
      ensures InFree(mem, ring, u) <==> InSpans(s, u)
    {
      if i :| 0 <= i < |ring| && ring[i] <= u < End(mem, ring, i) {
        assert s[i].lo <= u < s[i].hi;
      }
    }
  }

  function BlockSpan(mem: Memory, bp: int): Span
    requires bp in mem
  {
    Span(bp, bp + mem[bp].size)
  }

  // The ring with the block at bp linked in behind ring[j].
  ghost function Linked(mem: Memory, ring: seq<int>, j: int, bp: int): seq<int>
    requires 0 <= j < |ring| && bp in mem
  {
    var s, b := Spans(mem, ring), BlockSpan(mem, bp);
    ring[..First(s, j, b)] + [Joined(s, j, b).lo] + ring[Last(s, j, b)..]
  }

  ghost predicate Linkable(mem: Memory, ring: seq<int>, j: int, bp: int) {
    Ring(mem, ring) && bp in mem && Fits(Spans(mem, ring), j, BlockSpan(mem, bp))
  }

  // The header values after free, read off the code's two tests.
  lemma RelinkedHeaders(mem: Memory, ring: seq<int>, j: int, bp: int)
    requires Linkable(mem, ring, j, bp)
    ensures ring[j] in mem && mem[ring[j]].ptr == Next(ring, j) && Next(ring, j) in mem
    ensures var m, s, b := Relinked(mem, ring[j], bp), Spans(mem, ring), BlockSpan(mem, bp);
      var c, top := Joined(s, j, b), Next(ring, Last(s, j, b) - 1);
      && m.Keys == mem.Keys
      && (forall a :: a in mem && a != bp && a != ring[j] ==> m[a] == mem[a])
      && m[c.lo] == Header(top, c.hi - c.lo)
      && (c.lo == bp ==> m[ring[j]] == Header(bp, mem[ring[j]].size))
  {
    hide Apart, Sizes;
    assert ring[j] != bp;
    assert mem[ring[j]].ptr == Next(ring, j);
    if j + 1 < |ring| {
      assert ring[j + 1] in mem && mem[ring[j + 1]].ptr == Next(ring, j + 1);
    } else {
      assert ring[0] in mem && ring[0] == BASE;
    }
  }

  // Entries of the ring other than ring[j] are neither ring[j] nor bp.
  lemma Distinct(mem: Memory, ring: seq<int>, j: int, bp: int, i: int)
    requires Linkable(mem, ring, j, bp) && 0 <= i < |ring| && i != j
    ensures ring[i] != ring[j] && ring[i] != bp
  {
    AllOrdered(mem, ring);
    assert Spans(mem, ring)[j].hi <= bp;
    if i > j {
      assert bp < Spans(mem, ring)[j + 1].lo;
    }
  }

  lemma JoinShape(s: seq<Span>, j: int, b: Span)
    requires 0 <= j < |s|
    ensures j <= First(s, j, b) <= j + 1 <= Last(s, j, b) <= j + 2 && Last(s, j, b) <= |s|
    ensures Joined(s, j, b).lo == if First(s, j, b) == j then s[j].lo else b.lo
  {
  }

  // Indexing a row, ring or anything else whose entries k to e - 1 were replaced by c.
  function Replaced<T>(s: seq<T>, k: int, e: int, c: T): seq<T>
    requires 0 <= k <= e <= |s|
  {
    s[..k] + [c] + s[e..]
  }

  lemma ReplacedAt<T>(s: seq<T>, k: int, e: int, c: T, x: int)
    requires 0 <= k <= e <= |s| && 0 <= x < |Replaced(s, k, e, c)|
    ensures |Replaced(s, k, e, c)| == k + 1 + |s| - e
    ensures x != k ==> 0 <= (if x < k then x else x - k - 1 + e) < |s|
    ensures Replaced(s, k, e, c)[x] == if x == k then c else s[if x < k then x else x - k - 1 + e]
  {
  }

  lemma ReplacedNext(r: seq<int>, k: int, e: int, c: int, x: int)
    requires 0 < k <= e <= |r| && 0 <= x < |Replaced(r, k, e, c)|
    ensures x != k ==> 0 <= (if x < k then x else x - k - 1 + e) < |r|
    ensures Next(Replaced(r, k, e, c), x) ==
      if x == k - 1 then c else if x == k then Next(r, e - 1) else Next(r, if x < k then x else x - k - 1 + e)
  {
    if x + 1 < |Replaced(r, k, e, c)| {
      ReplacedAt(r, k, e, c, x + 1);
    }
  }

  lemma LinkedIs(mem: Memory, ring: seq<int>, j: int, bp: int)
    requires Linkable(mem, ring, j, bp)
    ensures Ring(mem, ring) && 0 <= j < |ring|
    ensures var s, b := Spans(mem, ring), BlockSpan(mem, bp);
      var k, e, c := First(s, j, b), Last(s, j, b), Joined(s, j, b);
      && 0 < k && j <= k <= j + 1 <= e <= j + 2 && e <= |ring|
      && c.lo == (if k == j then ring[j] else bp)
      && Linked(mem, ring, j, bp) == Replaced(ring, k, e, c.lo) && Join(s, j, b) == Replaced(s, k, e, c)
  {
    hide Links, Apart;
    JoinShape(Spans(mem, ring), j, BlockSpan(mem, bp));
  }

  // The x-th entry of the new ring points to the next one and spans what the joined row says.
  lemma LinkedAt(mem: Memory, ring: seq<int>, j: int, bp: int, x: int)
    requires 0 <= j < |ring| && Linkable(mem, ring, j, bp) && ring[j] in mem && mem[ring[j]].ptr in mem
    requires bp in mem && 0 <= x < |Linked(mem, ring, j, bp)|
    ensures |Linked(mem, ring, j, bp)| == |Join(Spans(mem, ring), j, BlockSpan(mem, bp))|
    ensures var m, r := Relinked(mem, ring[j], bp), Linked(mem, ring, j, bp);
      && r[x] in m && m[r[x]].ptr == Next(r, x)
      && Span(r[x], End(m, r, x)) == Join(Spans(mem, ring), j, BlockSpan(mem, bp))[x]
  {
    hide Relinked, Ring, Linkable, Joined, First, Last, Linked, Join;
    var m, r, s, b := Relinked(mem, ring[j], bp), Linked(mem, ring, j, bp), Spans(mem, ring), BlockSpan(mem, bp);
    var k, e, c := First(s, j, b), Last(s, j, b), Joined(s, j, b);
    RelinkedHeaders(mem, ring, j, bp);
    LinkedIs(mem, ring, j, bp);
    ReplacedAt(ring, k, e, c.lo, x);
    ReplacedAt(s, k, e, c, x);
    ReplacedNext(ring, k, e, c.lo, x);
    if x != k {
      var i := if x < k then x else x - k - 1 + e;
      RingAt(mem, ring, i);
      if i != j {
        Distinct(mem, ring, j, bp, i);
      }
    }
  }

  lemma RingAt(mem: Memory, ring: seq<int>, i: int)
    requires Ring(mem, ring) && 0 <= i < |ring|
    ensures ring[i] in mem && mem[ring[i]].ptr == Next(ring, i)
  {
  }

  lemma ClearFits(mem: Memory, ring: seq<int>, j: int, bp: int)
    requires Ring(mem, ring) && bp in mem && Clear(mem, ring, bp, mem[bp].size) && Place(ring, j, bp)
    ensures Linkable(mem, ring, j, bp)
  {
    assert bp + mem[bp].size <= ring[j] || End(mem, ring, j) <= bp;
    if j + 1 < |ring| {
      assert ring[j + 1] <= End(mem, ring, j + 1);
    }
  }

  // The new list is a ring again, over the old free units and those of the block.
  lemma LinkedRing(mem: Memory, ring: seq<int>, j: int, bp: int)
    requires 0 <= j < |ring| && bp in mem && Linkable(mem, ring, j, bp) && ring[j] in mem && mem[ring[j]].ptr in mem
    ensures var m, r := Relinked(mem, ring[j], bp), Linked(mem, ring, j, bp);
      && Ring(m, r) && ring[j] in r
      && Spans(m, r) == Join(Spans(mem, ring), j, BlockSpan(mem, bp))
      && forall u :: InFree(m, r, u) <==> InFree(mem, ring, u) || InBlock(bp, mem[bp].size, u)
  {
    var m, r, s, b := Relinked(mem, ring[j], bp), Linked(mem, ring, j, bp), Spans(mem, ring), BlockSpan(mem, bp);
    LinkedIs(mem, ring, j, bp);
    LinkedHas(mem, ring, j, bp);
    assert Links(mem, ring);
    JoinRow(s, j, b) by {
      RingRow(mem, ring);
    }
    hide Relinked, Linked, Join, Ring, Row, Fits, Linkable, InFree, InSpans;
    forall x | 0 <= x < |r|
      ensures r[x] in m && m[r[x]].ptr == Next(r, x) && Spans(m, r)[x] == Join(s, j, b)[x]
    {
      LinkedAt(mem, ring, j, bp, x);
    }
    assert Links(m, r);
    assert Spans(m, r) == Join(s, j, b);
    RingRow(m, r);
    RingRow(mem, ring);
    LinkableFits(mem, ring, j, bp);
    forall u
      ensures InFree(m, r, u) <==> InFree(mem, ring, u) || InBlock(bp, mem[bp].size, u)
    {
      JoinUnits(s, j, b, u);
    }
  }

  lemma LinkableFits(mem: Memory, ring: seq<int>, j: int, bp: int)
    requires Linkable(mem, ring, j, bp)
    ensures Fits(Spans(mem, ring), j, BlockSpan(mem, bp)) && Row(Spans(mem, ring))
  {
    RingRow(mem, ring);
  }

  lemma LinkedHas(mem: Memory, ring: seq<int>, j: int, bp: int)
    requires 0 <= j < |ring| && bp in mem && Linkable(mem, ring, j, bp)
    ensures ring[j] in Linked(mem, ring, j, bp)
    ensures |Linked(mem, ring, j, bp)| == |Join(Spans(mem, ring), j, BlockSpan(mem, bp))|
  {
    LinkedIs(mem, ring, j, bp);
    hide Linkable, Ring, Linked, Join;
    var s, b := Spans(mem, ring), BlockSpan(mem, bp);
    assert Replaced(ring, First(s, j, b), Last(s, j, b), Joined(s, j, b).lo)[j] == ring[j];
  }

  // The units of the allocated blocks, headers and contents, are as before.
  ghost predicate Untouched(mem: Memory, m: Memory, alloc: map<int, int>) {
    forall a, u {:trigger InBlock(a, alloc[a], u)} :: a in alloc && InBlock(a, alloc[a], u) && u in mem ==>
      u in m && m[u] == mem[u]
  }

  // Whatever is disjoint from the old free blocks and from bp is disjoint from the new ones.
  lemma LinkedOthers(mem: Memory, ring: seq<int>, j: int, bp: int, m: Memory, r: seq<int>, alloc: map<int, int>,
                     brk: int)
    requires Ring(mem, ring) && Linkable(mem, ring, j, bp)
    requires Spans(m, r) == Join(Spans(mem, ring), j, BlockSpan(mem, bp))
    requires Disjoint(mem, ring, alloc) && Below(mem, ring, alloc, brk) && bp in alloc && alloc[bp] == mem[bp].size
    requires Allocated(mem, alloc)
    ensures Disjoint(m, r, alloc - {bp}) && Below(m, r, alloc - {bp}, brk)
  {
    var s, b, rest := Spans(mem, ring), BlockSpan(mem, bp), alloc - {bp};
    hide Ring, Row, Fits, Linkable, Join;
    LinkableFits(mem, ring, j, bp);
    forall a, x | a in rest && 0 <= x < |r|
      ensures a + rest[a] <= r[x] || End(m, r, x) <= a
    {
      assert Spans(m, r)[x] == Join(s, j, b)[x];
      AllocOutside(mem, ring, alloc, a, bp);
      JoinOutside(s, j, b, a, a + alloc[a], x);
    }
    forall x | 0 <= x < |r|
      ensures End(m, r, x) <= brk
    {
      assert Spans(m, r)[x] == Join(s, j, b)[x];
      AllBelow(mem, ring, alloc, brk);
      JoinBelow(s, j, b, brk, x);
    }
  }

  lemma AllocOutside(mem: Memory, ring: seq<int>, alloc: map<int, int>, a: int, bp: int)
    requires Allocated(mem, alloc) && Disjoint(mem, ring, alloc) && a in alloc && bp in alloc && a != bp
    ensures alloc[a] >= 1 && (a + alloc[a] <= bp || bp + alloc[bp] <= a)
    ensures forall i :: 0 <= i < |ring| ==> a + alloc[a] <= Spans(mem, ring)[i].lo || Spans(mem, ring)[i].hi <= a
  {
    forall i | 0 <= i < |ring|
      ensures a + alloc[a] <= ring[i] || End(mem, ring, i) <= a
    {
    }
  }

  lemma AllBelow(mem: Memory, ring: seq<int>, alloc: map<int, int>, brk: int)
    requires Below(mem, ring, alloc, brk)
    ensures forall i :: 0 <= i < |ring| ==> Spans(mem, ring)[i].hi <= brk
  {
  }

  // free writes the headers of bp and of the free block below it, and nothing of the other allocated blocks.
  lemma LinkedUntouched(mem: Memory, ring: seq<int>, j: int, bp: int, m: Memory, alloc: map<int, int>)
    requires 0 <= j < |ring| && Sizes(mem, ring) && End(mem, ring, j) <= bp && bp in alloc
    requires Allocated(mem, alloc) && Disjoint(mem, ring, alloc) && ring[0] == BASE && Linkable(mem, ring, j, bp)
    requires m.Keys == mem.Keys && forall a :: a in mem && a != bp && a != ring[j] ==> m[a] == mem[a]
    ensures Allocated(m, alloc - {bp}) && Untouched(mem, m, alloc - {bp})
  {
    var rest := alloc - {bp};
    hide Linkable, Links, Apart;
    forall a, u | a in rest && InBlock(a, rest[a], u)
      ensures u != bp && u != ring[j]
    {
      assert rest[a] == alloc[a] >= 1 && alloc[bp] >= 1;
      assert a + alloc[a] <= ring[j] || End(mem, ring, j) <= a;
      assert ring[j] == BASE || ring[j] < End(mem, ring, j);
    }
    forall a | a in rest
      ensures a in m && m[a].size == rest[a] >= 1 && BASE < a
    {
      assert alloc[a] >= 1 && InBlock(a, rest[a], a);
    }
  }

  // ---- room for a request ----

  ghost predicate RunFree(mem: Memory, ring: seq<int>, a: int, n: int) {
    forall u :: a <= u < a + n ==> InFree(mem, ring, u)
  }

  // Some n units in a row are free.
  ghost predicate Room(mem: Memory, ring: seq<int>, n: int) {
    exists a :: RunFree(mem, ring, a, n)
  }

  predicate Enough(mem: Memory, ring: seq<int>, n: int, i: int)
    requires 0 <= i < |ring|
  {
    End(mem, ring, i) - ring[i] >= n
  }

  ghost predicate HasEnough(mem: Memory, ring: seq<int>, n: int) {
    exists i :: 0 <= i < |ring| && Enough(mem, ring, n, i)
  }

  // Since no two free blocks touch, n free units in a row lie in one block.
  lemma {:induction false} RunInBlock(mem: Memory, ring: seq<int>, a: int, n: int) returns (i: int)
    requires Ring(mem, ring) && n >= 1 && RunFree(mem, ring, a, n)
    ensures 0 <= i < |ring| && ring[i] <= a && a + n <= End(mem, ring, i)
    decreases n
  {
    assert InFree(mem, ring, a + n - 1);
    if n == 1 {
      i :| 0 <= i < |ring| && ring[i] <= a < End(mem, ring, i);
    } else {
      i := RunInBlock(mem, ring, a, n - 1);
      NotPast(mem, ring, i);
    }
  }

  lemma RoomIsEnough(mem: Memory, ring: seq<int>, n: int)
    requires Ring(mem, ring) && n >= 1
    ensures Room(mem, ring, n) <==> HasEnough(mem, ring, n)
  {
    if a :| RunFree(mem, ring, a, n) {
      var i := RunInBlock(mem, ring, a, n);
      assert Enough(mem, ring, n, i);
    }
    if i :| 0 <= i < |ring| && Enough(mem, ring, n, i) {
      forall u | ring[i] <= u < ring[i] + n
        ensures InFree(mem, ring, u)
      {
        assert ring[i] <= u < End(mem, ring, i);
      }
      assert RunFree(mem, ring, ring[i], n);
    }
  }

  // ---- taking a block out ----

  // Block ring[t] is unlinked from its predecessor.
  function Unlinked(mem: Memory, ring: seq<int>, t: int): Memory
    requires 0 < t < |ring| && ring[t - 1] in mem && ring[t] in mem
  {
    mem[ring[t - 1] := mem[ring[t - 1]].(ptr := mem[ring[t]].ptr)]
  }

  function Without(ring: seq<int>, t: int): seq<int>
    requires 0 <= t < |ring|
  {
    ring[..t] + ring[t + 1..]
  }

  // Where entry x of the list without its t-th entry was.
  function Past(t: int, x: int): int {
    if x < t then x else x + 1
  }

  lemma UnlinkedAt(mem: Memory, ring: seq<int>, t: int, x: int)
    requires Ring(mem, ring) && 0 < t < |ring| && ring[t - 1] in mem && ring[t] in mem && 0 <= x < |ring| - 1
    ensures var m, r := Unlinked(mem, ring, t), Without(ring, t);
      |r| == |ring| - 1 && SameEntry(mem, ring, t, m, r, x) && m[r[x]].ptr == Next(r, x)
  {
    var i := Past(t, x);
    RingAt(mem, ring, i);
    RingAt(mem, ring, t);
    if i < t - 1 {
      Ordered(mem, ring, i, t - 1);
    } else if i > t - 1 {
      Ordered(mem, ring, t - 1, i);
    }
  }

  // r lists the entries of ring but the t-th, with the same ends.
  ghost predicate AllBut(mem: Memory, ring: seq<int>, t: int, m: Memory, r: seq<int>) {
    && 0 < t < |ring| && |r| == |ring| - 1
    && forall x {:trigger r[x]} {:trigger SameEntry(mem, ring, t, m, r, x)} :: 0 <= x < |r| ==>
         SameEntry(mem, ring, t, m, r, x)
  }

  predicate SameEntry(mem: Memory, ring: seq<int>, t: int, m: Memory, r: seq<int>, x: int)
    requires 0 < t < |ring| && |r| == |ring| - 1 && 0 <= x < |r|
  {
    r[x] == ring[Past(t, x)] && r[x] in m && End(m, r, x) == End(mem, ring, Past(t, x))
  }

  lemma UnlinkedShape(mem: Memory, ring: seq<int>, t: int)
    requires Ring(mem, ring) && 0 < t < |ring| && ring[t - 1] in mem && ring[t] in mem
    ensures AllBut(mem, ring, t, Unlinked(mem, ring, t), Without(ring, t))
    ensures Links(Unlinked(mem, ring, t), Without(ring, t))
  {
    hide Ring, Unlinked, Without;
    var m, r := Unlinked(mem, ring, t), Without(ring, t);
    UnlinkedAt(mem, ring, t, 0);
    forall x {:trigger SameEntry(mem, ring, t, m, r, x)} | 0 <= x < |r|
      ensures SameEntry(mem, ring, t, m, r, x)
    {
      UnlinkedAt(mem, ring, t, x);
    }
    forall x {:trigger Next(r, x)} | 0 <= x < |r|
      ensures r[x] in m && m[r[x]].ptr == Next(r, x)
    {
      UnlinkedAt(mem, ring, t, x);
    }
  }

  lemma AllButApart(mem: Memory, ring: seq<int>, t: int, m: Memory, r: seq<int>)
    requires Ring(mem, ring) && AllBut(mem, ring, t, m, r) && Links(m, r)
    ensures Ring(m, r)
  {
    forall x | 0 <= x < |r|
      ensures if x == 0 then End(m, r, x) == r[x] else End(m, r, x) > r[x]
    {
    }
    forall x | 0 <= x < |r| - 1
      ensures End(m, r, x) < r[x + 1]
    {
      Ordered(mem, ring, Past(t, x), if x + 1 < t then x + 1 else x + 2);
    }
  }

  lemma AllButUnits(mem: Memory, ring: seq<int>, t: int, m: Memory, r: seq<int>, u: int)
    requires Ring(mem, ring) && AllBut(mem, ring, t, m, r)
    ensures InFree(m, r, u) <==> InFree(mem, ring, u) && !(ring[t] <= u < End(mem, ring, t))
  {
    if i :| 0 <= i < |ring| && ring[i] <= u < End(mem, ring, i) && i != t {
      assert r[if i < t then i else i - 1] <= u;
    }
    if x :| 0 <= x < |r| && r[x] <= u < End(m, r, x) {
      var i := Past(t, x);
      assert ring[i] <= u < End(mem, ring, i);
      if i < t {
        Ordered(mem, ring, i, t);
      } else {
        Ordered(mem, ring, t, i);
      }
    }
  }

  lemma UnlinkedRing(mem: Memory, ring: seq<int>, t: int)
    requires Ring(mem, ring) && 0 < t < |ring| && ring[t - 1] in mem && ring[t] in mem
    ensures Ring(Unlinked(mem, ring, t), Without(ring, t))
    ensures forall u :: InFree(Unlinked(mem, ring, t), Without(ring, t), u) <==>
      InFree(mem, ring, u) && !(ring[t] <= u < End(mem, ring, t))
    ensures forall x :: 0 <= x < |Without(ring, t)| ==>
      Carved(mem, ring, t, ring[t], Without(ring, t)[x], End(Unlinked(mem, ring, t), Without(ring, t), x))
  {
    hide Ring, Unlinked, Without, AllBut, InFree;
    var m, r := Unlinked(mem, ring, t), Without(ring, t);
    UnlinkedShape(mem, ring, t);
    AllButApart(mem, ring, t, m, r);
    forall u
      ensures InFree(m, r, u) <==> InFree(mem, ring, u) && !(ring[t] <= u < End(mem, ring, t))
    {
      AllButUnits(mem, ring, t, m, r, u);
    }
    AllButCarved(mem, ring, t, m, r);
  }

  // [lo, hi) is part of a free block, and for the block ring[t], of the part below q.
  ghost predicate Carved(mem: Memory, ring: seq<int>, t: int, q: int, lo: int, hi: int) {
    exists i :: 0 <= i < |ring| && ring[i] == lo && hi <= End(mem, ring, i) && (i == t ==> hi <= q)
  }

  lemma AllButCarved(mem: Memory, ring: seq<int>, t: int, m: Memory, r: seq<int>)
    requires AllBut(mem, ring, t, m, r)
    ensures forall x :: 0 <= x < |r| ==> Carved(mem, ring, t, ring[t], r[x], End(m, r, x))
  {
    forall x | 0 <= x < |r|
      ensures Carved(mem, ring, t, ring[t], r[x], End(m, r, x))
    {
      var i := Past(t, x);
      assert ring[i] == r[x] && End(m, r, x) <= End(mem, ring, i);
    }
  }

  // The last n units of block ring[t] become a block of their own.
  function Cut(mem: Memory, p: int, n: int): Memory
    requires p in mem
  {
    var m := mem[p := mem[p].(size := mem[p].size - n)];
    var q := p + m[p].size;
    m[q := Header(if q in m then m[q].ptr else NULL, n)]
  }

  ghost predicate CutShape(mem: Memory, ring: seq<int>, t: int, n: int, m: Memory) {
    forall x {:trigger ring[x]} {:trigger CutEntry(mem, ring, t, n, m, x)} :: 0 <= x < |ring| ==>
      CutEntry(mem, ring, t, n, m, x)
  }

  predicate CutEntry(mem: Memory, ring: seq<int>, t: int, n: int, m: Memory, x: int)
    requires 0 <= x < |ring|
  {
    ring[x] in m && End(m, ring, x) == End(mem, ring, x) - if x == t then n else 0
  }

  lemma CutHeaders(mem: Memory, ring: seq<int>, t: int, n: int)
    requires Ring(mem, ring) && 0 < t < |ring| && ring[t] in mem && 1 <= n < mem[ring[t]].size
    ensures CutShape(mem, ring, t, n, Cut(mem, ring[t], n)) && Links(Cut(mem, ring[t], n), ring)
  {
    hide Ring, Cut, Next;
    var m := Cut(mem, ring[t], n);
    forall x {:trigger CutEntry(mem, ring, t, n, m, x)} | 0 <= x < |ring|
      ensures CutEntry(mem, ring, t, n, m, x)
    {
      CutHeader(mem, ring, t, n, x);
    }
    forall x {:trigger Next(ring, x)} | 0 <= x < |ring|
      ensures ring[x] in m && m[ring[x]].ptr == Next(ring, x)
    {
      CutHeader(mem, ring, t, n, x);
    }
  }

  lemma CutHeader(mem: Memory, ring: seq<int>, t: int, n: int, x: int)
    requires Ring(mem, ring) && 0 < t < |ring| && ring[t] in mem && 1 <= n < mem[ring[t]].size && 0 <= x < |ring|
    ensures var m := Cut(mem, ring[t], n);
      CutEntry(mem, ring, t, n, m, x) && m[ring[x]].ptr == Next(ring, x)
  {
    hide Ring;
    RingAt(mem, ring, x);
    if x > t {
      Ordered(mem, ring, t, x);
    } else if x < t {
      Ordered(mem, ring, x, t);
    }
  }

  lemma CutRing(mem: Memory, ring: seq<int>, t: int, n: int)
    requires Ring(mem, ring) && 0 < t < |ring| && ring[t] in mem && 1 <= n < mem[ring[t]].size
    ensures Ring(Cut(mem, ring[t], n), ring)
    ensures forall u :: InFree(Cut(mem, ring[t], n), ring, u) <==>
      InFree(mem, ring, u) && !(End(mem, ring, t) - n <= u < End(mem, ring, t))
    ensures forall x :: 0 <= x < |ring| ==>
      Carved(mem, ring, t, End(mem, ring, t) - n, ring[x], End(Cut(mem, ring[t], n), ring, x))
  {
    hide Cut;
    var m := Cut(mem, ring[t], n);
    CutHeaders(mem, ring, t, n);
    assert Sizes(m, ring) && Apart(m, ring);
    forall u
      ensures InFree(m, ring, u) <==> InFree(mem, ring, u) && !(End(mem, ring, t) - n <= u < End(mem, ring, t))
    {
      CutUnits(mem, ring, t, n, m, u);
    }
    forall x | 0 <= x < |ring|
      ensures Carved(mem, ring, t, End(mem, ring, t) - n, ring[x], End(m, ring, x))
    {
      assert ring[x] == ring[x] && End(m, ring, x) <= End(mem, ring, x);
    }
  }

  lemma CutUnits(mem: Memory, ring: seq<int>, t: int, n: int, m: Memory, u: int)
    requires Ring(mem, ring) && 0 < t < |ring| && CutShape(mem, ring, t, n, m) && n >= 1
    requires ring[t] < End(mem, ring, t) - n
    ensures InFree(m, ring, u) <==> InFree(mem, ring, u) && !(End(mem, ring, t) - n <= u < End(mem, ring, t))
  {
    if i :| 0 <= i < |ring| && ring[i] <= u < End(mem, ring, i) && !(End(mem, ring, t) - n <= u < End(mem, ring, t)) {
      assert ring[i] <= u < End(m, ring, i);
    }
    if i :| 0 <= i < |ring| && ring[i] <= u < End(m, ring, i) {
      assert ring[i] <= u < End(mem, ring, i);
      if i < t {
        Ordered(mem, ring, i, t);
      } else if t < i {
        Ordered(mem, ring, t, i);
      }
    }
  }

  // A block [q, q + n) inside the free block ring[t] is handed out; r and m are the list and headers left.
  lemma HandedOut(mem: Memory, ring: seq<int>, t: int, q: int, n: int, m: Memory, r: seq<int>, alloc: map<int, int>,
                  brk: int)
    requires Allocated(mem, alloc) && Disjoint(mem, ring, alloc) && Below(mem, ring, alloc, brk)
    requires Ring(mem, ring) && 0 < t < |ring| && ring[t] <= q && n >= 1 && q + n == End(mem, ring, t)
    requires forall x :: 0 <= x < |r| ==> Carved(mem, ring, t, q, r[x], End(m, r, x))
    requires q in m && m[q].size == n
    requires forall a :: a in mem && a !in ring && a != q ==> a in m && m[a] == mem[a]
    ensures q !in alloc && Allocated(m, alloc[q := n]) && Disjoint(m, r, alloc[q := n])
    ensures Below(m, r, alloc[q := n], brk)
    ensures Untouched(mem, m, alloc)
  {
    BesideAlloc(mem, ring, t, q, n, alloc);
    Ordered(mem, ring, 0, t);
    hide Ring, Carved, Disjoint, Below, Allocated, Untouched;
    forall x | 0 <= x < |r|
      ensures End(m, r, x) <= brk
      ensures q + n <= r[x] || End(m, r, x) <= q
      ensures forall a {:trigger alloc[a]} :: a in alloc ==> a + alloc[a] <= r[x] || End(m, r, x) <= a
    {
      CarvedApart(mem, ring, t, q, n, r[x], End(m, r, x), alloc, brk);
    }
    AddBlock(mem, ring, alloc, brk, m, r, q, n, t);
    HandedOutUntouched(mem, ring, q, n, m, alloc);
  }

  lemma BesideAlloc(mem: Memory, ring: seq<int>, t: int, q: int, n: int, alloc: map<int, int>)
    requires Allocated(mem, alloc) && Disjoint(mem, ring, alloc)
    requires 0 <= t < |ring| && ring[t] <= q && n >= 1 && q + n == End(mem, ring, t)
    ensures q !in alloc
    ensures forall a {:trigger alloc[a]} :: a in alloc ==> alloc[a] >= 1 && (a + alloc[a] <= q || q + n <= a)
  {
    forall a {:trigger alloc[a]} | a in alloc
      ensures a != q && alloc[a] >= 1 && (a + alloc[a] <= q || q + n <= a)
    {
      assert a + alloc[a] <= ring[t] || End(mem, ring, t) <= a;
      assert alloc[a] >= 1;
    }
  }

  lemma AddBlock(mem: Memory, ring: seq<int>, alloc: map<int, int>, brk: int, m: Memory, r: seq<int>, q: int, n: int,
                 t: int)
    requires Disjoint(mem, ring, alloc) && Below(mem, ring, alloc, brk) && 0 <= t < |ring| && q + n == End(mem, ring, t)
    requires n >= 1 && q !in alloc
    requires forall a {:trigger alloc[a]} :: a in alloc ==> alloc[a] >= 1 && (a + alloc[a] <= q || q + n <= a)
    requires forall x :: 0 <= x < |r| ==> End(m, r, x) <= brk && (q + n <= r[x] || End(m, r, x) <= q)
    requires forall x, a {:trigger alloc[a], End(m, r, x)} :: 0 <= x < |r| && a in alloc ==>
      a + alloc[a] <= r[x] || End(m, r, x) <= a
    ensures Disjoint(m, r, alloc[q := n]) && Below(m, r, alloc[q := n], brk)
  {
    var alloc' := alloc[q := n];
    assert forall a :: a in alloc' && a != q ==> a in alloc && alloc'[a] == alloc[a];
  }

  lemma CarvedApart(mem: Memory, ring: seq<int>, t: int, q: int, n: int, lo: int, hi: int, alloc: map<int, int>,
                    brk: int)
    requires Disjoint(mem, ring, alloc) && Below(mem, ring, alloc, brk)
    requires Ring(mem, ring) && 0 < t < |ring| && ring[t] <= q && n >= 1 && q + n == End(mem, ring, t)
    requires Carved(mem, ring, t, q, lo, hi)
    ensures hi <= brk && (q + n <= lo || hi <= q)
    ensures forall a {:trigger alloc[a]} :: a in alloc ==> a + alloc[a] <= lo || hi <= a
  {
    var i :| 0 <= i < |ring| && ring[i] == lo && hi <= End(mem, ring, i) && (i == t ==> hi <= q);
    if i < t {
      Ordered(mem, ring, i, t);
    } else if t < i {
      Ordered(mem, ring, t, i);
    }
  }

  lemma HandedOutUntouched(mem: Memory, ring: seq<int>, q: int, n: int, m: Memory, alloc: map<int, int>)
    requires Allocated(mem, alloc) && Disjoint(mem, ring, alloc) && Ring(mem, ring)
    requires forall a {:trigger alloc[a]} :: a in alloc ==> a + alloc[a] <= q || q + n <= a
    requires n >= 1 && BASE < q && q in m && m[q].size == n
    requires forall a :: a in mem && a !in ring && a != q ==> a in m && m[a] == mem[a]
    ensures Allocated(m, alloc[q := n]) && Untouched(mem, m, alloc)
  {
    forall a, u | a in alloc && InBlock(a, alloc[a], u)
      ensures u !in ring && u != q
    {
      assert alloc[a] >= 1;
      forall i | 0 <= i < |ring|
        ensures ring[i] != u
      {
        assert a + alloc[a] <= ring[i] || End(mem, ring, i) <= a;
        assert ring[i] == BASE || ring[i] < End(mem, ring, i);
      }
    }
    forall a | a in alloc
      ensures a in m && m[a].size == alloc[a] && BASE < a && alloc[a] >= 1
    {
      assert alloc[a] >= 1 && InBlock(a, alloc[a], a);
    }
  }

  class Heap {
    var mem: Memory
    var freep: int
    ghost var ring: seq<int>             // the free list from base, in ring order
    ghost var alloc: map<int, int>       // header address and size of every allocated block
    ghost var brk: int                   // everything obtained so far lies below

    ghost predicate Valid()
      reads this
    {
      if freep == NULL then alloc == map[] && BASE < brk
      else
        && Ring(mem, ring) && freep in ring
        && Allocated(mem, alloc) && Disjoint(mem, ring, alloc) && Below(mem, ring, alloc, brk)
    }

    ghost predicate IsFree(u: int)
      reads this
    {
      freep != NULL && InFree(mem, ring, u)
    }

    // The search of free: p ends at the free block below bp. Every turn comes one block closer to it.
    method FindPlace(bp: int, ghost j: int) returns (p: int)
      requires Ring(mem, ring) && freep in ring && Place(ring, j, bp) && BASE < bp
      ensures 0 <= j < |ring| && p == ring[j] >= BASE
    {
      hide Ring, Place;
      p := freep;
      ghost var i :| 0 <= i < |ring| && ring[i] == p;
      SearchTest(mem, ring, i, j, bp);
      while !(bp > p && bp < mem[p].ptr)
        invariant 0 <= i < |ring| && 0 <= j < |ring| && ring[i] == p && p in mem && mem[p].ptr == Next(ring, i)
        invariant p >= BASE
        invariant (bp > p && bp < Next(ring, i)) || (p >= Next(ring, i) && (bp > p || bp < Next(ring, i))) <==> i == j
        decreases if i <= j then j - i else j - i + |ring|
      {
        if p >= mem[p].ptr && (bp > p || bp < mem[p].ptr) {
          return;
        }
        p := mem[p].ptr;
        i := if i + 1 < |ring| then i + 1 else 0;
        SearchTest(mem, ring, i, j, bp);
      }
    }

    method Relink(p: int, bp: int)
      requires p in mem && bp in mem && mem[p].ptr in mem
      modifies this`mem
      ensures mem == Relinked(old(mem), p, bp)
    {
      var next := mem[p].ptr;
      if bp + mem[bp].size == next {
        mem := mem[bp := Header(mem[next].ptr, mem[bp].size + mem[next].size)];
      } else {
        mem := mem[bp := Header(next, mem[bp].size)];
      }
      if p + mem[p].size == bp {
        mem := mem[p := Header(mem[bp].ptr, mem[p].size + mem[bp].size)];
      } else {
        mem := mem[p := Header(bp, mem[p].size)];
      }
    }

    // Give the block at ap back: its units become free, merged with free neighbours; nothing else changes.
    method Free(ap: int)
      requires Valid() && ap - 1 in alloc
      modifies this
      ensures Valid() && freep != NULL && brk == old(brk)
      ensures alloc == old(alloc) - {ap - 1}
      ensures forall u :: IsFree(u) <==> old(IsFree(u)) || InBlock(ap - 1, old(alloc)[ap - 1], u)
      ensures Untouched(old(mem), mem, alloc)
      // The next search starts at the free block right below.
      ensures old(freep) != NULL ==>
        freep in old(ring) && freep < ap - 1 && forall x :: x in old(ring) && x < ap - 1 ==> x <= freep
    {
      var bp := ap - 1;
      FreedIsClear(mem, ring, alloc, bp);
      ghost var j := PlaceExists(mem, ring, bp, alloc[bp], |ring|);
      PlaceIsLast(mem, ring, j, bp);
      var p := FindPlace(bp, j);
      ClearFits(mem, ring, j, bp);
      RelinkedHeaders(mem, ring, j, bp);
      LinkedRing(mem, ring, j, bp);
      LinkedOthers(mem, ring, j, bp, Relinked(mem, p, bp), Linked(mem, ring, j, bp), alloc, brk);
      LinkedUntouched(mem, ring, j, bp, Relinked(mem, p, bp), alloc);
      hide Ring, Linkable, Linked, Disjoint, Below, Allocated, Untouched, InFree, Place, Clear;
      Relink(p, bp);
      freep := p;
      ring := Linked(old(mem), ring, j, bp);
      alloc := alloc - {bp};
    }

    // Ask the system for more. grant is what sbrk answers: the start of the new memory, above everything obtained
    // before, or -1. granted is false when the number of bytes does not fit sbrk's int argument, so that sbrk answers
    // as for a success without giving any memory (SbrkArgument); the code goes on, and the model ends there.
    method Morecore(nu: int, grant: int) returns (p: int, granted: bool)
      requires Valid() && freep != NULL && nu >= 1 && (grant == -1 || brk <= grant)
      modifies this
      ensures granted <==> grant == -1 || Fitting(nu)
      ensures grant == -1 ==> p == NULL && unchanged(this)
      ensures grant != -1 && granted ==>
        && Valid() && p == freep != NULL && brk == grant + Max(nu, 4096) && alloc == old(alloc)
        && (forall u :: IsFree(u) <==> old(IsFree(u)) || InBlock(grant, Max(nu, 4096), u))
        && Untouched(old(mem), mem, alloc)
    {
      hide Ring, Allocated, Disjoint, Below, Untouched, InFree;
      var n := nu;
      if n < MORE {
        n := MORE;
      }
      if grant == -1 {
        return NULL, true;
      }
      granted := n * UNIT < 0x8000_0000;
      if !granted {
        return NULL, false;
      }
      var hp := grant;
      NewMemory(mem, ring, alloc, brk, hp, n);
      TakenOut(alloc, hp, n);
      mem := mem[hp := Header(if hp in mem then mem[hp].ptr else NULL, n)];
      alloc := alloc[hp := n];
      brk := hp + n;
      ghost var m := mem;
      Free(hp + 1);
      UntouchedTwice(old(mem), m, mem, alloc);
      p := freep;
    }

    // The two ways of taking n units from the block p = ring[t]: the whole block, or its last units.
    method Take(prevp: int, p: int, n: int, ghost t: int) returns (q: int)
      requires Valid() && freep != NULL && 0 < t < |ring| && prevp == ring[t - 1] && p == ring[t] && n >= 1
      requires prevp in mem && p in mem && mem[p].size >= n
      modifies this
      ensures Valid() && freep != NULL && brk == old(brk) && q >= BASE
      ensures q !in old(alloc) && alloc == old(alloc)[q := n]
      ensures forall u :: old(IsFree(u)) <==> IsFree(u) || InBlock(q, n, u)
      ensures forall u :: !(IsFree(u) && InBlock(q, n, u))
      ensures Untouched(old(mem), mem, old(alloc))
      ensures freep == prevp && q == p + old(mem)[p].size - n
    {
      hide Ring, Allocated, Disjoint, Below, Untouched, InFree, Carved, Without;
      BlockEnd(mem, ring, t);
      RingNext(mem, ring, t);
      RingNext(mem, ring, t - 1);
      BlockIsFree(mem, ring, t);
      q := p;
      if mem[p].size == n {
        UnlinkedRing(mem, ring, t);
        HandedOut(mem, ring, t, p, n, Unlinked(mem, ring, t), Without(ring, t), alloc, brk);
        PrevStays(ring, t);
        mem := mem[prevp := mem[prevp].(ptr := mem[p].ptr)];
        ring := Without(ring, t);
      } else {
        CutRing(mem, ring, t, n);
        HandedOut(mem, ring, t, p + mem[p].size - n, n, Cut(mem, p, n), ring, alloc, brk);
        mem := mem[p := mem[p].(size := mem[p].size - n)];
        q := p + mem[p].size;
        mem := mem[q := Header(if q in mem then mem[q].ptr else NULL, n)];
      }
      freep := prevp;
      alloc := alloc[q := n];
    }

    lemma GrantIsRoom(a: int, n: int, size: int)
      requires Valid() && freep != NULL && 1 <= n <= size && forall u :: InBlock(a, size, u) ==> IsFree(u)
      ensures HasEnough(mem, ring, n)
    {
      hide HasEnough, Ring;
      GrantedRoom(mem, ring, a, n, size);
    }

    // The first call sets up base.
    method Start(ghost n: int)
      requires Valid() && n >= 1
      modifies this
      ensures Valid() && freep != NULL && alloc == old(alloc) && brk == old(brk)
      ensures forall u :: IsFree(u) <==> old(IsFree(u))
      ensures old(freep) != NULL ==> mem == old(mem) && ring == old(ring) && freep == old(freep)
      ensures old(freep) == NULL ==> !HasEnough(mem, ring, n)
      ensures Untouched(old(mem), mem, old(alloc))
    {
      hide Ring, Allocated, Disjoint, Below, Untouched, InFree, HasEnough;
      UntouchedStart(mem, mem, alloc);
      if freep == NULL {
        EmptyHeap(mem, brk);
        mem := mem[BASE := Header(BASE, 0)];
        freep := BASE;
        ring := [BASE];
        EmptyHasNoRoom(mem, ring, n);
        UntouchedStart(old(mem), mem, old(alloc));
      }
    }

    // A block of the units nbytes calls for; or NULL, exactly when no so many units in a row were free and sbrk
    // refused. sbrk is called at most once, and only when there was no room. granted is as in Morecore.
    method Malloc(nbytes: int, grant: int) returns (ap: int, granted: bool, ghost at: int)
      requires Valid() && 0 <= nbytes < U32 && (grant == -1 || brk <= grant)
      modifies this
      ensures granted <==> old(freep != NULL && Room(mem, ring, Units(nbytes))) || grant == -1 || Fitting(Units(nbytes))
      ensures granted ==> Valid()
      ensures granted ==> (ap == NULL <==> grant == -1 && !old(freep != NULL && Room(mem, ring, Units(nbytes))))
      ensures granted && ap == NULL ==> alloc == old(alloc) && brk == old(brk) && forall u :: IsFree(u) <==>
        old(IsFree(u))
      ensures var n, grew := Units(nbytes), !old(freep != NULL && Room(mem, ring, Units(nbytes)));
        granted && ap != NULL ==>
          && ap - 1 !in old(alloc) && alloc == old(alloc)[ap - 1 := n]
          && brk == (if grew then grant + Max(n, MORE) else old(brk))
          && (forall u :: IsFree(u) || InBlock(ap - 1, n, u) <==>
               old(IsFree(u)) || (grew && InBlock(grant, Max(n, MORE), u)))
          && (forall u :: !(IsFree(u) && InBlock(ap - 1, n, u)))
      ensures granted ==> Untouched(old(mem), mem, old(alloc))
      // With room, the first block from freep on that is large enough gives its last units, and the next search starts
      // at the one before it.
      ensures old(freep != NULL && Room(mem, ring, Units(nbytes))) ==>
        && NextFit(old(mem), old(ring), old(freep), Units(nbytes), at)
        && freep == old(ring)[at] && ap - 1 == End(old(mem), old(ring), After(old(ring), at)) - Units(nbytes)
    {
      hide Ring, Allocated, Disjoint, Below, Untouched, InFree, Room, RunFree, HasEnough, NoneEnough, Fitting, Next;
      hide NextFit, End, IsFree;
      var nunits := Units(nbytes);
      Start(nunits);
      var prevp := freep;
      granted := true;
      RoomIsEnough(mem, ring, nunits);
      ghost var room := HasEnough(mem, ring, nunits);
      ghost var grew := false;
      ghost var mem0, ring0 := mem, ring;
      ghost var f :| 0 <= f < |ring| && ring[f] == freep;
      ghost var i := f;
      RingNext(mem, ring, i);
      SearchStarts(mem, ring, nunits, f);
      var p := mem[prevp].ptr;
      while true
        invariant Valid() && freep != NULL && granted && 0 <= f < |ring| && ring[f] == freep
        invariant 0 <= i < |ring| && ring[i] == prevp && p == Next(ring, i) && prevp in mem && p in mem
        invariant NoneEnough(mem, ring, nunits, f, i)
        invariant !grew ==> room == HasEnough(mem, ring, nunits) && mem == mem0 && ring == ring0
        invariant !grew && old(freep) != NULL ==> freep == old(freep)
        invariant grew ==> !room && grant != -1 && HasEnough(mem, ring, nunits) && Fitting(nunits)
        invariant alloc == old(alloc) && brk == (if grew then grant + Max(nunits, MORE) else old(brk))
        invariant forall u :: IsFree(u) <==> old(IsFree(u)) || (grew && InBlock(grant, Max(nunits, MORE), u))
        invariant Untouched(old(mem), mem, old(alloc))
        decreases !grew, if i < f then f - i else f - i + |ring|
      {
        ghost var k := After(ring, i);
        BlockEnd(mem, ring, k);
        if mem[p].size >= nunits {
          LargeEnough(mem, ring, nunits, k);
          FirstLarge(mem, ring, freep, nunits, f, i);
          ghost var m := mem;
          var q := Take(prevp, p, nunits, k);
          UntouchedTwice(old(mem), m, mem, old(alloc));
          return q + 1, true, i;
        }
        SearchGoesOn(mem, ring, nunits, f, i);
        if p == freep {
          RingDistinct(mem, ring, k, f);
          ghost var m := mem;
          p, granted := Morecore(nunits, grant);
          if p == NULL || !granted {
            return NULL, granted, i;
          }
          UntouchedTwice(old(mem), m, mem, old(alloc));
          grew := true;
          f :| 0 <= f < |ring| && ring[f] == freep;
          k := f;
          GrantIsRoom(grant, nunits, Max(nunits, MORE));
          SearchStarts(mem, ring, nunits, f);
        } else {
          StillAhead(ring, f, i);
        }
        prevp := p;
        i := k;
        RingNext(mem, ring, i);
        p := mem[p].ptr;
      }
    }
  }

  // Index x has been passed on the way around from f to i.
  predicate Passed(f: int, i: int, x: int) {
    if f <= i then f < x <= i else x > f || x <= i
  }

  // No block passed on the way is large enough.
  ghost predicate NoneEnough(mem: Memory, ring: seq<int>, n: int, f: int, i: int) {
    forall x :: 0 <= x < |ring| && Passed(f, i, x) ==> !Enough(mem, ring, n, x)
  }

  lemma SearchStarts(mem: Memory, ring: seq<int>, n: int, f: int)
    ensures NoneEnough(mem, ring, n, f, f)
  {
  }

  // The next block is not large enough either: back at the start, none is.
  lemma SearchGoesOn(mem: Memory, ring: seq<int>, n: int, f: int, i: int)
    requires 0 <= f < |ring| && 0 <= i < |ring| && NoneEnough(mem, ring, n, f, i)
    requires !Enough(mem, ring, n, After(ring, i))
    ensures if After(ring, i) == f then !HasEnough(mem, ring, n) else NoneEnough(mem, ring, n, f, After(ring, i))
  {
  }

  function After(ring: seq<int>, i: int): (k: int)
    requires 0 <= i < |ring|
    ensures 0 <= k < |ring| && ring[k] == Next(ring, i)
  {
    if i + 1 < |ring| then i + 1 else 0
  }

  // Going around from the block at freep, block i is the last one passed before one with n units.
  ghost predicate NextFit(mem: Memory, ring: seq<int>, freep: int, n: int, i: int) {
    && 0 <= i < |ring| && End(mem, ring, After(ring, i)) - ring[After(ring, i)] >= n
    && exists f :: 0 <= f < |ring| && ring[f] == freep
         && forall x :: 0 <= x < |ring| && (if f <= i then f < x <= i else x > f || x <= i) ==>
              End(mem, ring, x) - ring[x] < n
  }

  lemma FirstLarge(mem: Memory, ring: seq<int>, freep: int, n: int, f: int, i: int)
    requires 0 <= f < |ring| && 0 <= i < |ring| && ring[f] == freep && NoneEnough(mem, ring, n, f, i)
    requires Enough(mem, ring, n, After(ring, i))
    ensures NextFit(mem, ring, freep, n, i)
  {
    forall x | 0 <= x < |ring| && (if f <= i then f < x <= i else x > f || x <= i)
      ensures End(mem, ring, x) - ring[x] < n
    {
      assert Passed(f, i, x) && !Enough(mem, ring, n, x);
    }
  }

  lemma StillAhead(ring: seq<int>, f: int, i: int)
    requires 0 <= f < |ring| && 0 <= i < |ring| && After(ring, i) != f
    ensures var k := After(ring, i);
      0 <= (if k < f then f - k else f - k + |ring|) < if i < f then f - i else f - i + |ring|
  {
  }

  lemma EmptyHasNoRoom(mem: Memory, ring: seq<int>, n: int)
    requires n >= 1
    ensures ring == [BASE] && BASE in mem && mem[BASE].size == 0 ==> !HasEnough(mem, ring, n)
  {
  }

  lemma LargeEnough(mem: Memory, ring: seq<int>, n: int, i: int)
    requires 0 <= i < |ring| && Enough(mem, ring, n, i)
    ensures HasEnough(mem, ring, n)
  {
  }

  lemma BlockEnd(mem: Memory, ring: seq<int>, t: int)
    requires Ring(mem, ring) && 0 <= t < |ring|
    ensures ring[t] in mem && End(mem, ring, t) == ring[t] + mem[ring[t]].size && (mem[ring[t]].size >= 1 ==> t > 0)
  {
  }

  lemma BlockIsFree(mem: Memory, ring: seq<int>, t: int)
    requires 0 <= t < |ring|
    ensures forall u :: ring[t] <= u < End(mem, ring, t) ==> InFree(mem, ring, u)
  {
    forall u | ring[t] <= u < End(mem, ring, t)
      ensures InFree(mem, ring, u)
    {
    }
  }

  lemma PrevStays(ring: seq<int>, t: int)
    requires 0 < t < |ring|
    ensures ring[t - 1] in Without(ring, t)
  {
    assert Without(ring, t)[t - 1] == ring[t - 1];
  }

  lemma RingNext(mem: Memory, ring: seq<int>, i: int)
    requires Ring(mem, ring) && 0 <= i < |ring|
    ensures ring[i] in mem && mem[ring[i]].ptr == Next(ring, i) && Next(ring, i) in mem && ring[i] >= BASE
  {
    RingAt(mem, ring, i);
    RingAt(mem, ring, if i + 1 < |ring| then i + 1 else 0);
    if i > 0 {
      Ordered(mem, ring, 0, i);
    }
  }

  lemma RingDistinct(mem: Memory, ring: seq<int>, i: int, j: int)
    requires Ring(mem, ring) && 0 <= i < |ring| && 0 <= j < |ring| && ring[i] == ring[j]
    ensures i == j
  {
    AllOrdered(mem, ring);
  }

  lemma GrantedRoom(mem: Memory, ring: seq<int>, a: int, n: int, size: int)
    requires Ring(mem, ring) && 1 <= n <= size && forall u :: InBlock(a, size, u) ==> InFree(mem, ring, u)
    ensures HasEnough(mem, ring, n)
  {
    assert forall u :: a <= u < a + n ==> InBlock(a, size, u);
    assert RunFree(mem, ring, a, n);
    RoomIsEnough(mem, ring, n);
  }

  // Before the first call: base alone.
  lemma EmptyHeap(mem: Memory, brk: int)
    requires BASE < brk
    ensures var m := mem[BASE := Header(BASE, 0)];
      && Ring(m, [BASE]) && Allocated(m, map[]) && Disjoint(m, [BASE], map[]) && Below(m, [BASE], map[], brk)
      && (forall u :: !InFree(m, [BASE], u))
  {
    var m := mem[BASE := Header(BASE, 0)];
    assert End(m, [BASE], 0) == BASE;
  }

  lemma UntouchedStart(mem: Memory, m: Memory, alloc: map<int, int>)
    requires m == mem || alloc == map[]
    ensures Untouched(mem, m, alloc)
  {
  }

  // Memory above the break, with a header written at its start, is like an allocated block.
  lemma NewMemory(mem: Memory, ring: seq<int>, alloc: map<int, int>, brk: int, hp: int, n: int)
    requires Ring(mem, ring) && Allocated(mem, alloc) && Disjoint(mem, ring, alloc) && Below(mem, ring, alloc, brk)
    requires brk <= hp && n >= 1
    ensures hp !in alloc
    ensures var m, alloc' := mem[hp := Header(if hp in mem then mem[hp].ptr else NULL, n)], alloc[hp := n];
      && Ring(m, ring) && Allocated(m, alloc') && Disjoint(m, ring, alloc') && Below(m, ring, alloc', hp + n)
      && (forall u :: InFree(m, ring, u) <==> InFree(mem, ring, u)) && Untouched(mem, m, alloc)
  {
    var m, alloc' := mem[hp := Header(if hp in mem then mem[hp].ptr else NULL, n)], alloc[hp := n];
    forall x | 0 <= x < |ring|
      ensures ring[x] != hp && End(m, ring, x) == End(mem, ring, x) <= brk
    {
    }
    forall a {:trigger alloc[a]} | a in alloc
      ensures a != hp && a + alloc[a] <= hp && alloc[a] >= 1
    {
    }
    assert forall a :: a in alloc' && a != hp ==> a in alloc && alloc'[a] == alloc[a];
    NewMemoryRing(mem, ring, m);
  }

  lemma NewMemoryRing(mem: Memory, ring: seq<int>, m: Memory)
    requires Ring(mem, ring) && forall x :: 0 <= x < |ring| ==> ring[x] in m && m[ring[x]] == mem[ring[x]]
    ensures Ring(m, ring) && forall u :: InFree(m, ring, u) <==> InFree(mem, ring, u)
  {
    assert forall x :: 0 <= x < |ring| ==> End(m, ring, x) == End(mem, ring, x);
    forall i {:trigger Next(ring, i)} | 0 <= i < |ring|
      ensures m[ring[i]].ptr == Next(ring, i)
    {
      RingAt(mem, ring, i);
    }
  }

  lemma TakenOut(alloc: map<int, int>, a: int, n: int)
    requires a !in alloc
    ensures alloc[a := n] - {a} == alloc
  {
  }

  lemma UntouchedTwice(mem: Memory, m: Memory, m': Memory, alloc: map<int, int>)
    requires Untouched(mem, m, alloc) && Untouched(m, m', alloc)
    ensures Untouched(mem, m', alloc)
  {
  }

  lemma PlaceIsLast(mem: Memory, ring: seq<int>, j: int, bp: int)
    requires Ring(mem, ring) && Place(ring, j, bp)
    ensures ring[j] < bp && forall x :: x in ring && x < bp ==> x <= ring[j]
  {
    forall i | 0 <= i < |ring|
      ensures ring[i] <= ring[j] || bp < ring[i]
    {
      if i < j {
        Ordered(mem, ring, i, j);
      } else if j + 1 < i {
        Ordered(mem, ring, j + 1, i);
      }
    }
  }

  // The two exit tests of free's search succeed at the block below bp and nowhere else.
  lemma SearchTest(mem: Memory, ring: seq<int>, i: int, j: int, bp: int)
    requires Ring(mem, ring) && 0 <= i < |ring| && Place(ring, j, bp) && BASE < bp
    ensures 0 <= j < |ring| && ring[i] in mem && mem[ring[i]].ptr == Next(ring, i) && ring[i] >= BASE
    ensures i == j <==>
      (bp > ring[i] && bp < Next(ring, i)) || (ring[i] >= Next(ring, i) && (bp > ring[i] || bp < Next(ring, i)))
  {
    AllOrdered(mem, ring);
    assert i + 1 < |ring| ==> ring[i] <= End(mem, ring, i) < ring[i + 1];
    assert j < i ==> j + 1 == i || ring[j + 1] <= End(mem, ring, j + 1) < ring[i];
    assert i < j ==> i + 1 == j || ring[i + 1] <= End(mem, ring, i + 1) < ring[j];
    assert 0 < i ==> ring[0] <= End(mem, ring, 0) < ring[i];
  }

  lemma FreedIsClear(mem: Memory, ring: seq<int>, alloc: map<int, int>, bp: int)
    requires Ring(mem, ring) && Allocated(mem, alloc) && Disjoint(mem, ring, alloc) && bp in alloc
    ensures bp in mem && mem[bp].size == alloc[bp] && Clear(mem, ring, bp, alloc[bp]) && bp !in ring
  {
    assert alloc[bp] >= 1;
    forall i | 0 <= i < |ring|
      ensures ring[i] != bp
    {
      assert bp + alloc[bp] <= ring[i] || End(mem, ring, i) <= bp;
    }
  }

  // ---- clients ----

  ghost predicate InSome(alloc: map<int, int>, u: int) {
    exists a :: a in alloc && InBlock(a, alloc[a], u)
  }

  // The units obtained from sbrk are exactly the free ones and the allocated ones.
  ghost predicate Accounted(h: Heap, got: iset<int>)
    reads h
  {
    forall u :: u in got <==> h.IsFree(u) || InSome(h.alloc, u)
  }

  method MallocAccounts(h: Heap, nbytes: int, grant: int, ghost got: iset<int>)
    returns (ap: int, granted: bool, ghost got': iset<int>)
    requires h.Valid() && 0 <= nbytes < U32 && Accounted(h, got) && (grant == -1 || h.brk <= grant)
    modifies h
    ensures granted <==>
      old(h.freep != NULL && Room(h.mem, h.ring, Units(nbytes))) || grant == -1 || Fitting(Units(nbytes))
    ensures granted ==> h.Valid() && Accounted(h, got')
    ensures got' == got || (grant != -1 && got' == got + iset u | InBlock(grant, Max(Units(nbytes), MORE), u))
    ensures granted && ap != NULL ==> ap - 1 in h.alloc && h.alloc[ap - 1] == Units(nbytes)
  {
    ghost var alloc, n, grew := h.alloc, Units(nbytes), !(h.freep != NULL && Room(h.mem, h.ring, Units(nbytes)));
    hide Room, InFree, Ring, Allocated, Disjoint, Below, Fitting;
    ghost var at;
    ap, granted, at := h.Malloc(nbytes, grant);
    got' := if grew && grant != -1 then got + iset u | InBlock(grant, Max(n, MORE), u) else got;
    if granted && ap != NULL {
      forall u
        ensures InSome(h.alloc, u) <==> InSome(alloc, u) || InBlock(ap - 1, n, u)
      {
        SomeAdded(alloc, ap - 1, n, u);
      }
    }
  }

  lemma SomeAdded(alloc: map<int, int>, a: int, n: int, u: int)
    requires a !in alloc
    ensures InSome(alloc[a := n], u) <==> InSome(alloc, u) || InBlock(a, n, u)
  {
    var alloc' := alloc[a := n];
    if b :| b in alloc && InBlock(b, alloc[b], u) {
      assert InBlock(b, alloc'[b], u);
    }
    if InBlock(a, n, u) {
      assert InBlock(a, alloc'[a], u);
    }
  }

  method FreeAccounts(h: Heap, ap: int, ghost got: iset<int>)
    requires h.Valid() && ap - 1 in h.alloc && Accounted(h, got)
    modifies h
    ensures h.Valid() && Accounted(h, got) && h.alloc == old(h.alloc) - {ap - 1}
  {
    ghost var alloc := h.alloc;
    hide Room, InFree, Ring, Allocated, Disjoint, Below;
    h.Free(ap);
    assert alloc == h.alloc[ap - 1 := alloc[ap - 1]];
    forall u
      ensures InSome(alloc, u) <==> InSome(h.alloc, u) || InBlock(ap - 1, alloc[ap - 1], u)
    {
      SomeAdded(h.alloc, ap - 1, alloc[ap - 1], u);
    }
  }

  // When there is room, allocating a block and freeing it at once leaves the very same list of free blocks.
  method MallocThenFree(h: Heap, nbytes: int)
    requires h.Valid() && h.freep != NULL && 0 <= nbytes < U32 && Room(h.mem, h.ring, Units(nbytes))
    modifies h
    ensures h.Valid() && h.alloc == old(h.alloc) && h.ring == old(h.ring)
    ensures forall i :: 0 <= i < |h.ring| ==>
      h.ring[i] in h.mem && h.ring[i] in old(h.mem)
      && h.mem[h.ring[i]] == old(h.mem)[h.ring[i]]
  {
    hide Room, InFree, Allocated, Disjoint, Below;
    var ap, granted, at := h.Malloc(nbytes, -1);
    h.Free(ap);
    assert h.alloc == old(h.alloc);
    assert forall u :: InFree(h.mem, h.ring, u) <==> h.IsFree(u);
    assert forall u :: old(InFree(h.mem, h.ring, u)) <==> old(h.IsFree(u));
    Canonical(old(h.mem), old(h.ring), h.mem, h.ring);
  }
}
