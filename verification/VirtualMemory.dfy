/** Physical page allocation and user address spaces: kalloc.c and vm.c. */
module VirtualMemory {
  import opened Paging

  // ---- the free list, threaded through the free frames themselves ----

  function Link(free: seq<int>, i: int): int {
    if 0 <= i < |free| then free[i] else 0
  }

  // Frames from lo up to PHYSTOP are kalloc's; the list holds the free ones, each once.
  ghost predicate Pool(mem: Mem, first: int, free: seq<int>, lo: int) {
    && 0 < lo
    && (forall f :: lo <= f < PHYSFRAMES ==> f in mem)
    && (forall i :: 0 <= i < |free| ==> lo <= free[i] < PHYSFRAMES && free[i] in mem)
    && (forall i, j :: 0 <= i < j < |free| ==> free[i] != free[j])
    && first == Link(free, 0)
    && forall i :: 0 <= i < |free| ==> mem[free[i]][0] == Link(free, i + 1)
  }

  function SetEntry(mem: Mem, t: int, j: int, w: int): Mem
    requires t in mem && 0 <= j < NENT
  {
    mem[t := mem[t][j := w]]
  }

  function Frames(free: seq<int>): set<int> {
    set f | f in free
  }

  // Free frames only were written from mem to mem'.
  ghost predicate Untouched(mem: Mem, mem': Mem, free: seq<int>) {
    mem'.Keys == mem.Keys && forall f :: f in mem && f !in free ==> mem'[f] == mem[f]
  }

  // A directory whose pages kalloc handed out.
  ghost predicate Tables(mem: Mem, free: seq<int>, lo: int, d: int) {
    && Directory(mem, d)
    && 0 < lo <= d < PHYSFRAMES && d !in free && UserTables(mem, d)
    && forall i {:trigger Table(mem, d, i)} :: 0 <= i < NENT && Table(mem, d, i) != 0 ==>
         lo <= Table(mem, d, i) < PHYSFRAMES && Table(mem, d, i) !in free
  }

  // The entries of a directory leave the permissions to those of the page tables.
  ghost predicate UserTables(mem: Mem, d: int)
    requires d in mem
  {
    forall i :: 0 <= i < 1024 && mem[d][i] % 2 == 1 ==> mem[d][i] % 8 == 7
  }

  // An address space: its first page table is there, its user pages are frames of their own, in use.
  ghost predicate Space(mem: Mem, free: seq<int>, lo: int, d: int) {
    && Tables(mem, free, lo, d) && Table(mem, d, 0) != 0
    && (forall v {:trigger UserPage(mem, free, lo, d, v)} :: 0 <= v < USERPAGES ==> UserPage(mem, free, lo, d, v))
    && UsersApart(mem, d)
  }

  ghost predicate UserPage(mem: Mem, free: seq<int>, lo: int, d: int, v: int) {
    var f := UserFrame(mem, d, v);
    if Present(Pte(mem, d, 0, v))
      then lo <= f < PHYSFRAMES && f !in free && !Tabular(mem, d, f) && Pte(mem, d, 0, v) % 8 == 7
      else Pte(mem, d, 0, v) == 0
  }

  ghost predicate UsersApart(mem: Mem, d: int) {
    forall u, v {:trigger UserFrame(mem, d, u), UserFrame(mem, d, v)} ::
      0 <= u < v < USERPAGES && UserFrame(mem, d, u) != 0 ==>
      UserFrame(mem, d, u) != UserFrame(mem, d, v)
  }

  ghost function TableSet(mem: Mem, d: int): set<int> {
    set i | 0 <= i < NENT && Table(mem, d, i) != 0
  }

  ghost function TableFrames(mem: Mem, d: int): set<int> {
    set i | 0 <= i < NENT && Table(mem, d, i) != 0 :: Table(mem, d, i)
  }

  ghost function UserFrames(mem: Mem, d: int): set<int> {
    set v | 0 <= v < USERPAGES && UserFrame(mem, d, v) != 0 :: UserFrame(mem, d, v)
  }

  // Everything that must go back when the address space does.
  ghost function Owned(mem: Mem, d: int): set<int> {
    {d} + TableFrames(mem, d) + UserFrames(mem, d)
  }

  // Pages a up to b are mapped to the frames from f on, and no other entry has changed.
  ghost predicate Mapped(mem: Mem, mem': Mem, d: int, a: int, b: int, f: int, perm: int) {
    forall i, j {:trigger Pte(mem', d, i, j)} :: 0 <= i < NENT && 0 <= j < NENT ==>
      Pte(mem', d, i, j) == if a <= NENT * i + j < b then Entry(f + (NENT * i + j - a), perm) else Pte(mem, d, i, j)
  }

  // Some free frames have become page tables for directory indices from x to y, and nothing else has been written
  // but d and its tables.
  ghost predicate Grown(mem: Mem, free: seq<int>, mem': Mem, free': seq<int>, d: int, x: int, y: int) {
    && mem'.Keys == mem.Keys
    && |free'| + |TableSet(mem', d)| == |free| + |TableSet(mem, d)|
    && Frames(free') + TableFrames(mem', d) == Frames(free) + TableFrames(mem, d)
    && (forall i {:trigger Table(mem', d, i)} :: 0 <= i < NENT ==>
          if Table(mem, d, i) != 0 then Table(mem', d, i) == Table(mem, d, i)
          else Table(mem', d, i) != 0 ==> x <= i <= y)
    && forall f :: f in mem && f != d && f !in TableFrames(mem, d) && f !in free ==> mem'[f] == mem[f]
  }

  ghost predicate Unmapped(mem: Mem, d: int, a: int, b: int) {
    forall i, j {:trigger Pte(mem, d, i, j)} :: 0 <= i < NENT && 0 <= j < NENT && a <= NENT * i + j < b ==>
      !Present(Pte(mem, d, i, j))
  }

  lemma SameSets(mem: Mem, mem': Mem, d: int)
    requires SameTables(mem, mem', d)
    ensures TableSet(mem', d) == TableSet(mem, d) && TableFrames(mem', d) == TableFrames(mem, d)
  {
    forall f | f in TableFrames(mem, d) ensures f in TableFrames(mem', d) {
      var i :| 0 <= i < NENT && Table(mem, d, i) != 0 && Table(mem, d, i) == f;
      assert Table(mem', d, i) == f;
    }
  }

  lemma TableAdded(mem: Mem, mem': Mem, d: int, i: int, t: int)
    requires 0 <= i < NENT && t != 0 && Table(mem, d, i) == 0
    requires forall j {:trigger Table(mem', d, j)} :: 0 <= j < NENT ==>
      Table(mem', d, j) == if j == i then t else Table(mem, d, j)
    ensures TableSet(mem', d) == TableSet(mem, d) + {i} && |TableSet(mem', d)| == |TableSet(mem, d)| + 1
    ensures TableFrames(mem', d) == TableFrames(mem, d) + {t}
  {
    hide Table;
    assert i !in TableSet(mem, d);
    assert TableSet(mem', d) == TableSet(mem, d) + {i};
    forall f ensures f in TableFrames(mem', d) <==> f in TableFrames(mem, d) + {t} {
      if f in TableFrames(mem, d) {
        var j :| 0 <= j < NENT && Table(mem, d, j) != 0 && Table(mem, d, j) == f;
        assert Table(mem', d, j) == f;
      }
      assert Table(mem', d, i) == t;
    }
  }

  lemma GrownNot(mem: Mem, free: seq<int>, d: int, x: int, y: int)
    ensures Grown(mem, free, mem, free, d, x, y)
  {
  }

  lemma GrownTwice(mem: Mem, free: seq<int>, mem1: Mem, free1: seq<int>, mem2: Mem, free2: seq<int>, d: int, x: int,
                   y: int, i: int)
    requires Grown(mem, free, mem1, free1, d, x, y) && Grown(mem1, free1, mem2, free2, d, i, i) && x <= i <= y
    ensures Grown(mem, free, mem2, free2, d, x, y)
  {
    hide Table;
    forall f | f in mem && f != d && f !in TableFrames(mem, d) && f !in free
      ensures mem2[f] == mem[f]
    {
      assert f !in Frames(free) + TableFrames(mem, d);
    }
  }

  // The first free frame becomes the page table for index i.
  ghost predicate Taken(mem: Mem, free: seq<int>, lo: int, d: int, i: int, mem': Mem) {
    && Tables(mem, free, lo, d) && 0 <= i < NENT && !Present(mem[d][i])
    && free != [] && 0 < free[0] && free[0] in mem && d != free[0]
    && mem' == mem[free[0] := ZeroPage()][d := mem[d][i := Entry(free[0], W + U)]]
  }

  lemma TakenTable(mem: Mem, free: seq<int>, lo: int, d: int, i: int, mem': Mem)
    requires Taken(mem, free, lo, d, i, mem')
    ensures Directory(mem', d) && SameEntries(mem, mem', d) && Table(mem, d, i) == 0
    ensures forall j {:trigger Table(mem', d, j)} :: 0 <= j < NENT ==>
      Table(mem', d, j) == if j == i then free[0] else Table(mem, d, j)
  {
    NotTabular(mem, free, lo, d, free[0]);
    NewTable(mem, d, i, free[0], mem');
  }

  lemma TakenPool(mem: Mem, first': int, free: seq<int>, lo: int, d: int, i: int, mem': Mem)
    requires Taken(mem, free, lo, d, i, mem') && Pool(mem, first', free[1..], lo) && lo <= free[0] < PHYSFRAMES
    requires free[0] !in free[1..]
    ensures Pool(mem', first', free[1..], lo) && Tables(mem', free[1..], lo, d)
  {
    hide Directory, Table, Entry, Present, Pool;
    TakenTable(mem, free, lo, d, i, mem');
    UserEntry(free[0]);
    InDirectory(mem, d);
    PoolKept(mem, mem', first', free[1..], lo);
  }

  lemma InDirectory(mem: Mem, d: int)
    requires Directory(mem, d)
    ensures d in mem
  {
  }

  lemma PoolKept(mem: Mem, mem': Mem, first: int, free: seq<int>, lo: int)
    requires Pool(mem, first, free, lo) && mem'.Keys == mem.Keys
    requires forall f :: f in free && f in mem ==> mem'[f] == mem[f]
    ensures Pool(mem', first, free, lo)
  {
  }

  lemma TakenGrown(mem: Mem, free: seq<int>, lo: int, d: int, i: int, mem': Mem)
    requires Taken(mem, free, lo, d, i, mem') && free[0] !in free[1..]
    ensures Grown(mem, free, mem', free[1..], d, i, i)
  {
    hide Table, Entry, Present, TableSet, TableFrames;
    TakenTable(mem, free, lo, d, i, mem');
    TableAdded(mem, mem', d, i, free[0]);
    assert Frames(free[1..]) == Frames(free) - {free[0]};
  }

  lemma NotTabular(mem: Mem, free: seq<int>, lo: int, d: int, f: int)
    requires Tables(mem, free, lo, d) && f in free && f != 0
    ensures !Tabular(mem, d, f)
  {
  }

  lemma TableInUse(mem: Mem, free: seq<int>, lo: int, d: int, i: int)
    requires Tables(mem, free, lo, d) && 0 <= i < NENT && Table(mem, d, i) != 0
    ensures Table(mem, d, i) in mem && Table(mem, d, i) !in free
  {
  }

  lemma EntryWritten(mem: Mem, first: int, free: seq<int>, lo: int, d: int, i: int, j: int, w: int, mem': Mem)
    requires Pool(mem, first, free, lo) && Tables(mem, free, lo, d) && 0 <= i < NENT && 0 <= j < NENT
    requires Table(mem, d, i) != 0
    requires var t := Table(mem, d, i); t in mem && mem' == mem[t := mem[t][j := w]]
    ensures Pool(mem', first, free, lo) && Tables(mem', free, lo, d) && Grown(mem, free, mem', free, d, i, i)
    ensures SameTables(mem, mem', d)
    ensures forall x, y {:trigger Pte(mem', d, x, y)} :: 0 <= x < NENT && 0 <= y < NENT ==>
      Pte(mem', d, x, y) == if x == i && y == j then w else Pte(mem, d, x, y)
  {
    NewEntry(mem, d, i, j, w, mem');
    SameSets(mem, mem', d);
    hide Directory, Table;
    assert Table(mem, d, i) in TableFrames(mem, d);
  }

  lemma MappedTwice(mem: Mem, mem1: Mem, mem2: Mem, d: int, a: int, p: int, f: int, perm: int)
    requires Mapped(mem, mem1, d, a, p, f, perm) && Mapped(mem1, mem2, d, p, p + 1, f + (p - a), perm) && a <= p
    ensures Mapped(mem, mem2, d, a, p + 1, f, perm)
  {
    hide Pte, Entry;
  }

  // ---- one user page more, one less ----

  // f is nobody's: not free, not a page of the address space.
  ghost predicate Loose(mem: Mem, free: seq<int>, lo: int, d: int, f: int) {
    && lo <= f < PHYSFRAMES && f in mem && f !in free && !Tabular(mem, d, f)
    && forall v {:trigger UserFrame(mem, d, v)} :: 0 <= v < USERPAGES ==> UserFrame(mem, d, v) != f
  }

  lemma NextIsLoose(mem: Mem, first: int, free: seq<int>, lo: int, d: int)
    requires Pool(mem, first, free, lo) && Space(mem, free, lo, d) && free != []
    ensures Loose(mem, free[1..], lo, d, free[0]) && Space(mem, free[1..], lo, d)
  {
    Head(mem, first, free, lo);
    FewerFree(mem, free, free[1..], lo, d);
    NotTabular(mem, free, lo, d, free[0]);
    hide Pool, Tables, Tabular, UsersApart, Pte, Table, Present;
    forall v | 0 <= v < USERPAGES ensures UserFrame(mem, d, v) != free[0] {
      assert UserPage(mem, free, lo, d, v);
    }
  }

  lemma FewerFree(mem: Mem, free: seq<int>, free': seq<int>, lo: int, d: int)
    requires Space(mem, free, lo, d) && forall f :: f in free' ==> f in free
    ensures Space(mem, free', lo, d)
  {
    hide Directory, Table, Tabular, UsersApart, Pte, Present, UserFrame;
    forall v | 0 <= v < USERPAGES ensures UserPage(mem, free', lo, d, v) {
      assert UserPage(mem, free, lo, d, v);
    }
  }

  lemma SameTabular(mem: Mem, mem': Mem, d: int)
    requires SameTables(mem, mem', d)
    ensures forall f {:trigger Tabular(mem', d, f)} :: Tabular(mem', d, f) <==> Tabular(mem, d, f)
  {
    hide Table;
    forall f ensures Tabular(mem', d, f) <==> Tabular(mem, d, f) {
      if i :| 0 <= i < NENT && Table(mem, d, i) == f {
        assert Table(mem', d, i) == f;
      }
    }
  }

  // Filling a loose frame changes nothing in the address space.
  lemma LooseFilled(mem: Mem, first: int, free: seq<int>, lo: int, d: int, f: int, p: Page, mem': Mem)
    requires Pool(mem, first, free, lo) && Space(mem, free, lo, d) && Loose(mem, free, lo, d, f) && mem' == mem[f := p]
    ensures Pool(mem', first, free, lo) && Space(mem', free, lo, d) && Loose(mem', free, lo, d, f)
    ensures SameTables(mem, mem', d) && SameEntries(mem, mem', d)
    ensures forall v {:trigger UserFrame(mem', d, v)} :: UserFrame(mem', d, v) == UserFrame(mem, d, v)
  {
    OtherPage(mem, d, f, p, mem');
    SameTabular(mem, mem', d);
    SameSpace(mem, free, lo, d, mem');
    hide Table, Pte, Directory, Present, Tabular, Space, Tables;
  }

  lemma SameSpace(mem: Mem, free: seq<int>, lo: int, d: int, mem': Mem)
    requires Space(mem, free, lo, d) && Directory(mem', d) && SameTables(mem, mem', d) && SameEntries(mem, mem', d)
    requires d in mem && d in mem' && mem'[d] == mem[d]
    ensures Space(mem', free, lo, d)
    ensures forall v {:trigger UserFrame(mem', d, v)} :: UserFrame(mem', d, v) == UserFrame(mem, d, v)
  {
    hide Table, Pte, Directory, Present, Tabular;
    SameTabular(mem, mem', d);
    forall v ensures UserFrame(mem', d, v) == UserFrame(mem, d, v) {
    }
    hide UserFrame;
    forall v | 0 <= v < USERPAGES ensures UserPage(mem', free, lo, d, v) {
      assert UserPage(mem, free, lo, d, v) && UserFrame(mem', d, v) == UserFrame(mem, d, v);
    }
    assert Table(mem', d, 0) == Table(mem, d, 0);
  }

  lemma UserEntry(f: int)
    ensures Entry(f, W + U) % 8 == 7
  {
  }

  // The bits of a user page: present, writable, for user mode.
  lemma UserBits(mem: Mem, free: seq<int>, lo: int, d: int)
    requires Space(mem, free, lo, d)
    ensures forall v {:trigger Pte(mem, d, 0, v)} :: 0 <= v < 0xA0 && Pte(mem, d, 0, v) % 2 == 1 ==>
      Pte(mem, d, 0, v) % 8 == 7
  {
    hide Table, Pte, Tables, UsersApart;
    forall v {:trigger Pte(mem, d, 0, v)} | 0 <= v < 0xA0 && Pte(mem, d, 0, v) % 2 == 1
      ensures Pte(mem, d, 0, v) % 8 == 7
    {
      assert UserPage(mem, free, lo, d, v);
    }
  }

  lemma GrownBits(mem: Mem, free: seq<int>, mem': Mem, free': seq<int>, d: int, oldsz: int, newsz: int)
    requires 0 <= oldsz <= newsz <= PGSIZE * USERPAGES
    requires Extended(mem, free, mem', free', d, Pages(oldsz), Pages(newsz))
    ensures forall v {:trigger Pte(mem', d, 0, v)} :: oldsz <= 4096 * v < newsz ==> Pte(mem', d, 0, v) % 8 == 7
  {
    hide Table, Pte, Entry, Pages;
    forall v {:trigger Pte(mem', d, 0, v)} | oldsz <= 4096 * v < newsz
      ensures Pte(mem', d, 0, v) % 8 == 7
    {
      PagesOf(oldsz, v);
      PagesOf(newsz, v);
      UserEntry(free[v - Pages(oldsz)]);
    }
  }

  lemma CopyBits(mem: Mem, d: int, mem': Mem, c: int, sz: int, data: int)
    requires 0 <= sz <= PGSIZE * USERPAGES && 0x100 < data < 0x1000
    requires Copied(mem, d, mem', c, Pages(sz)) && KernelKept(mem', c, Kmap(data))
    ensures forall i, j {:trigger Pte(mem', c, i, j)} :: 0 <= i < 1024 && 0 <= j < 1024 ==>
      var v, e := 1024 * i + j, Pte(mem', c, i, j);
      if v < 0xA0 then (4096 * v < sz ==> e % 8 == 7) && (sz <= 4096 * v ==> e == 0) else
      && e / 4 % 2 == 0
      && (e % 2 == 1 <==> v < 0x1000 || 0xFE000 <= v)
      && (e % 2 == 1 ==> e / 4096 == v)
      && (e / 2 % 2 == 1 <==> e % 2 == 1 && !(0x100 <= v < data))
  {
    hide Table, Pte, Entry, Pages, KernelPte;
    KernelEntries(data);
    forall i, j {:trigger Pte(mem', c, i, j)} | i == 0 && 0 <= j < 0xA0
      ensures (4096 * j < sz ==> Pte(mem', c, i, j) % 8 == 7) && (sz <= 4096 * j ==> Pte(mem', c, i, j) == 0)
    {
      PagesOf(sz, j);
      var g := UserFrame(mem', c, j);
      UserEntry(g);
    }
  }

  lemma UserMapped(mem: Mem, first: int, free: seq<int>, lo: int, d: int, v: int, f: int, mem': Mem)
    requires Pool(mem, first, free, lo) && Space(mem, free, lo, d) && Loose(mem, free, lo, d, f)
    requires 0 <= v < USERPAGES && Pte(mem, d, 0, v) == 0
    requires Table(mem, d, 0) in mem && mem' == SetEntry(mem, Table(mem, d, 0), v, Entry(f, W + U))
    ensures Space(mem', free, lo, d) && SameTables(mem, mem', d)
    ensures forall u {:trigger UserFrame(mem', d, u)} :: 0 <= u < USERPAGES ==>
      UserFrame(mem', d, u) == if u == v then f else UserFrame(mem, d, u)
    ensures forall i, j {:trigger Pte(mem', d, i, j)} :: 0 <= i < NENT && 0 <= j < NENT ==>
      Pte(mem', d, i, j) == if i == 0 && j == v then Entry(f, W + U) else Pte(mem, d, i, j)
  {
    hide Table, Pte, Directory, Entry, Present, FrameOf, Pool, Grown, Tabular;
    EntryWritten(mem, first, free, lo, d, 0, v, Entry(f, W + U), mem');
    EntryParts(f, W + U);
    UserEntry(f);
    SameTabular(mem, mem', d);
    forall u | 0 <= u < USERPAGES
      ensures UserPage(mem', free, lo, d, u) && UserFrame(mem', d, u) == if u == v then f else UserFrame(mem, d, u)
    {
      assert UserPage(mem, free, lo, d, u);
    }
    hide UserFrame;
    assert Table(mem', d, 0) == Table(mem, d, 0);
  }

  lemma FrameFacts(mem: Mem, free: seq<int>, lo: int, d: int, v: int)
    requires Space(mem, free, lo, d) && 0 <= v < USERPAGES
    ensures Present(Pte(mem, d, 0, v)) ==>
      0 < lo <= UserFrame(mem, d, v) < PHYSFRAMES && UserFrame(mem, d, v) !in free
      && !Tabular(mem, d, UserFrame(mem, d, v))
    ensures !Present(Pte(mem, d, 0, v)) ==> Pte(mem, d, 0, v) == 0 && UserFrame(mem, d, v) == 0
    ensures Table(mem, d, 0) in mem && Table(mem, d, 0) !in free && Tabular(mem, d, Table(mem, d, 0))
  {
    assert UserPage(mem, free, lo, d, v);
  }

  // User page v has gone back to the free list, and its entry is cleared.
  lemma UserFreed(mem: Mem, free: seq<int>, lo: int, d: int, v: int, mem1: Mem, first1: int, mem2: Mem)
    requires Space(mem, free, lo, d) && 0 <= v < USERPAGES && Present(Pte(mem, d, 0, v))
    requires var f := UserFrame(mem, d, v);
      f in mem && f in mem1 && mem1 == mem[f := mem1[f]] && Pool(mem1, first1, [f] + free, lo)
    requires Table(mem, d, 0) in mem1 && mem2 == SetEntry(mem1, Table(mem, d, 0), v, 0)
    ensures Pool(mem2, first1, [UserFrame(mem, d, v)] + free, lo) && Space(mem2, [UserFrame(mem, d, v)] + free, lo, d)
    ensures SameTables(mem, mem2, d)
    ensures forall u {:trigger UserFrame(mem2, d, u)} :: 0 <= u < USERPAGES ==>
      UserFrame(mem2, d, u) == if u == v then 0 else UserFrame(mem, d, u)
    ensures forall i, j {:trigger Pte(mem2, d, i, j)} :: 0 <= i < NENT && 0 <= j < NENT ==>
      Pte(mem2, d, i, j) == if i == 0 && j == v then 0 else Pte(mem, d, i, j)
  {
    var f := UserFrame(mem, d, v);
    var free' := [f] + free;
    FrameFacts(mem, free, lo, d, v);
    OtherPage(mem, d, f, mem1[f], mem1);
    SameSpace(mem, free, lo, d, mem1);
    TablesLess(mem1, free, free', lo, d, f);
    EntryWritten(mem1, first1, free', lo, d, 0, v, 0, mem2);
    SameTabular(mem1, mem2, d);
    SameTabular(mem, mem1, d);
    assert !Present(0);
    hide Table, Pte, Directory, Present, FrameOf, Pool, Grown, Tabular;
    forall u | 0 <= u < USERPAGES
      ensures UserPage(mem2, free', lo, d, u) && UserFrame(mem2, d, u) == if u == v then 0 else UserFrame(mem, d, u)
    {
      assert UserPage(mem, free, lo, d, u);
    }
    hide UserFrame;
    assert Table(mem2, d, 0) == Table(mem, d, 0);
  }

  lemma TablesLess(mem: Mem, free: seq<int>, free': seq<int>, lo: int, d: int, f: int)
    requires Tables(mem, free, lo, d) && free' == [f] + free && !Tabular(mem, d, f)
    ensures Tables(mem, free', lo, d)
  {
    hide Table, Directory;
  }

  const PGSIZE := 4096

  // Pages that sz bytes reach into: PGROUNDUP(sz) / PGSIZE.
  function Pages(sz: int): int {
    (sz + PGSIZE - 1) / PGSIZE
  }

  lemma PagesOf(sz: int, k: int)
    requires 0 <= sz
    ensures PGSIZE * k < sz <==> k < Pages(sz)
    ensures 0 <= Pages(sz) && (sz <= PGSIZE * USERPAGES ==> Pages(sz) <= USERPAGES)
  {
  }

  lemma PagesGrow(a: int, b: int)
    requires a <= b
    ensures Pages(a) <= Pages(b)
  {
  }

  // Page v has been mapped to frame f, filled with p, and nothing else is changed.
  ghost predicate Added(mem: Mem, mem': Mem, d: int, v: int, f: int, p: Page) {
    && mem'.Keys == mem.Keys && f in mem && mem'[f] == p && SameTables(mem, mem', d)
    && (forall i, j {:trigger Pte(mem', d, i, j)} :: 0 <= i < NENT && 0 <= j < NENT ==>
          Pte(mem', d, i, j) == if i == 0 && j == v then Entry(f, W + U) else Pte(mem, d, i, j))
    && (forall u {:trigger UserFrame(mem', d, u)} :: 0 <= u < USERPAGES ==>
         UserFrame(mem', d, u) == if u == v then f else UserFrame(mem, d, u))
    && forall x :: x in mem && x != f && x != Table(mem, d, 0) ==> mem'[x] == mem[x]
  }

  ghost function FramesBetween(mem: Mem, d: int, s: int, e: int): set<int> {
    set v | s <= v < e && UserFrame(mem, d, v) != 0 :: UserFrame(mem, d, v)
  }

  // User pages s up to e have been unmapped, their frames have gone back, and nothing else is changed.
  ghost predicate Shrunk(mem: Mem, free: seq<int>, mem': Mem, free': seq<int>, d: int, s: int, e: int) {
    && mem'.Keys == mem.Keys && SameTables(mem, mem', d)
    && (forall i, j {:trigger Pte(mem', d, i, j)} :: 0 <= i < NENT && 0 <= j < NENT ==>
          Pte(mem', d, i, j) == if i == 0 && s <= j < e then 0 else Pte(mem, d, i, j))
    && (forall u {:trigger UserFrame(mem', d, u)} :: 0 <= u < USERPAGES ==>
         UserFrame(mem', d, u) == if s <= u < e then 0 else UserFrame(mem, d, u))
    && Frames(free') == Frames(free) + FramesBetween(mem, d, s, e)
    && forall x :: x in mem && x != Table(mem, d, 0) && x !in FramesBetween(mem, d, s, e) ==> mem'[x] == mem[x]
  }

  lemma NotPresent()
    ensures !Present(0)
  {
  }

  lemma SpaceTables(mem: Mem, free: seq<int>, lo: int, d: int)
    requires Space(mem, free, lo, d)
    ensures Tables(mem, free, lo, d) && Table(mem, d, 0) != 0 && d in mem
  {
  }

  lemma AddedPage(mem: Mem, mem1: Mem, mem2: Mem, free: seq<int>, lo: int, d: int, v: int, f: int, p: Page)
    requires f in mem && mem1 == mem[f := p] && Table(mem, d, 0) in mem && Table(mem, d, 0) in mem1
    requires Table(mem, d, 0) != f
    requires SameTables(mem, mem1, d) && SameEntries(mem, mem1, d)
    requires forall u {:trigger UserFrame(mem1, d, u)} :: UserFrame(mem1, d, u) == UserFrame(mem, d, u)
    requires 0 <= v < USERPAGES && mem2 == SetEntry(mem1, Table(mem, d, 0), v, Entry(f, W + U))
    requires SameTables(mem1, mem2, d)
    requires forall i, j {:trigger Pte(mem2, d, i, j)} :: 0 <= i < NENT && 0 <= j < NENT ==>
      Pte(mem2, d, i, j) == if i == 0 && j == v then Entry(f, W + U) else Pte(mem1, d, i, j)
    requires forall u {:trigger UserFrame(mem2, d, u)} :: 0 <= u < USERPAGES ==>
      UserFrame(mem2, d, u) == if u == v then f else UserFrame(mem1, d, u)
    ensures Added(mem, mem2, d, v, f, p)
  {
    hide Table, Pte, Entry, UserFrame;
  }

  lemma PteAt(mem: Mem, free: seq<int>, lo: int, d: int, v: int)
    requires Space(mem, free, lo, d) && 0 <= v < USERPAGES
    ensures Table(mem, d, 0) in mem && mem[Table(mem, d, 0)][v] == Pte(mem, d, 0, v)
    ensures Present(Pte(mem, d, 0, v)) ==> UserFrame(mem, d, v) == FrameOf(Pte(mem, d, 0, v))
    ensures Present(Pte(mem, d, 0, v)) ==> Table(mem, d, 0) != UserFrame(mem, d, v)
  {
    FrameFacts(mem, free, lo, d, v);
  }

  lemma ShrunkNot(mem: Mem, free: seq<int>, d: int, s: int)
    ensures Shrunk(mem, free, mem, free, d, s, s)
  {
    assert FramesBetween(mem, d, s, s) == {};
  }

  lemma OneFrame(mem: Mem, d: int, k: int)
    ensures FramesBetween(mem, d, k, k + 1) == if UserFrame(mem, d, k) == 0 then {} else {UserFrame(mem, d, k)}
  {
    hide UserFrame;
    if UserFrame(mem, d, k) != 0 {
      assert UserFrame(mem, d, k) in FramesBetween(mem, d, k, k + 1);
    }
  }

  lemma ShrunkTwice(mem: Mem, free: seq<int>, mem1: Mem, free1: seq<int>, mem2: Mem, free2: seq<int>, d: int, s: int,
                    k: int)
    requires 0 <= s <= k < USERPAGES && Shrunk(mem, free, mem1, free1, d, s, k)
    requires Shrunk(mem1, free1, mem2, free2, d, k, k + 1)
    ensures Shrunk(mem, free, mem2, free2, d, s, k + 1)
  {
    hide Table, Pte, UserFrame;
    OneFrame(mem, d, k);
    OneFrame(mem1, d, k);
    assert UserFrame(mem1, d, k) == UserFrame(mem, d, k);
    assert Table(mem1, d, 0) == Table(mem, d, 0);
    forall f {:trigger f in FramesBetween(mem, d, s, k + 1)}
      ensures f in FramesBetween(mem, d, s, k + 1) <==>
        f in FramesBetween(mem, d, s, k) + FramesBetween(mem, d, k, k + 1)
    {
      if v :| s <= v < k + 1 && UserFrame(mem, d, v) != 0 && UserFrame(mem, d, v) == f {
      }
    }
  }

  lemma ShrunkSame(mem: Mem, free: seq<int>, d: int, k: int)
    requires 0 <= k < USERPAGES && UserFrame(mem, d, k) == 0 && Pte(mem, d, 0, k) == 0
    ensures Shrunk(mem, free, mem, free, d, k, k + 1)
  {
    hide Table, Pte, UserFrame, FramesBetween;
    OneFrame(mem, d, k);
  }

  lemma ShrunkOne(mem1: Mem, free1: seq<int>, mem2: Mem, free2: seq<int>, d: int, k: int)
    requires 0 <= k < USERPAGES
    requires var f := UserFrame(mem1, d, k);
      f != 0 && free2 == [f] + free1 && mem2.Keys == mem1.Keys
      && forall x :: x in mem1 && x != f && x != Table(mem1, d, 0) ==> mem2[x] == mem1[x]
    requires SameTables(mem1, mem2, d)
    requires forall u {:trigger UserFrame(mem2, d, u)} :: 0 <= u < USERPAGES ==>
      UserFrame(mem2, d, u) == if u == k then 0 else UserFrame(mem1, d, u)
    requires forall i, j {:trigger Pte(mem2, d, i, j)} :: 0 <= i < NENT && 0 <= j < NENT ==>
      Pte(mem2, d, i, j) == if i == 0 && j == k then 0 else Pte(mem1, d, i, j)
    ensures Shrunk(mem1, free1, mem2, free2, d, k, k + 1)
  {
    hide Table, Pte, UserFrame, FramesBetween;
    OneFrame(mem1, d, k);
    assert Frames(free2) == Frames(free1) + {UserFrame(mem1, d, k)};
  }

  // User pages s up to e have got the first free frames, in order, filled with zeros, and nothing else is changed.
  ghost predicate Extended(mem: Mem, free: seq<int>, mem': Mem, free': seq<int>, d: int, s: int, e: int) {
    && 0 <= e - s <= |free| && free' == free[e - s..]
    && mem'.Keys == mem.Keys && SameTables(mem, mem', d)
    && (forall i, j {:trigger Pte(mem', d, i, j)} :: 0 <= i < NENT && 0 <= j < NENT ==>
          Pte(mem', d, i, j) == if i == 0 && s <= j < e then Entry(free[j - s], W + U) else Pte(mem, d, i, j))
    && (forall u {:trigger UserFrame(mem', d, u)} :: 0 <= u < USERPAGES ==>
          UserFrame(mem', d, u) == if s <= u < e then free[u - s] else UserFrame(mem, d, u))
    && (forall k :: 0 <= k < e - s ==> free[k] in mem && mem'[free[k]] == ZeroPage())
    && forall x :: x in mem && x != Table(mem, d, 0) && x !in free[..e - s] ==> mem'[x] == mem[x]
  }

  // The same mapping and the same free frames as before; only frames that were free, and are, have been written, and
  // the page table.
  ghost predicate Restored(mem: Mem, free: seq<int>, mem': Mem, free': seq<int>, d: int) {
    && mem'.Keys == mem.Keys && SameTables(mem, mem', d) && SameEntries(mem, mem', d)
    && Frames(free') == Frames(free)
    && forall x :: x in mem && x != Table(mem, d, 0) && x !in free ==> mem'[x] == mem[x]
  }

  lemma ExtendedNot(mem: Mem, free: seq<int>, d: int, s: int)
    ensures Extended(mem, free, mem, free, d, s, s)
  {
  }

  lemma ExtendedAt(mem: Mem, free: seq<int>, mem': Mem, free': seq<int>, d: int, s: int, k: int)
    requires Extended(mem, free, mem', free', d, s, k)
    ensures k - s <= |free| && (free' == [] <==> k - s == |free|)
    ensures 0 <= k < USERPAGES && Pte(mem, d, 0, k) == 0 ==> Pte(mem', d, 0, k) == 0
  {
  }

  lemma ExtendedMore(mem: Mem, free: seq<int>, mem1: Mem, free1: seq<int>, mem2: Mem, free2: seq<int>, d: int, s: int,
                     k: int, f: int)
    requires Extended(mem, free, mem1, free1, d, s, k) && 0 <= k < USERPAGES
    requires free1 != [] && f == free1[0] && free2 == free1[1..] && Added(mem1, mem2, d, k, f, ZeroPage())
    requires Apart(free) && Table(mem, d, 0) !in free
    ensures Extended(mem, free, mem2, free2, d, s, k + 1)
  {
    hide Pte, UserFrame, Table;
    assert f == free[k - s];
    assert Table(mem1, d, 0) == Table(mem, d, 0);
    assert forall i :: 0 <= i < k - s ==> free[i] != f && free[i] != Table(mem, d, 0);
    assert free[..k + 1 - s] == free[..k - s] + [f];
  }

  ghost predicate Apart(free: seq<int>) {
    (forall i, j :: 0 <= i < j < |free| ==> free[i] != free[j]) && 0 !in free
  }

  lemma FreeApart(mem: Mem, first: int, free: seq<int>, lo: int, d: int)
    requires Pool(mem, first, free, lo) && Space(mem, free, lo, d)
    ensures Apart(free) && Table(mem, d, 0) !in free
  {
  }

  lemma Undone(mem: Mem, free: seq<int>, mem1: Mem, free1: seq<int>, mem2: Mem, free2: seq<int>, d: int, s: int, k: int,
               e: int)
    requires Extended(mem, free, mem1, free1, d, s, k) && free1 == [] && Shrunk(mem1, free1, mem2, free2, d, s, e)
    requires 0 <= s <= k <= e <= USERPAGES
    requires Apart(free) && forall v {:trigger Pte(mem, d, 0, v)} :: s <= v < e ==> Pte(mem, d, 0, v) == 0
    ensures Restored(mem, free, mem2, free2, d)
  {
    hide Pte, Table;
    assert Table(mem1, d, 0) == Table(mem, d, 0);
    assert free[..k - s] == free;
    NotPresent();
    assert forall v :: s <= v < e ==> UserFrame(mem, d, v) == 0 by {
      assert forall v :: s <= v < e ==> Pte(mem, d, 0, v) == 0;
    }
    hide UserFrame;
    assert FramesBetween(mem1, d, s, e) == Frames(free) by {
      forall f | f in Frames(free) ensures f in FramesBetween(mem1, d, s, e) {
        var i :| 0 <= i < |free| && free[i] == f;
        assert UserFrame(mem1, d, s + i) == f;
      }
    }
  }

  ghost function TablesUpTo(mem: Mem, d: int, i: int): set<int> {
    set j | 0 <= j < i && Table(mem, d, j) != 0 :: Table(mem, d, j)
  }

  lemma TablesUpToNone(mem: Mem, d: int)
    ensures TablesUpTo(mem, d, 0) == {}
  {
  }

  lemma TableAt(mem: Mem, free: seq<int>, lo: int, d: int, i: int)
    requires Tables(mem, free, lo, d) && 0 <= i < NENT
    ensures d in mem && d !in TablesUpTo(mem, d, i)
    ensures if Present(mem[d][i])
      then var t := FrameOf(mem[d][i]);
           lo <= t < PHYSFRAMES && t != d && t !in free && t !in TablesUpTo(mem, d, i)
             && TablesUpTo(mem, d, i + 1) == TablesUpTo(mem, d, i) + {t}
      else TablesUpTo(mem, d, i + 1) == TablesUpTo(mem, d, i)
  {
    var t := Table(mem, d, i);
    if Present(mem[d][i]) {
      assert t == FrameOf(mem[d][i]);
      forall j | 0 <= j < i && Table(mem, d, j) != 0 ensures Table(mem, d, j) != t {
      }
      hide Table;
      assert t in TablesUpTo(mem, d, i + 1);
    } else {
      assert t == 0;
    }
    hide Table;
    assert forall j :: 0 <= j < i ==> (Table(mem, d, j) != 0 ==> Table(mem, d, j) in TablesUpTo(mem, d, i + 1));
  }

  lemma DirectoryLast(mem: Mem, free: seq<int>, lo: int, d: int)
    requires Tables(mem, free, lo, d)
    ensures d !in free && d !in TablesUpTo(mem, d, NENT) && lo <= d < PHYSFRAMES
  {
  }

  lemma FreedAll(mem: Mem, free: seq<int>, mem1: Mem, free1: seq<int>, d: int)
    requires Shrunk(mem, free, mem1, free1, d, Pages(0), Pages(PGSIZE * USERPAGES)) && Table(mem, d, 0) != 0
    ensures mem1.Keys == mem.Keys && Frames(free1) + TablesUpTo(mem1, d, NENT) + {d} == Frames(free) + Owned(mem, d)
    ensures forall x :: x in mem && x !in Owned(mem, d) ==>
      x !in TablesUpTo(mem1, d, NENT) && x != d && mem1[x] == mem[x]
  {
    SameSets(mem, mem1, d);
    hide Table, UserFrame;
    assert Table(mem, d, 0) in TableFrames(mem, d);
    assert TablesUpTo(mem1, d, NENT) == TableFrames(mem1, d);
    assert FramesBetween(mem, d, Pages(0), Pages(PGSIZE * USERPAGES)) == UserFrames(mem, d);
  }

  // ---- the kernel's part of every address space ----

  datatype Region = Region(p: int, e: int, perm: int)

  function Kmap(data: int): seq<Region> {
    [Region(USERPAGES, 0x100, W), Region(0x100, data, 0), Region(data, PHYSFRAMES, W), Region(0xFE000, 0x10_0000, W)]
  }

  // The entry of page v once the first k regions are mapped, each to itself.
  function KernelPte(kmap: seq<Region>, k: int, v: int): int
    requires k <= |kmap|
  {
    if k <= 0 then 0
    else if kmap[k - 1].p <= v < kmap[k - 1].e then Entry(v, kmap[k - 1].perm)
    else KernelPte(kmap, k - 1, v)
  }

  lemma KernelEntry(data: int, v: int)
    requires 0x100 < data < 0x1000 && 0 <= v < 0x10_0000
    ensures KernelPte(Kmap(data), 4, v) ==
      if 0x100 <= v < data then 4096 * v + 1
      else if 0xA0 <= v < 0x1000 || 0xFE000 <= v < 0x10_0000 then 4096 * v + 3 else 0
  {
    assert KernelPte(Kmap(data), 0, v) == 0;
    var one, two, three := KernelPte(Kmap(data), 1, v), KernelPte(Kmap(data), 2, v), KernelPte(Kmap(data), 3, v);
  }

  lemma PermBits(v: nat, w: int)
    requires w == 1 || w == 3
    ensures var e := 4096 * v + w;
      e % 2 == 1 && e / 4 % 2 == 0 && e / 4096 == v && (e / 2 % 2 == 1 <==> w == 3)
  {
    assert (4096 * v + w) / 4 == 1024 * v && (4096 * v + w) / 2 == 2048 * v + w / 2;
  }

  lemma KernelEntries(data: int)
    requires 0x100 < data < 0x1000
    ensures forall v {:trigger KernelPte(Kmap(data), 4, v)} :: 0 <= v < 0x10_0000 ==>
      var e := KernelPte(Kmap(data), 4, v);
      && e / 4 % 2 == 0
      && (e % 2 == 1 <==> 0xA0 <= v < 0x1000 || 0xFE000 <= v < 0x10_0000)
      && (e % 2 == 1 ==> e / 4096 == v)
      && (e / 2 % 2 == 1 <==> e % 2 == 1 && !(0x100 <= v < data))
  {
    hide KernelPte;
    forall v {:trigger KernelPte(Kmap(data), 4, v)} | 0 <= v < 0x10_0000
      ensures var e := KernelPte(Kmap(data), 4, v);
        && e / 4 % 2 == 0
        && (e % 2 == 1 <==> 0xA0 <= v < 0x1000 || 0xFE000 <= v < 0x10_0000)
        && (e % 2 == 1 ==> e / 4096 == v)
        && (e / 2 % 2 == 1 <==> e % 2 == 1 && !(0x100 <= v < data))
    {
      KernelEntry(data, v);
      PermBits(v, 1);
      PermBits(v, 3);
    }
  }

  ghost predicate KernelMapped(mem: Mem, d: int, kmap: seq<Region>, k: int)
    requires k <= |kmap|
  {
    forall i, j {:trigger Pte(mem, d, i, j)} :: 0 <= i < NENT && 0 <= j < NENT ==>
      Pte(mem, d, i, j) == KernelPte(kmap, k, NENT * i + j)
  }

  predicate Covers(r: Region, i: int) {
    r.p / NENT <= i <= (r.e - 1) / NENT
  }

  predicate Covered(kmap: seq<Region>, k: int, i: int)
    requires k <= |kmap|
  {
    k > 0 && (Covers(kmap[k - 1], i) || Covered(kmap, k - 1, i))
  }

  ghost predicate TablesCovered(mem: Mem, d: int, kmap: seq<Region>, k: int)
    requires k <= |kmap|
  {
    forall i {:trigger Table(mem, d, i)} :: 0 <= i < NENT ==> (Table(mem, d, i) != 0 <==> Covered(kmap, k, i))
  }

  lemma WhatCovers(data: int, i: int)
    requires 0x100 < data < PHYSFRAMES && 0 <= i
    ensures |Kmap(data)| == 4
    ensures Covers(Kmap(data)[0], i) <==> i == 0
    ensures Covers(Kmap(data)[1], i) <==> 0 <= i <= (data - 1) / NENT
    ensures Covers(Kmap(data)[2], i) <==> data / NENT <= i <= 3
    ensures Covers(Kmap(data)[3], i) <==> 0x3F8 <= i < NENT
    ensures 0 <= (data - 1) / NENT <= data / NENT <= (data - 1) / NENT + 1 && data / NENT <= 3
  {
  }

  lemma CoveredAll(data: int, i: int)
    requires 0x100 < data < PHYSFRAMES && 0 <= i
    ensures Covered(Kmap(data), 4, i) <==> NeedsTable(i)
    ensures forall k :: 0 <= k <= 4 && Covered(Kmap(data), k, i) ==> NeedsTable(i)
    ensures forall k :: 0 <= k < 4 && Covers(Kmap(data)[k], i) ==> NeedsTable(i)
  {
    hide Covers, Kmap;
    WhatCovers(data, i);
    var kmap := Kmap(data);
    assert !Covered(kmap, 0, i);
    assert Covered(kmap, 1, i) <==> Covers(kmap[0], i);
    assert Covered(kmap, 2, i) <==> Covers(kmap[1], i) || Covered(kmap, 1, i);
    assert Covered(kmap, 3, i) <==> Covers(kmap[2], i) || Covered(kmap, 2, i);
    assert Covered(kmap, 4, i) <==> Covers(kmap[3], i) || Covered(kmap, 3, i);
  }

  // The kernel's part takes a directory and twelve page tables.
  const KVMTABLES := 12

  predicate NeedsTable(i: int) {
    0 <= i < 4 || 0x3F8 <= i < NENT
  }

  ghost function FullTables(): (r: set<int>)
    ensures forall i :: i in r <==> NeedsTable(i)
    ensures |r| == KVMTABLES
  {
    assert Interval(0, 4) * Interval(0x3F8, NENT) == {};
    Interval(0, 4) + Interval(0x3F8, NENT)
  }

  lemma AllTables(mem: Mem, d: int)
    requires forall i {:trigger Table(mem, d, i)} :: 0 <= i < NENT ==> (Table(mem, d, i) != 0 <==> NeedsTable(i))
    ensures |TableSet(mem, d)| == KVMTABLES
  {
    hide Table;
    assert TableSet(mem, d) == FullTables();
  }

  lemma TooFewTables(mem: Mem, d: int, i: int)
    requires forall j {:trigger Table(mem, d, j)} :: 0 <= j < NENT && Table(mem, d, j) != 0 ==> NeedsTable(j)
    requires NeedsTable(i) && Table(mem, d, i) == 0
    ensures |TableSet(mem, d)| < KVMTABLES
  {
    hide Table;
    SubsetSize(TableSet(mem, d), FullTables() - {i});
  }

  function Interval(a: int, b: int): (r: set<int>)
    ensures forall i :: i in r <==> a <= i < b
    ensures |r| == if a <= b then b - a else 0
    decreases b - a
  {
    if a < b then Interval(a, b - 1) + {b - 1} else {}
  }

  lemma IntervalNone(a: int)
    ensures Interval(a, a) == {}
  {
  }

  lemma IntervalNext(a: int, b: int)
    requires a <= b
    ensures Interval(a, b + 1) == Interval(a, b) + {b}
  {
  }

  lemma FrameOrNot(free: seq<int>, f: int)
    ensures f in Frames(free) <==> f in free
  {
  }

  lemma {:induction false} SubsetSize<T>(a: set<T>, b: set<T>)
    requires a <= b
    ensures |a| <= |b|
  {
    if a != {} {
      var x :| x in a;
      SubsetSize(a - {x}, b - {x});
    }
  }

  lemma RegionsApart(data: int, k: int, v: int)
    requires 0x100 < data < PHYSFRAMES && 0 <= k < 4 && Kmap(data)[k].p <= v < Kmap(data)[k].e
    ensures KernelPte(Kmap(data), k, v) == 0
  {
    var kmap := Kmap(data);
    assert KernelPte(kmap, 0, v) == 0;
    assert k > 0 ==> KernelPte(kmap, 1, v) == 0;
    assert k > 1 ==> KernelPte(kmap, 2, v) == 0;
  }

  lemma RegionFree(mem: Mem, d: int, data: int, k: int)
    requires 0x100 < data < PHYSFRAMES && 0 <= k < 4 && KernelMapped(mem, d, Kmap(data), k)
    ensures Unmapped(mem, d, Kmap(data)[k].p, Kmap(data)[k].e)
  {
    hide Pte, KernelPte;
    var r := Kmap(data)[k];
    forall i, j | 0 <= i < NENT && 0 <= j < NENT && r.p <= NENT * i + j < r.e
      ensures !Present(Pte(mem, d, i, j))
    {
      RegionsApart(data, k, NENT * i + j);
    }
  }

  lemma RegionMapped(mem: Mem, mem': Mem, d: int, data: int, k: int)
    requires 0x100 < data < PHYSFRAMES && 0 <= k < 4 && KernelMapped(mem, d, Kmap(data), k)
    requires var r := Kmap(data)[k]; Mapped(mem, mem', d, r.p, r.e, r.p, r.perm)
    ensures KernelMapped(mem', d, Kmap(data), k + 1)
  {
    hide Pte, Entry;
  }

  lemma RegionCovered(mem: Mem, free: seq<int>, mem': Mem, free': seq<int>, d: int, data: int, k: int)
    requires 0x100 < data < PHYSFRAMES && 0 <= k < 4 && TablesCovered(mem, d, Kmap(data), k)
    requires var r := Kmap(data)[k];
      && Grown(mem, free, mem', free', d, r.p / NENT, (r.e - 1) / NENT)
      && forall i :: r.p / NENT <= i <= (r.e - 1) / NENT ==> Table(mem', d, i) != 0
    ensures TablesCovered(mem', d, Kmap(data), k + 1)
  {
    hide Table, TableFrames, TableSet;
    var kmap := Kmap(data);
    forall i {:trigger Table(mem', d, i)} | 0 <= i < NENT ensures Table(mem', d, i) != 0 <==> Covered(kmap, k + 1, i) {
      assert Covered(kmap, k + 1, i) <==> Covers(kmap[k], i) || Covered(kmap, k, i);
    }
  }

  ghost predicate GrownIn(mem: Mem, free: seq<int>, mem': Mem, free': seq<int>, d: int, r: Region) {
    Grown(mem, free, mem', free', d, r.p / NENT, (r.e - 1) / NENT)
  }

  lemma GrownCovers(mem: Mem, free: seq<int>, mem': Mem, free': seq<int>, d: int, r: Region, j: int)
    requires GrownIn(mem, free, mem', free', d, r) && 0 <= j < NENT && Table(mem', d, j) != 0
    ensures Table(mem, d, j) != 0 || Covers(r, j)
  {
  }

  lemma RegionShort(mem: Mem, free: seq<int>, mem': Mem, free': seq<int>, d: int, data: int, k: int, i: int)
    requires 0x100 < data < PHYSFRAMES && 0 <= k < 4 && TablesCovered(mem, d, Kmap(data), k)
    requires var r := Kmap(data)[k];
      GrownIn(mem, free, mem', free', d, r) && Covers(r, i)
    requires 0 <= i && Table(mem', d, i) == 0
    ensures |TableSet(mem', d)| < KVMTABLES
  {
    hide Table, TableFrames, TableSet, Covered, NeedsTable, Covers, GrownIn, Grown;
    var kmap := Kmap(data);
    forall j {:trigger Table(mem', d, j)} | 0 <= j < NENT && Table(mem', d, j) != 0 ensures NeedsTable(j) {
      CoveredAll(data, j);
      GrownCovers(mem, free, mem', free', d, kmap[k], j);
    }
    CoveredAll(data, i);
    TooFewTables(mem', d, i);
  }

  lemma SetupDone(mem: Mem, d: int, data: int)
    requires 0x100 < data < PHYSFRAMES && TablesCovered(mem, d, Kmap(data), 4)
    ensures |TableSet(mem, d)| == KVMTABLES && Table(mem, d, 0) != 0
  {
    hide Table, Covered;
    forall i {:trigger Table(mem, d, i)} | 0 <= i < NENT ensures Table(mem, d, i) != 0 <==> NeedsTable(i) {
      CoveredAll(data, i);
    }
    AllTables(mem, d);
  }

  lemma Head(mem: Mem, first: int, free: seq<int>, lo: int)
    requires Pool(mem, first, free, lo) && free != []
    ensures free[0] in free && lo <= free[0] < PHYSFRAMES && free[0] in mem && free[0] !in free[1..] && 0 < free[0]
  {
  }

  // A frame just taken off the list becomes an empty directory.
  lemma NewDirectory(mem: Mem, first: int, free: seq<int>, lo: int, d: int, mem': Mem, data: int)
    requires Pool(mem, first, free, lo) && lo <= d < PHYSFRAMES && d in mem && d !in free
    requires mem' == mem[d := ZeroPage()]
    ensures Pool(mem', first, free, lo) && Tables(mem', free, lo, d)
    ensures KernelMapped(mem', d, Kmap(data), 0) && TablesCovered(mem', d, Kmap(data), 0)
    ensures TableSet(mem', d) == {} && TableFrames(mem', d) == {}
  {
    EmptyDirectory(mem', d);
    hide Table, Pte;
  }

  lemma GrownWider(mem: Mem, free: seq<int>, mem1: Mem, free1: seq<int>, mem2: Mem, free2: seq<int>, d: int, x: int,
                   y: int)
    requires Grown(mem, free, mem1, free1, d, 0, NENT - 1) && Grown(mem1, free1, mem2, free2, d, x, y)
    ensures Grown(mem, free, mem2, free2, d, 0, NENT - 1)
  {
    hide Table;
    forall f | f in mem && f != d && f !in TableFrames(mem, d) && f !in free
      ensures mem2[f] == mem[f]
    {
      assert f !in Frames(free) + TableFrames(mem, d);
    }
  }

  lemma SetupCount(mem: Mem, free: seq<int>, mem0: Mem, free0: seq<int>, mem': Mem, free': seq<int>, d: int)
    requires free != [] && d == free[0] && free0 == free[1..] && d in mem && d !in free0 && mem0 == mem[d := ZeroPage()]
    requires TableSet(mem0, d) == {} && TableFrames(mem0, d) == {} && Grown(mem0, free0, mem', free', d, 0, NENT - 1)
    ensures mem'.Keys == mem.Keys && Untouched(mem, mem', free)
    ensures |free'| + |TableSet(mem', d)| == |free| - 1
    ensures Frames(free') + TableFrames(mem', d) == Frames(free) - {d}
  {
    hide Table;
    assert Frames(free0) == Frames(free) - {d};
  }

  lemma EmptyDirectory(mem: Mem, d: int)
    requires 0 < d && d in mem && mem[d] == ZeroPage()
    ensures Directory(mem, d) && TableSet(mem, d) == {} && TableFrames(mem, d) == {}
    ensures forall i {:trigger Table(mem, d, i)} :: Table(mem, d, i) == 0
    ensures forall i, j {:trigger Pte(mem, d, i, j)} :: Pte(mem, d, i, j) == 0
  {
  }

  // Pages below n of c hold what those of d held in mem, in frames of c's own; c has no other user pages.
  ghost predicate Copied(mem: Mem, d: int, mem': Mem, c: int, n: int) {
    forall v {:trigger UserFrame(mem', c, v)} :: 0 <= v < USERPAGES ==>
      var f, g := UserFrame(mem, d, v), UserFrame(mem', c, v);
      if v < n then g != 0 && Pte(mem', c, 0, v) == Entry(g, W + U) && g in mem' && f in mem && mem'[g] == mem[f]
      else g == 0 && Pte(mem', c, 0, v) == 0
  }

  ghost predicate KernelKept(mem: Mem, c: int, kmap: seq<Region>)
    requires |kmap| == 4
  {
    forall i, j {:trigger Pte(mem, c, i, j)} :: 0 <= i < NENT && 0 <= j < NENT && !(i == 0 && j < USERPAGES) ==>
      Pte(mem, c, i, j) == KernelPte(kmap, 4, NENT * i + j)
  }

  lemma NoFrames(free: seq<int>)
    requires free == []
    ensures Frames(free) == {}
  {
  }

  lemma OwnedInUse(mem: Mem, first: int, free: seq<int>, lo: int, d: int)
    requires Pool(mem, first, free, lo) && Space(mem, free, lo, d)
    ensures Owned(mem, d) !! Frames(free)
  {
    forall f | f in UserFrames(mem, d) ensures f !in free {
      var v :| 0 <= v < USERPAGES && UserFrame(mem, d, v) != 0 && UserFrame(mem, d, v) == f;
      FrameFacts(mem, free, lo, d, v);
    }
  }

  // Writing free frames, and taking some, leaves an address space as it was.
  lemma ParentKept(mem: Mem, free: seq<int>, lo: int, d: int, mem': Mem, free': seq<int>)
    requires Space(mem, free, lo, d) && Untouched(mem, mem', free) && Frames(free') <= Frames(free)
    ensures Space(mem', free', lo, d) && SameTables(mem, mem', d) && SameEntries(mem, mem', d)
    ensures forall v {:trigger UserFrame(mem', d, v)} :: UserFrame(mem', d, v) == UserFrame(mem, d, v)
  {
    SameDirectory(mem, mem', d);
    EntriesKept(mem, free, lo, d, mem');
    SameSpace(mem, free, lo, d, mem');
    assert forall f :: f in free' ==> f in Frames(free);
    FewerFree(mem', free, free', lo, d);
  }

  lemma EntriesKept(mem: Mem, free: seq<int>, lo: int, d: int, mem': Mem)
    requires Tables(mem, free, lo, d) && Untouched(mem, mem', free) && SameTables(mem, mem', d)
    ensures SameEntries(mem, mem', d)
  {
    hide Table;
    forall i, j | 0 <= i < NENT && 0 <= j < NENT ensures Pte(mem', d, i, j) == Pte(mem, d, i, j) {
      assert Table(mem', d, i) == Table(mem, d, i);
    }
  }

  lemma PageKept(mem: Mem, first: int, free: seq<int>, lo: int, d: int, mem': Mem, free': seq<int>, v: int)
    requires Pool(mem, first, free, lo) && Space(mem, free, lo, d) && Untouched(mem, mem', free) && 0 <= v < USERPAGES
    requires Present(Pte(mem, d, 0, v))
    ensures UserFrame(mem, d, v) in mem && UserFrame(mem, d, v) in mem'
    ensures mem'[UserFrame(mem, d, v)] == mem[UserFrame(mem, d, v)]
  {
    FrameFacts(mem, free, lo, d, v);
  }

  lemma UserEntriesZero(data: int, v: int)
    requires 0x100 < data < PHYSFRAMES && 0 <= v < USERPAGES
    ensures KernelPte(Kmap(data), 4, v) == 0
  {
    var kmap := Kmap(data);
    assert KernelPte(kmap, 1, v) == 0 && KernelPte(kmap, 2, v) == 0 && KernelPte(kmap, 3, v) == 0;
  }

  // What setupkvm returns is an address space without user pages.
  lemma SetupSpace(mem: Mem, free0: seq<int>, mem': Mem, free: seq<int>, lo: int, d: int, c: int, data: int)
    requires c in free0 && Frames(free) + TableFrames(mem', c) == Frames(free0) - {c}
    requires 0x100 < data < PHYSFRAMES && Tables(mem', free, lo, c) && Table(mem', c, 0) != 0
    requires KernelMapped(mem', c, Kmap(data), 4)
    ensures Space(mem', free, lo, c) && Frames(free) + Owned(mem', c) == Frames(free0)
    ensures Copied(mem, d, mem', c, 0) && KernelKept(mem', c, Kmap(data))
  {
    NotPresent();
    hide Table, Directory, TableFrames, Tabular, Entry;
    forall v | 0 <= v < USERPAGES
      ensures Pte(mem', c, 0, v) == 0 && UserFrame(mem', c, v) == 0 && UserPage(mem', free, lo, c, v)
    {
      UserEntriesZero(data, v);
      assert Pte(mem', c, 0, v) == KernelPte(Kmap(data), 4, NENT * 0 + v);
    }
    hide Pte, UserFrame, KernelPte;
    assert UserFrames(mem', c) == {};
    PutBack(Frames(free), TableFrames(mem', c), c, Frames(free0));
  }

  lemma PutBack<T>(a: set<T>, b: set<T>, x: T, all: set<T>)
    requires x in all && a + b == all - {x}
    ensures a + ({x} + b + {}) == all
  {
    assert all == (all - {x}) + {x};
    assert a + ({x} + b + {}) == (a + b) + {x};
  }

  lemma CopiedAt(mem: Mem, d: int, mem': Mem, c: int, i: int)
    requires Copied(mem, d, mem', c, i) && 0 <= i < USERPAGES
    ensures Pte(mem', c, 0, i) == 0
  {
    hide UserFrame, Pte;
    var g := UserFrame(mem', c, i);
  }

  // freevm after an unsuccessful copy.
  lemma GivenBack(mem: Mem, free: seq<int>, mem1: Mem, free1: seq<int>, mem2: Mem, free2: seq<int>, c: int)
    requires Untouched(mem, mem1, free) && mem2.Keys == mem1.Keys && Frames(free2) == Frames(free1) + Owned(mem1, c)
    requires forall x :: x in mem1 && x !in Owned(mem1, c) ==> mem2[x] == mem1[x]
    requires Frames(free1) + Owned(mem1, c) == Frames(free)
    ensures Untouched(mem, mem2, free) && Frames(free2) == Frames(free)
  {
    hide Owned;
    forall x | x in mem && x !in free ensures mem2[x] == mem[x] {
      assert x !in Frames(free);
    }
  }

  lemma OwnedMore(mem1: Mem, mem2: Mem, c: int, v: int, f: int, p: Page)
    requires Added(mem1, mem2, c, v, f, p) && 0 <= v < USERPAGES && f != 0 && UserFrame(mem1, c, v) == 0
    ensures Owned(mem2, c) == Owned(mem1, c) + {f}
  {
    SameSets(mem1, mem2, c);
    hide Table, Pte, TableFrames;
    forall x {:trigger x in UserFrames(mem2, c)} ensures x in UserFrames(mem2, c) <==> x in UserFrames(mem1, c) + {f} {
      hide UserFrame;
      if x in UserFrames(mem1, c) {
        var u :| 0 <= u < USERPAGES && UserFrame(mem1, c, u) != 0 && UserFrame(mem1, c, u) == x;
        assert UserFrame(mem2, c, u) == x;
      }
      assert UserFrame(mem2, c, v) == f;
    }
  }

  lemma CopiedPages(mem: Mem, d: int, mem1: Mem, free1: seq<int>, mem2: Mem, lo: int, c: int, i: int, f: int, p: Page)
    requires Copied(mem, d, mem1, c, i) && 0 <= i < USERPAGES && Space(mem1, free1, lo, c) && f in free1 && f != 0
    requires Added(mem1, mem2, c, i, f, p) && UserFrame(mem, d, i) in mem && p == mem[UserFrame(mem, d, i)]
    ensures Copied(mem, d, mem2, c, i + 1)
  {
    hide Table, Pte, UserFrame, Entry, Tabular;
    forall v {:trigger UserFrame(mem2, c, v)} | 0 <= v < USERPAGES
      ensures var x, g := UserFrame(mem, d, v), UserFrame(mem2, c, v);
        if v < i + 1 then g != 0 && Pte(mem2, c, 0, v) == Entry(g, W + U) && g in mem2 && x in mem && mem2[g] == mem[x]
        else g == 0 && Pte(mem2, c, 0, v) == 0
    {
      FrameFacts(mem1, free1, lo, c, v);
      assert UserFrame(mem1, c, v) == UserFrame(mem1, c, v);
      if v < i {
        EntryGives(mem1, c, v);
      }
    }
  }

  lemma EntryGives(mem: Mem, c: int, v: int)
    requires 0 <= v < USERPAGES && UserFrame(mem, c, v) != 0
    ensures Present(Pte(mem, c, 0, v))
  {
  }

  // One more page copied.
  lemma CopiedMore(mem: Mem, free: seq<int>, lo: int, d: int, mem1: Mem, first1: int, free1: seq<int>, mem2: Mem,
                   free2: seq<int>, c: int, i: int, f: int, data: int)
    requires Pool(mem1, first1, free1, lo) && Untouched(mem, mem1, free) && Space(mem1, free1, lo, c)
    requires 0 <= i < USERPAGES
    requires free1 != [] && f == free1[0] && free2 == free1[1..] && f != 0
    requires Frames(free1) + Owned(mem1, c) == Frames(free)
    requires Copied(mem, d, mem1, c, i) && KernelKept(mem1, c, Kmap(data))
    requires UserFrame(mem, d, i) in mem && Added(mem1, mem2, c, i, f, mem[UserFrame(mem, d, i)])
    ensures Untouched(mem, mem2, free) && Frames(free2) + Owned(mem2, c) == Frames(free)
    ensures Copied(mem, d, mem2, c, i + 1) && KernelKept(mem2, c, Kmap(data))
  {
    assert UserFrame(mem1, c, i) == 0;
    OwnedMore(mem1, mem2, c, i, f, mem[UserFrame(mem, d, i)]);
    CopiedPages(mem, d, mem1, free1, mem2, lo, c, i, f, mem[UserFrame(mem, d, i)]);
    TableOwned(mem1, free1, lo, c);
    hide Table, Pte, UserFrame, Space, Copied, Owned, Entry, KernelPte;
    assert Frames(free2) == Frames(free1) - {f};
    forall x | x in mem && x !in free ensures mem2[x] == mem[x] {
      assert x !in Frames(free1) + Owned(mem1, c);
    }
  }

  lemma TableOwned(mem: Mem, free: seq<int>, lo: int, c: int)
    requires Space(mem, free, lo, c)
    ensures Table(mem, c, 0) in Owned(mem, c)
  {
    assert Table(mem, c, 0) in TableFrames(mem, c);
  }

  class Machine {
    var mem: Mem
    var freelist: int
    const lo: int
    const data: int // page number of the kernel's data
    ghost var free: seq<int>

    ghost predicate Valid()
      reads this
    {
      Pool(mem, freelist, free, lo) && 0x100 < data < PHYSFRAMES
    }

    // kinit: every frame from lo up to PHYSTOP becomes free.
    constructor (mem: Mem, lo: int, data: int)
      requires 0 < lo <= PHYSFRAMES && 0x100 < data < PHYSFRAMES
      requires forall f :: lo <= f < PHYSFRAMES ==> f in mem
      ensures Valid() && this.lo == lo && this.data == data && this.mem.Keys == mem.Keys
      ensures Frames(free) == Interval(lo, PHYSFRAMES) && |free| == PHYSFRAMES - lo
    {
      this.mem, this.lo, this.data := mem, lo, data;
      freelist, free := 0, [];
      new;
      FreeAll();
    }

    method FreeAll()
      requires Valid() && free == [] && lo <= PHYSFRAMES
      modifies this
      ensures Valid() && mem.Keys == old(mem.Keys)
      ensures Frames(free) == Interval(lo, PHYSFRAMES) && |free| == PHYSFRAMES - lo
    {
      hide Pool, Frames, Interval;
      NoFrames(free);
      IntervalNone(lo);
      var p := lo;
      while p < PHYSFRAMES
        invariant lo <= p <= PHYSFRAMES && Valid() && mem.Keys == old(mem.Keys)
        invariant Frames(free) == Interval(lo, p) && |free| == p - lo
      {
        FrameOrNot(free, p);
        IntervalNext(lo, p);
        var ok := Kfree(p);
        assert ok;
        p := p + 1;
      }
    }

    method Kalloc() returns (f: int)
      requires Valid()
      modifies this`freelist, this`free
      ensures Valid()
      ensures (f == 0 <==> old(free) == []) && (f == 0 ==> free == [])
      ensures old(free) != [] ==> f == old(free)[0] && free == old(free)[1..] && lo <= f < PHYSFRAMES
      ensures Frames(free) == Frames(old(free)) - {f}
    {
      f := freelist;
      if f != 0 {
        freelist := mem[f][0];
        free := free[1..];
      }
    }

    // False is kfree's panic.
    method Kfree(f: int) returns (ok: bool)
      requires Valid() && f !in free
      modifies this
      ensures Valid() && ok == (lo <= f < PHYSFRAMES)
      ensures !ok ==> free == old(free) && mem == old(mem)
      ensures ok ==> free == [f] + old(free) && Frames(free) == Frames(old(free)) + {f}
      ensures ok ==> f in old(mem) && mem == old(mem)[f := mem[f]]
    {
      if f < lo || PHYSFRAMES <= f {
        return false;
      }
      mem := mem[f := seq(NENT, _ => 0x0101_0101)];
      mem := mem[f := mem[f][0 := freelist]];
      freelist := f;
      free := [f] + free;
      return true;
    }

    // The page table for directory index i, or 0; the entry itself is one of its words.
    method WalkPgdir(d: int, i: int, create: bool) returns (t: int)
      requires Valid() && Tables(mem, free, lo, d) && 0 <= i < NENT
      modifies this
      ensures Valid() && Tables(mem, free, lo, d) && t == Table(mem, d, i)
      ensures t == 0 && create ==> free == []
      ensures !create || t == 0 || old(Table(mem, d, i)) != 0 ==> mem == old(mem) && free == old(free)
      ensures Grown(old(mem), old(free), mem, free, d, i, i)
      ensures SameEntries(old(mem), mem, d)
    {
      GrownNot(mem, free, d, i, i);
      if Present(mem[d][i]) {
        return FrameOf(mem[d][i]);
      }
      if !create {
        return 0;
      }
      hide Pool, Grown;
      t := Kalloc();
      if t == 0 {
        GrownNot(mem, free, d, i, i);
        return;
      }
      Head(mem, old(freelist), old(free), lo);
      mem := mem[t := ZeroPage()];
      mem := mem[d := mem[d][i := Entry(t, W + U)]];
      TakenTable(old(mem), old(free), lo, d, i, mem);
      TakenPool(old(mem), freelist, old(free), lo, d, i, mem);
      TakenGrown(old(mem), old(free), lo, d, i, mem);
    }

    // mappages for one page.
    method MapPage(d: int, i: int, j: int, f: int, perm: int) returns (ok: bool)
      requires Valid() && Tables(mem, free, lo, d)
      requires 0 <= i < NENT && 0 <= j < NENT && 0 <= perm < 4095 && perm % 2 == 0 && !Present(Pte(mem, d, i, j))
      modifies this
      ensures Valid() && Tables(mem, free, lo, d)
      ensures ok ==> Mapped(old(mem), mem, d, NENT * i + j, NENT * i + j + 1, f, perm) && Table(mem, d, i) != 0
      ensures !ok ==> free == [] && mem == old(mem) && Table(mem, d, i) == 0
      ensures Grown(old(mem), old(free), mem, free, d, i, i)
      ensures old(Table(mem, d, i)) != 0 ==>
        ok && free == old(free) && Table(old(mem), d, i) in old(mem)
          && mem == SetEntry(old(mem), Table(old(mem), d, i), j, Entry(f, perm))
    {
      hide Pool, Tables, Directory, Grown, Pte, Table, Entry, Present;
      var t := WalkPgdir(d, i, true);
      if t == 0 {
        return false;
      }
      ghost var before := mem;
      TableInUse(mem, free, lo, d, i);
      mem := mem[t := mem[t][j := Entry(f, perm)]];
      EntryWritten(before, freelist, free, lo, d, i, j, Entry(f, perm), mem);
      GrownTwice(old(mem), old(free), before, free, mem, free, d, i, i, i);
      return true;
    }

    // Map the n pages from page a on to the frames from f on.  The entries must be unused (else: panic "remap").
    method MapPages(d: int, a: int, n: int, f: int, perm: int) returns (ok: bool)
      requires Valid() && Tables(mem, free, lo, d)
      requires 0 <= a && 0 < n && a + n <= NENT * NENT && 0 <= perm < 4095 && perm % 2 == 0
      requires Unmapped(mem, d, a, a + n)
      modifies this
      ensures Valid() && Tables(mem, free, lo, d)
      ensures ok ==> Mapped(old(mem), mem, d, a, a + n, f, perm)
      ensures ok ==> forall i :: a / NENT <= i <= (a + n - 1) / NENT ==> Table(mem, d, i) != 0
      ensures Grown(old(mem), old(free), mem, free, d, a / NENT, (a + n - 1) / NENT)
      ensures !ok ==> free == [] && exists i :: 0 <= i && a / NENT <= i <= (a + n - 1) / NENT && Table(mem, d, i) == 0
    {
      hide Pool, Tables, Directory, Pte, Table, Entry, Present;
      var p, last, g := a, a + n - 1, f;
      GrownNot(mem, free, d, a / NENT, last / NENT);
      while true
        invariant Valid() && Tables(mem, free, lo, d) && a <= p <= last && g == f + (p - a)
        invariant Mapped(old(mem), mem, d, a, p, f, perm)
        invariant forall i :: a / NENT <= i && NENT * i + NENT <= p ==> Table(mem, d, i) != 0
        invariant Grown(old(mem), old(free), mem, free, d, a / NENT, last / NENT)
        decreases last - p
      {
        var i, j := p / NENT, p % NENT;
        ghost var mem0, free0 := mem, free;
        var ok := MapPage(d, i, j, g, perm);
        GrownTwice(old(mem), old(free), mem0, free0, mem, free, d, a / NENT, last / NENT, i);
        if !ok {
          return false;
        }
        MappedTwice(old(mem), mem0, mem, d, a, p, f, perm);
        if p == last {
          return true;
        }
        p, g := p + 1, g + 1;
      }
    }

    // One turn of setupkvm's loop.
    method MapRegion(d: int, k: int) returns (ok: bool)
      requires Valid() && Tables(mem, free, lo, d) && 0 <= k < 4
      requires KernelMapped(mem, d, Kmap(data), k) && TablesCovered(mem, d, Kmap(data), k)
      modifies this
      ensures Valid() && Tables(mem, free, lo, d)
      ensures ok ==> KernelMapped(mem, d, Kmap(data), k + 1) && TablesCovered(mem, d, Kmap(data), k + 1)
      ensures !ok ==> free == [] && |TableSet(mem, d)| < KVMTABLES
      ensures Grown(old(mem), old(free), mem, free, d, Kmap(data)[k].p / NENT, (Kmap(data)[k].e - 1) / NENT)
    {
      hide Pool, Tables, Table, Pte, Mapped, Grown, KernelMapped, Unmapped, Covered;
      var r := Kmap(data)[k];
      RegionFree(mem, d, data, k);
      ok := MapPages(d, r.p, r.e - r.p, r.p, r.perm);
      if ok {
        RegionMapped(old(mem), mem, d, data, k);
        RegionCovered(old(mem), old(free), mem, free, d, data, k);
      } else {
        ghost var i :| 0 <= i && r.p / NENT <= i <= (r.e - 1) / NENT && Table(mem, d, i) == 0;
        RegionShort(old(mem), old(free), mem, free, d, data, k, i);
      }
    }

    // 0 when a page runs out.  Then what was allocated is lost, and nothing is left: that is so exactly when fewer than
    // 1 + KVMTABLES frames were free.
    method SetupKvm() returns (d: int)
      requires Valid()
      modifies this
      ensures Valid() && mem.Keys == old(mem.Keys)
      ensures d != 0 <==> |old(free)| > KVMTABLES
      ensures d == 0 ==> free == []
      ensures d != 0 ==> Tables(mem, free, lo, d) && KernelMapped(mem, d, Kmap(data), 4) && Table(mem, d, 0) != 0
      ensures d != 0 ==> d in old(free) && Frames(free) + TableFrames(mem, d) == Frames(old(free)) - {d}
      ensures d != 0 ==> |free| == |old(free)| - KVMTABLES - 1
      // Bit by bit: the kernel's pages map to themselves, none is for user mode, and its text is not writable.
      ensures d != 0 ==> forall i :: 0 <= i < 1024 && mem[d][i] % 2 == 1 ==> mem[d][i] % 8 == 7
      ensures d != 0 ==> forall i, j {:trigger Pte(mem, d, i, j)} :: 0 <= i < 1024 && 0 <= j < 1024 ==>
        var v, e := 1024 * i + j, Pte(mem, d, i, j);
        && e / 4 % 2 == 0
        && (e % 2 == 1 <==> 0xA0 <= v < 0x1000 || 0xFE000 <= v < 0x10_0000)
        && (e % 2 == 1 ==> e / 4096 == v)
        && (e / 2 % 2 == 1 <==> e % 2 == 1 && !(0x100 <= v < data))
      ensures Untouched(old(mem), mem, old(free))
    {
      hide Pool, Grown, Covered, Table, Pte, KernelPte, TableSet, TableFrames, Directory;
      d := Kalloc();
      if d == 0 {
        return;
      }
      assert d in old(free) && d in mem by {
        Head(mem, old(freelist), old(free), lo);
      }
      mem := mem[d := ZeroPage()];
      NewDirectory(old(mem), freelist, free, lo, d, mem, data);
      ghost var mem0, free0 := mem, free;
      GrownNot(mem, free, d, 0, NENT - 1);
      var k := 0;
      while k < 4
        invariant 0 <= k <= 4 && Valid() && Tables(mem, free, lo, d)
        invariant KernelMapped(mem, d, Kmap(data), k) && TablesCovered(mem, d, Kmap(data), k)
        invariant Grown(mem0, free0, mem, free, d, 0, NENT - 1)
      {
        ghost var mem1, free1 := mem, free;
        var ok := MapRegion(d, k);
        GrownWider(mem0, free0, mem1, free1, mem, free, d, Kmap(data)[k].p / NENT, (Kmap(data)[k].e - 1) / NENT);
        if !ok {
          SetupCount(old(mem), old(free), mem0, free0, mem, free, d);
          return 0;
        }
        k := k + 1;
      }
      SetupCount(old(mem), old(free), mem0, free0, mem, free, d);
      SetupDone(mem, d, data);
      KernelEntries(data);
    }

    // What allocuvm and copyuvm do for a page: take a frame, fill it, map it.
    method AddPage(d: int, v: int, p: Page) returns (f: int)
      requires Valid() && Space(mem, free, lo, d) && 0 <= v < USERPAGES && Pte(mem, d, 0, v) == 0
      modifies this
      ensures Valid() && Space(mem, free, lo, d)
      ensures f == 0 <==> old(free) == []
      ensures f == 0 ==> mem == old(mem) && free == old(free)
      ensures f != 0 ==> f == old(free)[0] && free == old(free)[1..] && Added(old(mem), mem, d, v, f, p)
    {
      hide Pool, Space, Tables, Directory, Table, Pte, Present, Entry, UserFrame, Grown;
      f := Kalloc();
      if f == 0 {
        return;
      }
      NextIsLoose(mem, old(freelist), old(free), lo, d);
      mem := mem[f := p];
      LooseFilled(old(mem), freelist, free, lo, d, f, p, mem);
      ghost var filled, first := mem, freelist;
      SpaceTables(filled, free, lo, d);
      assert !Present(Pte(mem, d, 0, v)) by { NotPresent(); }
      var ok := MapPage(d, 0, v, f, W + U);
      UserMapped(filled, first, free, lo, d, v, f, mem);
      AddedPage(old(mem), filled, mem, old(free), lo, d, v, f, p);
    }

    // One turn of deallocuvm's loop.
    // One turn of deallocuvm's loop. Here and below, false is a panic of kfree, which does not happen.
    method FreePage(d: int, k: int) returns (ok: bool)
      requires Valid() && Space(mem, free, lo, d) && 0 <= k < USERPAGES
      modifies this
      ensures ok && Valid() && Space(mem, free, lo, d)
      ensures Shrunk(old(mem), old(free), mem, free, d, k, k + 1)
    {
      hide Pool, Space, Tables, Directory, Table, Pte, Present, UserFrame, Shrunk, FrameOf, FramesBetween;
      ok := true;
      SpaceTables(mem, free, lo, d);
      var t := WalkPgdir(d, 0, false);
      FrameFacts(mem, free, lo, d, k);
      PteAt(mem, free, lo, d, k);
      if t != 0 && Present(mem[t][k]) {
        var f := FrameOf(mem[t][k]);
        ok := Kfree(f);
        if !ok {
          return;
        }
        ghost var mem1, first := mem, freelist;
        mem := mem[t := mem[t][k := 0]];
        UserFreed(old(mem), old(free), lo, d, k, mem1, first, mem);
        ShrunkOne(old(mem), old(free), mem, free, d, k);
      } else {
        ShrunkSame(mem, free, d, k);
      }
    }

    method DeallocUvm(d: int, oldsz: int, newsz: int) returns (r: int, ok: bool)
      requires Valid() && Space(mem, free, lo, d) && 0 <= newsz && oldsz <= PGSIZE * USERPAGES
      modifies this
      ensures ok && Valid() && Space(mem, free, lo, d)
      ensures r == if newsz >= oldsz then oldsz else newsz
      ensures newsz >= oldsz ==> mem == old(mem) && free == old(free)
      ensures newsz < oldsz ==> Shrunk(old(mem), old(free), mem, free, d, Pages(newsz), Pages(oldsz))
    {
      hide Pool, Space, Shrunk, Pages;
      if newsz >= oldsz {
        return oldsz, true;
      }
      var k := Pages(newsz);
      PagesOf(newsz, k);
      PagesOf(oldsz, k);
      PagesGrow(newsz, oldsz);
      ShrunkNot(mem, free, d, k);
      ok := true;
      while PGSIZE * k < oldsz
        invariant ok
        invariant Valid() && Space(mem, free, lo, d) && 0 <= Pages(newsz) <= k <= Pages(oldsz)
        invariant PGSIZE * k < oldsz <==> k < Pages(oldsz)
        invariant Shrunk(old(mem), old(free), mem, free, d, Pages(newsz), k)
      {
        ghost var mem0, free0 := mem, free;
        ok := FreePage(d, k);
        if !ok {
          return newsz, false;
        }
        ShrunkTwice(old(mem), old(free), mem0, free0, mem, free, d, Pages(newsz), k);
        k := k + 1;
        PagesOf(oldsz, k);
      }
      return newsz, ok;
    }

    // The mappages of a page can fail only for want of a page table, and the address space has its first one.
    method AllocUvm(d: int, oldsz: int, newsz: int) returns (r: int)
      requires Valid() && Space(mem, free, lo, d) && 0 <= oldsz && 0 <= newsz
      requires forall v {:trigger Pte(mem, d, 0, v)} :: Pages(oldsz) <= v < Pages(newsz) && v < USERPAGES ==>
        Pte(mem, d, 0, v) == 0
      modifies this
      ensures Valid() && Space(mem, free, lo, d)
      ensures newsz > PGSIZE * USERPAGES ==> r == 0 && mem == old(mem) && free == old(free)
      ensures newsz <= PGSIZE * USERPAGES && newsz < oldsz ==> r == oldsz && mem == old(mem) && free == old(free)
      ensures oldsz <= newsz <= PGSIZE * USERPAGES ==>
        if Pages(newsz) - Pages(oldsz) <= |old(free)|
        then r == newsz && Extended(old(mem), old(free), mem, free, d, Pages(oldsz), Pages(newsz))
        else r == 0 && Restored(old(mem), old(free), mem, free, d)
      // Bit by bit: every mapped user page is for user mode and writable, and on success all up to newsz are mapped.
      ensures forall v {:trigger Pte(mem, d, 0, v)} :: 0 <= v < 0xA0 && Pte(mem, d, 0, v) % 2 == 1 ==>
        Pte(mem, d, 0, v) % 8 == 7
      ensures r == newsz > oldsz ==>
        forall v {:trigger Pte(mem, d, 0, v)} :: oldsz <= 4096 * v < newsz ==> Pte(mem, d, 0, v) % 8 == 7
    {
      hide Pool, Space, Extended, Restored, Shrunk, Added, Pages, Table, Pte;
      if newsz > PGSIZE * USERPAGES {
        UserBits(mem, free, lo, d);
        return 0;
      }
      if newsz < oldsz {
        UserBits(mem, free, lo, d);
        return oldsz;
      }
      var a := Pages(oldsz);
      PagesOf(oldsz, a);
      PagesOf(newsz, a);
      PagesGrow(oldsz, newsz);
      FreeApart(mem, freelist, free, lo, d);
      ExtendedNot(mem, free, d, a);
      while PGSIZE * a < newsz
        invariant Valid() && Space(mem, free, lo, d) && 0 <= Pages(oldsz) <= a <= Pages(newsz)
        invariant PGSIZE * a < newsz <==> a < Pages(newsz)
        invariant Extended(old(mem), old(free), mem, free, d, Pages(oldsz), a)
      {
        ghost var mem0, free0 := mem, free;
        ExtendedAt(old(mem), old(free), mem, free, d, Pages(oldsz), a);
        var f := AddPage(d, a, ZeroPage());
        if f == 0 {
          var back, ok := DeallocUvm(d, newsz, oldsz);
          assert ok;
          Undone(old(mem), old(free), mem0, free0, mem, free, d, Pages(oldsz), a, Pages(newsz));
          UserBits(mem, free, lo, d);
          return 0;
        }
        ExtendedMore(old(mem), old(free), mem0, free0, mem, free, d, Pages(oldsz), a, f);
        a := a + 1;
        PagesOf(newsz, a);
      }
      ExtendedAt(old(mem), old(free), mem, free, d, Pages(oldsz), a);
      UserBits(mem, free, lo, d);
      GrownBits(old(mem), old(free), mem, free, d, oldsz, newsz);
      return newsz;
    }

    method FreeVm(d: int) returns (ok: bool)
      requires Valid() && Space(mem, free, lo, d)
      modifies this
      ensures ok && Valid() && mem.Keys == old(mem.Keys)
      ensures Frames(free) == Frames(old(free)) + Owned(old(mem), d)
      ensures forall x :: x in mem && x !in Owned(old(mem), d) ==> mem[x] == old(mem[x])
    {
      hide Pool, Space, Tables, Directory, Table, Shrunk, Owned, TablesUpTo, Present, FrameOf;
      SpaceTables(mem, free, lo, d);
      var sz;
      sz, ok := DeallocUvm(d, PGSIZE * USERPAGES, 0);
      if !ok {
        return;
      }
      SpaceTables(mem, free, lo, d);
      ghost var mem1, free1 := mem, free;
      TablesUpToNone(mem, d);
      var i := 0;
      while i < NENT
        invariant ok && 0 <= i <= NENT && Valid() && mem.Keys == mem1.Keys && d in mem && mem[d] == mem1[d]
        invariant Frames(free) == Frames(free1) + TablesUpTo(mem1, d, i)
        invariant forall x :: x in mem && x !in TablesUpTo(mem1, d, i) ==> mem[x] == mem1[x]
      {
        TableAt(mem1, free1, lo, d, i);
        if Present(mem[d][i]) {
          assert FrameOf(mem[d][i]) !in Frames(free);
          ok := Kfree(FrameOf(mem[d][i]));
          if !ok {
            return;
          }
        }
        i := i + 1;
      }
      DirectoryLast(mem1, free1, lo, d);
      assert d !in Frames(free);
      ok := Kfree(d);
      if !ok {
        return;
      }
      FreedAll(old(mem), old(free), mem1, free1, d);
    }

    method CopyUvm(d: int, sz: int) returns (c: int)
      requires Valid() && Space(mem, free, lo, d) && 0 <= sz <= PGSIZE * USERPAGES
      requires forall v {:trigger Pte(mem, d, 0, v)} :: 0 <= v < Pages(sz) ==> Present(Pte(mem, d, 0, v))
      modifies this
      ensures Valid() && Space(mem, free, lo, d) && Untouched(old(mem), mem, old(free))
      ensures c != 0 <==> |old(free)| >= KVMTABLES + 1 + Pages(sz)
      ensures c != 0 ==>
        Space(mem, free, lo, c) && Owned(mem, c) !! Owned(old(mem), d) && Frames(free) !! Owned(mem, c)
          && Frames(free) + Owned(mem, c) == Frames(old(free))
      ensures c != 0 ==> Copied(old(mem), d, mem, c, Pages(sz)) && KernelKept(mem, c, Kmap(data))
      // Bit by bit, as in SetupKvm; all user pages are for user mode and writable.
      ensures c != 0 ==> forall i, j {:trigger Pte(mem, c, i, j)} :: 0 <= i < 1024 && 0 <= j < 1024 ==>
        var v, e := 1024 * i + j, Pte(mem, c, i, j);
        if v < 0xA0 then (4096 * v < sz ==> e % 8 == 7) && (sz <= 4096 * v ==> e == 0) else
        && e / 4 % 2 == 0
        && (e % 2 == 1 <==> v < 0x1000 || 0xFE000 <= v)
        && (e % 2 == 1 ==> e / 4096 == v)
        && (e / 2 % 2 == 1 <==> e % 2 == 1 && !(0x100 <= v < data))
      ensures c == 0 && |old(free)| > KVMTABLES ==> Frames(free) == Frames(old(free))
    {
      hide Pool, Space, Tables, Directory, Pte, Table, Present, FrameOf, UserFrame, Added, Copied, Owned, KernelMapped;
      hide KernelKept, Pages, Frames, Untouched, TableFrames;
      c := SetupKvm();
      PagesOf(sz, 0);
      if c == 0 {
        assert Frames(free) == {} by { NoFrames(free); }
        ParentKept(old(mem), old(free), lo, d, mem, free);
        return;
      }
      SetupSpace(old(mem), old(free), mem, free, lo, d, c, data);
      var i := 0;
      while PGSIZE * i < sz
        invariant Valid() && Space(mem, free, lo, c) && 0 <= i <= Pages(sz)
        invariant PGSIZE * i < sz <==> i < Pages(sz)
        invariant Untouched(old(mem), mem, old(free))
        invariant |free| == |old(free)| - KVMTABLES - 1 - i && Frames(free) + Owned(mem, c) == Frames(old(free))
        invariant Copied(old(mem), d, mem, c, i) && KernelKept(mem, c, Kmap(data))
      {
        ghost var mem1, first1, free1 := mem, freelist, free;
        ParentKept(old(mem), old(free), lo, d, mem, free);
        SpaceTables(mem, free, lo, d);
        PteAt(mem, free, lo, d, i);
        var t := WalkPgdir(d, 0, false);
        var pa := FrameOf(mem[t][i]);
        PageKept(old(mem), old(freelist), old(free), lo, d, mem, free, i);
        CopiedAt(old(mem), d, mem, c, i);
        var f := AddPage(c, i, mem[pa]);
        if f == 0 {
          var ok := FreeVm(c);
          assert ok;
          GivenBack(old(mem), old(free), mem1, free1, mem, free, c);
          ParentKept(old(mem), old(free), lo, d, mem, free);
          return 0;
        }
        CopiedMore(old(mem), old(free), lo, d, mem1, first1, free1, mem, free, c, i, f, data);
        i := i + 1;
        PagesOf(sz, i);
      }
      CopyBits(old(mem), d, mem, c, sz, data);
      ParentKept(old(mem), old(free), lo, d, mem, free);
      OwnedInUse(old(mem), old(freelist), old(free), lo, d);
      OwnedInUse(mem, freelist, free, lo, c);
    }
  }
}
