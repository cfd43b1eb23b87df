/** Page frames and two-level page tables as words in memory, and the finite map they stand for. */
module Paging {

  const NENT := 1024           // entries per page directory and per page table
  const USERPAGES := 0xA0      // USERTOP / PGSIZE
  const PHYSFRAMES := 0x1000   // PHYSTOP / PGSIZE
  const W := 2
  const U := 4

  type Page = p: seq<int> | |p| == 1024 witness seq(1024, _ => 0)
  type Mem = map<int, Page>    // by frame number

  function ZeroPage(): (p: Page)
    ensures forall i :: 0 <= i < NENT ==> p[i] == 0
  {
    seq(1024, _ => 0)
  }

  // An entry is a frame address and flags, of which PTE_P is the lowest.
  predicate Present(w: int) {
    w % 2 == 1
  }

  function FrameOf(w: int): int {
    w / 4096
  }

  function Entry(f: int, perm: int): int {
    4096 * f + perm + 1
  }

  lemma EntryParts(f: int, perm: int)
    requires 0 <= perm < 4095 && perm % 2 == 0
    ensures Present(Entry(f, perm)) && FrameOf(Entry(f, perm)) == f
  {
    Odd(2048 * f + perm / 2);
    Quotient(f, perm + 1);
  }

  lemma Odd(k: int)
    ensures (2 * k + 1) % 2 == 1
  {
  }

  lemma Quotient(q: int, r: int)
    requires 0 <= r < 4096
    ensures (4096 * q + r) / 4096 == q
  {
  }

  // The page table behind directory entry i, or 0.
  function Table(mem: Mem, d: int, i: int): int {
    if d in mem && 0 <= i < NENT && Present(mem[d][i]) then FrameOf(mem[d][i]) else 0
  }

  // The entry of the page with directory index i and table index j; 0 when it has no page table.
  function Pte(mem: Mem, d: int, i: int, j: int): int {
    var t := Table(mem, d, i);
    if t != 0 && t in mem && 0 <= j < NENT then mem[t][j] else 0
  }

  // The frame of user page v, or 0: the first page table covers all user addresses.
  function UserFrame(mem: Mem, d: int, v: int): int {
    if 0 <= v < USERPAGES && Present(Pte(mem, d, 0, v)) then FrameOf(Pte(mem, d, 0, v)) else 0
  }

  // A directory and its page tables: distinct frames.
  ghost predicate Directory(mem: Mem, d: int) {
    && 0 < d && d in mem
    && (forall i {:trigger Table(mem, d, i)} :: 0 <= i < NENT && Present(mem[d][i]) ==>
         Table(mem, d, i) in mem && 0 < Table(mem, d, i) != d)
    && (forall i, j {:trigger Table(mem, d, i), Table(mem, d, j)} :: 0 <= i < j < NENT && Table(mem, d, i) != 0 ==>
         Table(mem, d, i) != Table(mem, d, j))
  }

  // Part of the directory's own pages.
  ghost predicate Tabular(mem: Mem, d: int, f: int) {
    f == d || exists i :: 0 <= i < NENT && Table(mem, d, i) == f
  }

  // Two memories with the same page tables under d, up to one more table and one changed entry.
  ghost predicate SameTables(mem: Mem, mem': Mem, d: int) {
    forall i {:trigger Table(mem', d, i)} {:trigger Table(mem, d, i)} :: 0 <= i < NENT ==>
      Table(mem', d, i) == Table(mem, d, i)
  }

  ghost predicate SameEntries(mem: Mem, mem': Mem, d: int) {
    forall i, j {:trigger Pte(mem', d, i, j)} {:trigger Pte(mem, d, i, j)} :: 0 <= i < NENT && 0 <= j < NENT ==>
      Pte(mem', d, i, j) == Pte(mem, d, i, j)
  }

  lemma SameDirectory(mem: Mem, mem': Mem, d: int)
    requires Directory(mem, d) && d in mem' && mem'[d] == mem[d] && mem.Keys <= mem'.Keys
    ensures Directory(mem', d) && SameTables(mem, mem', d)
  {
    hide FrameOf, Present;
    forall i | 0 <= i < NENT ensures Table(mem', d, i) == Table(mem, d, i) {
    }
    forall i {:trigger Table(mem', d, i)} | 0 <= i < NENT && Present(mem'[d][i])
      ensures Table(mem', d, i) in mem' && 0 < Table(mem', d, i) != d
    {
      assert Table(mem', d, i) == Table(mem, d, i);
    }
  }

  // ---- the three ways to write ----

  lemma NewTable(mem: Mem, d: int, i: int, t: int, mem': Mem)
    requires Directory(mem, d) && 0 <= i < NENT && !Present(mem[d][i])
    requires 0 < t && t in mem && !Tabular(mem, d, t)
    requires mem' == mem[t := ZeroPage()][d := mem[d][i := Entry(t, W + U)]]
    ensures Directory(mem', d) && SameEntries(mem, mem', d)
    ensures forall j {:trigger Table(mem', d, j)} :: 0 <= j < NENT ==>
      Table(mem', d, j) == if j == i then t else Table(mem, d, j)
  {
    EntryParts(t, W + U);
    hide Entry, FrameOf, Present;
    assert forall j {:trigger mem'[d][j]} :: 0 <= j < NENT && j != i ==> mem'[d][j] == mem[d][j];
    forall j | 0 <= j < NENT ensures Table(mem', d, j) == if j == i then t else Table(mem, d, j) {
    }
  }

  lemma NewEntry(mem: Mem, d: int, i: int, j: int, w: int, mem': Mem)
    requires Directory(mem, d) && 0 <= i < NENT && 0 <= j < NENT && Table(mem, d, i) != 0
    requires var t := Table(mem, d, i); t in mem && mem' == mem[t := mem[t][j := w]]
    ensures Directory(mem', d) && SameTables(mem, mem', d)
    ensures forall x, y {:trigger Pte(mem', d, x, y)} :: 0 <= x < NENT && 0 <= y < NENT ==>
      Pte(mem', d, x, y) == if x == i && y == j then w else Pte(mem, d, x, y)
  {
    hide Entry, FrameOf, Present;
    SameDirectory(mem, mem', d);
  }

  lemma OtherPage(mem: Mem, d: int, f: int, p: Page, mem': Mem)
    requires Directory(mem, d) && !Tabular(mem, d, f) && mem' == mem[f := p]
    ensures Directory(mem', d) && SameTables(mem, mem', d) && SameEntries(mem, mem', d)
  {
    hide Entry, FrameOf, Present;
    SameDirectory(mem, mem', d);
  }
}
