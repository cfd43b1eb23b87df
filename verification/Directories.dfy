/** Directories and link counts: dirlookup, dirlink, create, link and unlink. */
module Directories {

  const ROOT := 1
  const DIRSIZ := 14
  const MAXENTRIES := 4480 // MAXFILE * BSIZE / sizeof(struct dirent)

  datatype Kind = Free | Dir | File | Dev
  datatype Dirent = Dirent(inum: int, name: string) // inum 0: an empty slot
  datatype Node = Node(kind: Kind, nlink: int, entries: seq<Dirent>)
  type Tree = seq<Node> // by inode number

  // What of a path element a directory stores and compares.
  function Name(elem: string): (r: string)
    ensures |r| <= DIRSIZ
  {
    if |elem| <= DIRSIZ then elem else elem[..DIRSIZ]
  }

  // A directory that can be reached by path: one with a link.
  predicate Linked(t: Tree, d: int) {
    0 < d < |t| && t[d].kind == Dir && t[d].nlink > 0
  }

  predicate Names(e: Dirent, i: int) {
    e.inum == i && e.name != "."
  }

  // ---- counting the entries that name an inode ----

  function CountIn(es: seq<Dirent>, i: int): nat {
    if es == [] then 0 else CountIn(es[..|es| - 1], i) + if Names(es[|es| - 1], i) then 1 else 0
  }

  function CountOf(t: Tree, d: int, i: int): nat {
    if Linked(t, d) then CountIn(t[d].entries, i) else 0
  }

  function CountUpTo(t: Tree, i: int, n: nat): nat {
    if n == 0 then 0 else CountUpTo(t, i, n - 1) + CountOf(t, n - 1, i)
  }

  function Count(t: Tree, i: int): nat {
    CountUpTo(t, i, |t|)
  }

  lemma {:induction false} CountSet(es: seq<Dirent>, k: nat, e: Dirent, i: int)
    requires k < |es|
    ensures CountIn(es[k := e], i) == CountIn(es, i) - (if Names(es[k], i) then 1 else 0)
      + (if Names(e, i) then 1 else 0)
  {
    var n := |es| - 1;
    if k < n {
      CountSet(es[..n], k, e, i);
      assert es[k := e][..n] == es[..n][k := e];
    } else {
      assert es[k := e][..n] == es[..n];
    }
  }

  lemma CountAppend(es: seq<Dirent>, e: Dirent, i: int)
    ensures CountIn(es + [e], i) == CountIn(es, i) + if Names(e, i) then 1 else 0
  {
    assert (es + [e])[..|es|] == es;
  }

  lemma {:induction false} NoneIn(es: seq<Dirent>, i: int)
    requires forall k :: 0 <= k < |es| ==> !Names(es[k], i)
    ensures CountIn(es, i) == 0
  {
    if es != [] {
      NoneIn(es[..|es| - 1], i);
    }
  }

  lemma {:induction false} SomeIn(es: seq<Dirent>, i: int, k: nat)
    requires k < |es| && Names(es[k], i)
    ensures CountIn(es, i) >= 1
  {
    if k < |es| - 1 {
      SomeIn(es[..|es| - 1], i, k);
    }
  }

  lemma {:induction false} OneIn(es: seq<Dirent>, i: int, k: nat)
    requires k < |es| && Names(es[k], i) && forall j :: 0 <= j < |es| && j != k ==> !Names(es[j], i)
    ensures CountIn(es, i) == 1
  {
    var n := |es| - 1;
    if k < n {
      OneIn(es[..n], i, k);
    } else {
      NoneIn(es[..n], i);
    }
  }

  // Two trees whose counts differ in one directory only.
  lemma {:induction false} CountChange(t: Tree, t': Tree, d: int, i: int, n: nat)
    requires n <= |t| == |t'| && forall x :: 0 <= x < n && x != d ==> CountOf(t', x, i) == CountOf(t, x, i)
    ensures CountUpTo(t', i, n) == CountUpTo(t, i, n) + (if 0 <= d < n then CountOf(t', d, i) - CountOf(t, d, i) else 0)
  {
    if n > 0 {
      CountChange(t, t', d, i, n - 1);
    }
  }

  lemma {:induction false} CountAtLeast(t: Tree, d: int, i: int, n: nat)
    requires 0 <= d < n <= |t|
    ensures CountUpTo(t, i, n) >= CountOf(t, d, i)
  {
    if d < n - 1 {
      CountAtLeast(t, d, i, n - 1);
    }
  }

  lemma {:induction false} CountOnly(t: Tree, d: int, i: int, n: nat)
    requires n <= |t| && forall x :: 0 <= x < n && x != d ==> CountOf(t, x, i) == 0
    ensures CountUpTo(t, i, n) == if 0 <= d < n then CountOf(t, d, i) else 0
  {
    if n > 0 {
      CountOnly(t, d, i, n - 1);
    }
  }

  // ---- the invariant ----

  // Link counts are the numbers of entries, "." aside, in linked directories.
  ghost predicate Counted(t: Tree) {
    forall i {:trigger Count(t, i)} :: 0 < i < |t| ==>
      t[i].nlink == Count(t, i) && (t[i].kind == Free ==> t[i].nlink == 0)
  }

  // "." and ".." come first; no name twice; every entry names an inode in use.
  ghost predicate WellFormed(t: Tree, d: int)
    requires 0 <= d < |t|
  {
    var es := t[d].entries;
    && |es| >= 2 && es[0] == Dirent(d, ".") && es[1].name == ".." && es[1].inum != 0
    && (forall j, k :: 0 <= j < k < |es| && es[j].inum != 0 && es[k].inum != 0 ==> es[j].name != es[k].name)
    && (forall k :: 0 <= k < |es| && es[k].inum != 0 ==> 0 < es[k].inum < |t| && t[es[k].inum].kind != Free)
  }

  // A directory's own entries, past "." and "..".
  predicate Child(t: Tree, d: int, k: int, c: int) {
    0 <= d < |t| && 2 <= k < |t[d].entries| && t[d].entries[k].inum == c
  }

  predicate Parent(t: Tree, d: int, p: int)
  {
    0 <= d < |t| && |t[d].entries| >= 2 && t[d].entries[1].inum == p
  }

  ghost predicate Rooted(t: Tree) {
    Linked(t, ROOT) && Parent(t, ROOT, ROOT)
  }

  ghost predicate IsChild(t: Tree, p: int, d: int) {
    exists k :: Child(t, p, k, d)
  }

  // A linked directory other than the root is a child of the one its ".." names...
  ghost predicate Housed(t: Tree) {
    forall d {:trigger Linked(t, d)} :: Linked(t, d) && d != ROOT ==>
      |t[d].entries| >= 2 && Linked(t, t[d].entries[1].inum) && IsChild(t, t[d].entries[1].inum, d)
  }

  // ...and of no other...
  ghost predicate PointsBack(t: Tree) {
    forall d, k, c {:trigger Child(t, d, k, c)} ::
      Linked(t, d) && Child(t, d, k, c) && 0 < c < |t| && t[c].kind == Dir ==>
      c != ROOT && Linked(t, c) && Parent(t, c, d)
  }

  // ...and once.
  ghost predicate OnePlace(t: Tree) {
    forall d, j, k, c {:trigger Child(t, d, j, c), Child(t, d, k, c)} ::
      Linked(t, d) && Child(t, d, j, c) && Child(t, d, k, c) && 0 < c < |t| && t[c].kind == Dir ==> j == k
  }

  ghost predicate Nested(t: Tree) {
    Rooted(t) && Housed(t) && PointsBack(t) && OnePlace(t)
  }

  // A directory that has lost its links holds "." and ".." only.
  ghost predicate Bare(t: Tree) {
    forall d {:trigger t[d].kind} :: 0 < d < |t| && t[d].kind == Dir && !Linked(t, d) ==>
      var es := t[d].entries;
      && |es| >= 2 && es[0] == Dirent(d, ".") && es[1].name == ".." && 0 < es[1].inum < |t|
      && forall k :: 2 <= k < |es| ==> es[k].inum == 0
  }

  ghost predicate AllWellFormed(t: Tree) {
    forall d {:trigger WellFormed(t, d)} :: Linked(t, d) ==> WellFormed(t, d)
  }

  ghost predicate Inv(t: Tree) {
    Counted(t) && AllWellFormed(t) && Nested(t) && Bare(t)
  }

  // ---- one entry ----

  // The first empty slot, or the end.
  ghost predicate Place(es: seq<Dirent>, k: int) {
    0 <= k <= |es| && (k < |es| ==> es[k].inum == 0) && forall j :: 0 <= j < k ==> es[j].inum != 0
  }

  predicate Matches(e: Dirent, name: string) {
    e.inum != 0 && e.name == name
  }

  ghost predicate Found(es: seq<Dirent>, name: string, k: int) {
    0 <= k < |es| && Matches(es[k], name) && forall j :: 0 <= j < k ==> !Matches(es[j], name)
  }

  ghost predicate Absent(es: seq<Dirent>, name: string) {
    forall k :: 0 <= k < |es| ==> !Matches(es[k], name)
  }

  function PutEntry(es: seq<Dirent>, k: int, e: Dirent): seq<Dirent>
    requires 0 <= k <= |es|
  {
    if k < |es| then es[k := e] else es + [e]
  }

  lemma CountPut(es: seq<Dirent>, k: int, e: Dirent, i: int)
    requires Place(es, k) && i != 0
    ensures CountIn(PutEntry(es, k, e), i) == CountIn(es, i) + if Names(e, i) then 1 else 0
  {
    if k < |es| {
      CountSet(es, k, e, i);
    } else {
      CountAppend(es, e, i);
    }
  }

  // ---- what link, create, unlink and the last iput do to the tree ----

  function Put(t: Tree, d: int, k: int, e: Dirent): Tree
    requires 0 <= d < |t| && 0 <= k <= |t[d].entries|
  {
    t[d := t[d].(entries := PutEntry(t[d].entries, k, e))]
  }

  function AddLinks(t: Tree, i: int, n: int): Tree
    requires 0 <= i < |t|
  {
    t[i := t[i].(nlink := t[i].nlink + n)]
  }

  function WithLink(t: Tree, i: int, d: int, k: int, name: string): Tree
    requires 0 <= i < |t| && 0 <= d < |t| && 0 <= k <= |t[d].entries|
  {
    Put(AddLinks(t, i, 1), d, k, Dirent(i, name))
  }

  function Made(t: Tree, d: int, kind: Kind, i: int): Tree
    requires 0 <= i < |t|
  {
    t[i := Node(kind, 1, if kind == Dir then [Dirent(i, "."), Dirent(d, "..")] else [])]
  }

  function Created(t: Tree, d: int, k: int, name: string, kind: Kind, i: int): Tree
    requires 0 <= i < |t| && 0 <= d < |t| && i != d && 0 <= k <= |t[d].entries|
  {
    Put(AddLinks(Made(t, d, kind, i), d, if kind == Dir then 1 else 0), d, k, Dirent(i, name))
  }

  function Cleared(t: Tree, d: int, k: int): Tree
    requires 0 <= d < |t| && 0 <= k < |t[d].entries|
  {
    t[d := t[d].(entries := t[d].entries[k := Dirent(0, "")])]
  }

  function Unlinked(t: Tree, d: int, k: int): Tree
    requires 0 <= d < |t| && 0 <= k < |t[d].entries| && 0 <= t[d].entries[k].inum < |t|
  {
    var i := t[d].entries[k].inum;
    AddLinks(AddLinks(Cleared(t, d, k), d, if t[i].kind == Dir then -1 else 0), i, -1)
  }

  function Reclaimed(t: Tree, i: int): Tree
    requires 0 <= i < |t|
  {
    t[i := Node(Free, 0, [])]
  }

  // ---- counts after each ----

  // One directory changes; the others stay linked, or not, with the same entries.
  lemma CountOther(t: Tree, t': Tree, d: int, i: int)
    requires |t'| == |t| && 0 <= d < |t|
    requires forall x :: 0 <= x < |t| && x != d ==>
      Linked(t', x) == Linked(t, x)
      && (Linked(t, x) ==> t'[x].entries == t[x].entries)
    ensures Count(t', i) == Count(t, i) + CountOf(t', d, i) - CountOf(t, d, i)
  {
    CountChange(t, t', d, i, |t|);
  }

  // Changing the links of an inode whose being linked does not change.
  lemma CountLinks(t: Tree, i: int, n: int, x: int)
    requires 0 <= i < |t| && (t[i].kind == Dir ==> t[i].nlink > 0 && t[i].nlink + n > 0)
    ensures Count(AddLinks(t, i, n), x) == Count(t, x)
  {
    CountOther(t, AddLinks(t, i, n), i, x);
  }

  lemma CountAfterPut(t: Tree, d: int, k: int, e: Dirent, x: int)
    requires 0 <= d < |t| && Place(t[d].entries, k) && x != 0
    ensures Count(Put(t, d, k, e), x) == Count(t, x) + if Linked(t, d) && Names(e, x) then 1 else 0
  {
    CountOther(t, Put(t, d, k, e), d, x);
    CountPut(t[d].entries, k, e, x);
  }

  lemma CountAfterLink(t: Tree, i: int, d: int, k: int, name: string, x: int)
    requires 0 < i < |t| && t[i].kind != Dir && 0 < d < |t| && t[d].kind == Dir && Place(t[d].entries, k) && name != "."
    requires x != 0
    ensures Count(WithLink(t, i, d, k, name), x) == Count(t, x) + if Linked(t, d) && x == i then 1 else 0
  {
    CountLinks(t, i, 1, x);
    CountAfterPut(AddLinks(t, i, 1), d, k, Dirent(i, name), x);
  }

  lemma CountAfterMade(t: Tree, d: int, kind: Kind, i: int, x: int)
    requires 0 < i < |t| && t[i].kind == Free && 0 < d < |t| && d != i
    ensures Count(Made(t, d, kind, i), x) == Count(t, x) + if kind == Dir && x == d then 1 else 0
  {
    CountOther(t, Made(t, d, kind, i), i, x);
    var es := [Dirent(i, "."), Dirent(d, "..")];
    assert CountIn(es[..1][..0], x) == 0;
    assert CountIn(es[..1], x) == 0;
    assert CountIn(es, x) == if x == d then 1 else 0;
  }

  lemma CountAfterCreate(t: Tree, d: int, k: int, name: string, kind: Kind, i: int, x: int)
    requires 0 < i < |t| && t[i].kind == Free && 0 < d < |t| && t[d].kind == Dir && t[d].nlink >= 0
    requires Place(t[d].entries, k) && name != "." && x != 0
    requires Linked(t, d) || kind != Dir
    ensures Count(Created(t, d, k, name, kind, i), x) == Count(t, x) + (if kind == Dir && x == d then 1 else 0)
      + (if Linked(t, d) && x == i then 1 else 0)
  {
    var m := Made(t, d, kind, i);
    var n := if kind == Dir then 1 else 0;
    CountAfterMade(t, d, kind, i, x);
    assert AddLinks(m, d, 0) == m;
    if Linked(t, d) {
      CountLinks(m, d, n, x);
    }
    CountAfterPut(AddLinks(m, d, n), d, k, Dirent(i, name), x);
  }

  // ---- link ----

  // What dirlink is given: a directory without the name, its first empty slot, and an inode in use for it to name.
  ghost predicate CanLink(t: Tree, d: int, k: int, name: string) {
    0 < d < |t| && t[d].kind == Dir && Place(t[d].entries, k) && Absent(t[d].entries, name) && name != "."
      && name != ".."
  }

  lemma PutWellFormed(t: Tree, t': Tree, d: int, k: int, e: Dirent)
    requires Inv(t) && Linked(t, d) && CanLink(t, d, k, e.name) && 0 < e.inum < |t| == |t'|
    requires t'[d].entries == PutEntry(t[d].entries, k, e)
    requires t'[e.inum].kind != Free && forall x :: 0 < x < |t| && t[x].kind != Free ==> t'[x].kind != Free
    ensures WellFormed(t', d)
  {
    assert WellFormed(t, d);
    hide Counted, Nested, Bare;
  }

  lemma SameWellFormed(t: Tree, t': Tree, d: int)
    requires |t'| == |t| && 0 <= d < |t| && WellFormed(t, d) && t'[d].entries == t[d].entries
    requires forall x :: 0 < x < |t| && t[x].kind != Free ==> t'[x].kind != Free
    ensures WellFormed(t', d)
  {
  }

  lemma LinkKeepsWellFormed(t: Tree, i: int, d: int, k: int, name: string)
    requires Inv(t) && Linked(t, d) && CanLink(t, d, k, name) && 0 < i < |t| && (t[i].kind == File || t[i].kind == Dev)
    ensures AllWellFormed(WithLink(t, i, d, k, name))
  {
    var t' := WithLink(t, i, d, k, name);
    forall x | Linked(t', x) ensures WellFormed(t', x) {
      assert WellFormed(t, x);
      if x == d {
        PutWellFormed(t, t', d, k, Dirent(i, name));
      } else {
        SameWellFormed(t, t', x);
      }
    }
  }

  // From t to t', linked directory d has got an entry for i in an empty slot; i is no directory, or a new one.
  ghost predicate Entered(t: Tree, t': Tree, d: int, k: int, i: int) {
    && |t'| == |t| && 0 < i < |t| && i != d && Linked(t, d) && 2 <= k <= |t[d].entries|
         && (k < |t[d].entries| ==> t[d].entries[k].inum == 0)
    && |t'[d].entries| == (if k < |t[d].entries| then |t[d].entries| else k + 1) && t'[d].entries[k].inum == i
    && (forall j :: 0 <= j < |t[d].entries| && j != k ==> t'[d].entries[j] == t[d].entries[j])
    && (forall x {:trigger Linked(t', x)} :: 0 <= x < |t| && x != i ==>
         Linked(t', x) == Linked(t, x) && t'[x].kind == t[x].kind)
    && (forall x {:trigger t'[x]} :: 0 <= x < |t| && x != i && x != d ==> t'[x].entries == t[x].entries)
    && (if t'[i].kind == Dir
        then t[i].kind == Free && Linked(t', i) && Parent(t', i, d) && |t'[i].entries| == 2
          && forall x, j :: Linked(t, x) ==> !Child(t, x, j, i)
        else t[i].kind != Dir)
  }

  // Children of linked directories are as they were, but for the new one.
  lemma EnteredChild(t: Tree, t': Tree, d: int, k: int, i: int, x: int, j: int, c: int)
    requires Entered(t, t', d, k, i) && c != 0 && Linked(t', x)
    ensures Child(t', x, j, c) <==> (x != i && Child(t, x, j, c)) || (x == d && j == k && c == i)
  {
  }

  lemma EnteredNested(t: Tree, t': Tree, d: int, k: int, i: int)
    requires Nested(t) && Entered(t, t', d, k, i)
    ensures Nested(t')
  {
    hide Housed, PointsBack, OnePlace;
    assert i != ROOT;
    assert Housed(t') by { EnteredHoused(t, t', d, k, i); }
    assert PointsBack(t') by { EnteredPointsBack(t, t', d, k, i); }
    assert OnePlace(t') by { EnteredOnePlace(t, t', d, k, i); }
  }

  lemma EnteredHoused(t: Tree, t': Tree, d: int, k: int, i: int)
    requires Rooted(t) && Housed(t) && Entered(t, t', d, k, i)
    ensures Housed(t')
  {
    forall x | Linked(t', x) && x != ROOT
      ensures |t'[x].entries| >= 2 && Linked(t', t'[x].entries[1].inum) && IsChild(t', t'[x].entries[1].inum, x)
    {
      if x == i {
        EnteredChild(t, t', d, k, i, d, k, i);
        assert Child(t', d, k, i);
      } else {
        var p := t[x].entries[1].inum;
        var j :| Child(t, p, j, x);
        assert p != i;
        if p == d {
          assert Child(t', d, j, x);
        } else {
          assert Child(t', p, j, x);
        }
      }
    }
  }

  lemma EnteredPointsBack(t: Tree, t': Tree, d: int, k: int, i: int)
    requires Rooted(t) && PointsBack(t) && Entered(t, t', d, k, i)
    ensures PointsBack(t')
  {
    forall x, j, c | Linked(t', x) && Child(t', x, j, c) && 0 < c < |t'| && t'[c].kind == Dir
      ensures c != ROOT && Linked(t', c) && Parent(t', c, x)
    {
      EnteredChild(t, t', d, k, i, x, j, c);
    }
  }

  lemma EnteredOnePlace(t: Tree, t': Tree, d: int, k: int, i: int)
    requires OnePlace(t) && Entered(t, t', d, k, i)
    ensures OnePlace(t')
  {
    forall x, j, m, c | Linked(t', x) && Child(t', x, j, c) && Child(t', x, m, c) && 0 < c < |t'| && t'[c].kind == Dir
      ensures j == m
    {
      EnteredChild(t, t', d, k, i, x, j, c);
      EnteredChild(t, t', d, k, i, x, m, c);
      assert x == i || Linked(t, x);
      assert c == i || Linked(t', c) == Linked(t, c);
      assert x != i && c == i ==> !Child(t, x, j, i) && !Child(t, x, m, i);
    }
  }

  lemma LinkKeepsNested(t: Tree, i: int, d: int, k: int, name: string)
    requires Inv(t) && Linked(t, d) && CanLink(t, d, k, name) && 0 < i < |t| && (t[i].kind == File || t[i].kind == Dev)
    ensures Nested(WithLink(t, i, d, k, name))
  {
    var t' := WithLink(t, i, d, k, name);
    assert WellFormed(t, d);
    hide Counted, Nested, Bare;
    assert Entered(t, t', d, k, i);
    EnteredNested(t, t', d, k, i);
  }

  lemma LinkKeepsCounts(t: Tree, i: int, d: int, k: int, name: string)
    requires Inv(t) && CanLink(t, d, k, name) && 0 < i < |t| && (t[i].kind == File || t[i].kind == Dev)
    ensures Counted(WithLink(t, i, d, k, name)) <==> Linked(t, d)
  {
    var t' := WithLink(t, i, d, k, name);
    forall x | 0 < x < |t| ensures Count(t', x) == Count(t, x) + if Linked(t, d) && x == i then 1 else 0 {
      CountAfterLink(t, i, d, k, name, x);
    }
    assert t[i].nlink == Count(t, i);
    hide Count;
    assert t'[i].nlink == t[i].nlink + 1;
  }

  // A link made in a linked directory keeps the link counts right; in a directory that has lost its links it does not.
  lemma LinkKeeps(t: Tree, i: int, d: int, k: int, name: string)
    requires Inv(t) && CanLink(t, d, k, name) && 0 < i < |t| && (t[i].kind == File || t[i].kind == Dev)
    ensures Inv(WithLink(t, i, d, k, name)) <==> Linked(t, d)
  {
    LinkKeepsCounts(t, i, d, k, name);
    if Linked(t, d) {
      LinkKeepsWellFormed(t, i, d, k, name);
      LinkKeepsNested(t, i, d, k, name);
    }
    hide Counted, AllWellFormed, Nested;
  }

  // ---- create ----

  lemma CreateKeepsCounts(t: Tree, d: int, k: int, name: string, kind: Kind, i: int)
    requires Inv(t) && CanLink(t, d, k, name) && 0 < i < |t| && t[i].kind == Free && kind != Free
    requires Linked(t, d) || kind != Dir
    ensures Counted(Created(t, d, k, name, kind, i)) <==> Linked(t, d)
  {
    var t' := Created(t, d, k, name, kind, i);
    assert t[d].nlink == Count(t, d) && t[i].nlink == Count(t, i) == 0;
    forall x | 0 < x < |t|
      ensures Count(t', x) == Count(t, x) + (if kind == Dir && x == d then 1 else 0)
        + (if Linked(t, d) && x == i then 1 else 0)
    {
      CountAfterCreate(t, d, k, name, kind, i, x);
    }
    hide Count;
    assert t'[i].nlink == 1;
  }

  lemma CreateKeepsWellFormed(t: Tree, d: int, k: int, name: string, kind: Kind, i: int)
    requires Inv(t) && Linked(t, d) && CanLink(t, d, k, name) && 0 < i < |t| && t[i].kind == Free && kind != Free
    ensures AllWellFormed(Created(t, d, k, name, kind, i))
  {
    var t' := Created(t, d, k, name, kind, i);
    assert WellFormed(t, d);
    forall x | Linked(t', x) ensures WellFormed(t', x) {
      if x == d {
        PutWellFormed(t, t', d, k, Dirent(i, name));
      } else if x != i {
        assert WellFormed(t, x);
        SameWellFormed(t, t', x);
      }
    }
  }

  // A free inode is named nowhere.
  lemma FreeUnnamed(t: Tree, i: int, d: int, k: int)
    requires Counted(t) && 0 < i < |t| && t[i].nlink == 0 && Linked(t, d) && 0 <= k < |t[d].entries|
    ensures !Names(t[d].entries[k], i)
  {
    assert Count(t, i) == 0;
    CountAtLeast(t, d, i, |t|);
    if Names(t[d].entries[k], i) {
      SomeIn(t[d].entries, i, k);
    }
  }

  lemma FreeIsNoChild(t: Tree, i: int)
    requires AllWellFormed(t) && 0 < i < |t| && t[i].kind == Free
    ensures forall x, j :: Linked(t, x) ==> !Child(t, x, j, i)
  {
    forall x, j | Linked(t, x) ensures !Child(t, x, j, i) {
      assert WellFormed(t, x);
    }
  }

  lemma CreateKeepsNested(t: Tree, d: int, k: int, name: string, kind: Kind, i: int)
    requires Inv(t) && Linked(t, d) && CanLink(t, d, k, name) && 0 < i < |t| && t[i].kind == Free && kind != Free
    ensures Nested(Created(t, d, k, name, kind, i))
  {
    hide Counted, AllWellFormed, Nested, Bare, WellFormed, CanLink, Created, Entered;
    FreeIsNoChild(t, i);
    PastDots(t, d, k, name);
    CreatedEnters(t, d, k, name, kind, i);
    EnteredNested(t, Created(t, d, k, name, kind, i), d, k, i);
  }

  lemma PastDots(t: Tree, d: int, k: int, name: string)
    requires AllWellFormed(t) && Linked(t, d) && CanLink(t, d, k, name)
    ensures 2 <= k <= |t[d].entries| && (k < |t[d].entries| ==> t[d].entries[k].inum == 0)
  {
    assert WellFormed(t, d);
  }

  lemma CreatedEnters(t: Tree, d: int, k: int, name: string, kind: Kind, i: int)
    requires AllWellFormed(t) && Linked(t, d) && CanLink(t, d, k, name) && 0 < i < |t| && t[i].kind == Free
    requires kind != Free
    requires forall x, j :: Linked(t, x) ==> !Child(t, x, j, i)
    ensures Entered(t, Created(t, d, k, name, kind, i), d, k, i)
  {
    PastDots(t, d, k, name);
    hide AllWellFormed, CanLink;
    var n := if kind == Dir then 1 else 0;
    var m := AddLinks(Made(t, d, kind, i), d, n);
    assert m[d].entries == t[d].entries && m[d].nlink == t[d].nlink + n;
  }

  // A directory made in one that has lost its links gives it a link again, but nobody names it.
  lemma CreateBreaksHoused(t: Tree, d: int, k: int, name: string, i: int)
    requires Inv(t) && !Linked(t, d) && CanLink(t, d, k, name) && 0 < i < |t| && t[i].kind == Free
    ensures !Housed(Created(t, d, k, name, Dir, i))
  {
    var t' := Created(t, d, k, name, Dir, i);
    assert t[d].nlink == Count(t, d);
    hide Counted, AllWellFormed, OnePlace, Count;
    assert Linked(t', d) && d != ROOT;
    var p := t'[d].entries[1].inum;
    forall j ensures !Linked(t', p) || !Child(t', p, j, d) {
      assert p != d && p != i ==> Child(t', p, j, d) == Child(t, p, j, d) && Linked(t', p) == Linked(t, p);
    }
  }

  // create keeps the link counts right exactly when the directory it creates in is linked.
  lemma CreateKeeps(t: Tree, d: int, k: int, name: string, kind: Kind, i: int)
    requires Inv(t) && CanLink(t, d, k, name) && 0 < i < |t| && t[i].kind == Free && kind != Free
    ensures Inv(Created(t, d, k, name, kind, i)) <==> Linked(t, d)
  {
    if Linked(t, d) {
      CreateKeepsCounts(t, d, k, name, kind, i);
      CreateKeepsWellFormed(t, d, k, name, kind, i);
      CreateKeepsNested(t, d, k, name, kind, i);
    } else if kind == Dir {
      CreateBreaksHoused(t, d, k, name, i);
    } else {
      CreateKeepsCounts(t, d, k, name, kind, i);
    }
    hide Counted, AllWellFormed, Nested;
  }

  // ---- unlink ----

  ghost predicate Empty(t: Tree, i: int) {
    0 < i < |t| && |t[i].entries| >= 2 && forall j :: 2 <= j < |t[i].entries| ==> t[i].entries[j].inum == 0
  }

  // What sys_unlink clears: an entry other than "." and "..", of a file or of an empty directory.
  ghost predicate CanUnlink(t: Tree, d: int, k: int, name: string) {
    && 0 < d < |t| && t[d].kind == Dir && name != "." && name != ".." && Found(t[d].entries, name, k)
    && 0 < t[d].entries[k].inum < |t| && (t[t[d].entries[k].inum].kind == Dir ==> Empty(t, t[d].entries[k].inum))
  }

  lemma UnlinkFacts(t: Tree, d: int, k: int, name: string)
    requires Inv(t) && CanUnlink(t, d, k, name)
    ensures Linked(t, d) && 2 <= k && Child(t, d, k, t[d].entries[k].inum)
    ensures var i := t[d].entries[k].inum;
      0 < i < |t| && t[i].kind != Free && Names(t[d].entries[k], i)
      && (t[i].kind == Dir ==> i != d && i != ROOT && Linked(t, i) && Parent(t, i, d))
  {
    hide Counted;
    if Linked(t, d) {
      assert WellFormed(t, d);
    }
    assert Child(t, d, k, t[d].entries[k].inum);
  }

  lemma {:induction false} CountTwo(t: Tree, a: int, b: int, i: int, n: nat)
    requires 0 <= a < n <= |t| && 0 <= b < n && a != b
    ensures CountUpTo(t, i, n) >= CountOf(t, a, i) + CountOf(t, b, i)
  {
    if n - 1 == a {
      CountAtLeast(t, b, i, n - 1);
    } else if n - 1 == b {
      CountAtLeast(t, a, i, n - 1);
    } else {
      CountTwo(t, a, b, i, n - 1);
    }
  }

  // Nobody's parent is an empty directory.
  lemma NoParent(t: Tree, i: int, x: int, j: int)
    requires Inv(t) && Empty(t, i) && i != ROOT && t[i].kind == Dir && Linked(t, i) && Linked(t, x)
    requires 0 <= j < |t[x].entries| && Names(t[x].entries[j], i)
    ensures 2 <= j && Child(t, x, j, i) && Parent(t, i, x)
  {
    assert WellFormed(t, x);
    assert forall m {:trigger Child(t, i, m, x)} :: !Child(t, i, m, x);
    hide Counted, Bare;
    assert j != 1 ==> Child(t, x, j, i);
  }

  // An empty directory has one link, in its parent.
  lemma OneLink(t: Tree, d: int, k: int, name: string)
    requires Inv(t) && CanUnlink(t, d, k, name) && t[t[d].entries[k].inum].kind == Dir
    ensures Count(t, t[d].entries[k].inum) == 1 && t[t[d].entries[k].inum].nlink == 1
  {
    var i := t[d].entries[k].inum;
    UnlinkFacts(t, d, k, name);
    forall x | 0 <= x < |t| && x != d ensures CountOf(t, x, i) == 0 {
      if Linked(t, x) {
        forall j | 0 <= j < |t[x].entries| ensures !Names(t[x].entries[j], i) {
          if Names(t[x].entries[j], i) {
            NoParent(t, i, x, j);
          }
        }
        NoneIn(t[x].entries, i);
      }
    }
    forall j | 0 <= j < |t[d].entries| && j != k ensures !Names(t[d].entries[j], i) {
      if Names(t[d].entries[j], i) {
        NoParent(t, i, d, j);
      }
    }
    OneIn(t[d].entries, i, k);
    CountOnly(t, d, i, |t|);
    assert t[i].nlink == Count(t, i);
  }

  // Its parent has two at least: one of its own, and the ".." in the empty directory.
  lemma TwoLinks(t: Tree, d: int, k: int, name: string)
    requires Inv(t) && CanUnlink(t, d, k, name) && t[t[d].entries[k].inum].kind == Dir
    ensures t[d].nlink >= 2
  {
    var i := t[d].entries[k].inum;
    UnlinkFacts(t, d, k, name);
    assert WellFormed(t, i) && WellFormed(t, d);
    SomeIn(t[i].entries, d, 1);
    if d == ROOT {
      SomeIn(t[d].entries, d, 1);
      CountTwo(t, d, i, d, |t|);
    } else {
      var p := t[d].entries[1].inum;
      var j :| Child(t, p, j, d);
      assert WellFormed(t, p);
      SomeIn(t[p].entries, d, j);
      CountTwo(t, p, i, d, |t|);
    }
    assert t[d].nlink == Count(t, d);
  }

  // The tree when only the entry has been cleared.
  lemma CountAfterClear(t: Tree, d: int, k: int, x: int)
    requires Linked(t, d) && 0 <= k < |t[d].entries| && x != 0
    ensures Count(Cleared(t, d, k), x) == Count(t, x) - if Names(t[d].entries[k], x) then 1 else 0
  {
    CountOther(t, Cleared(t, d, k), d, x);
    CountSet(t[d].entries, k, Dirent(0, ""), x);
  }

  // An empty directory that loses its last link takes the ".." in it along.
  lemma CountAfterRemove(t: Tree, i: int, d: int, x: int)
    requires Empty(t, i) && t[i].kind == Dir && t[i].nlink == 1 && WellFormed(t, i) && Parent(t, i, d) && x != 0
    ensures Count(AddLinks(t, i, -1), x) == Count(t, x) - if x == d then 1 else 0
  {
    CountOther(t, AddLinks(t, i, -1), i, x);
    var es := t[i].entries;
    if x == d {
      OneIn(es, x, 1);
    } else {
      NoneIn(es, x);
    }
  }

  lemma UnlinkCounts(t: Tree, d: int, k: int, name: string, x: int)
    requires Inv(t) && CanUnlink(t, d, k, name) && 0 < x < |t|
    ensures Count(Unlinked(t, d, k), x) == Unlinked(t, d, k)[x].nlink
  {
    UnlinkFacts(t, d, k, name);
    var i := t[d].entries[k].inum;
    var c := Cleared(t, d, k);
    assert t[x].nlink == Count(t, x);
    CountAfterClear(t, d, k, x);
    if t[i].kind == Dir {
      OneLink(t, d, k, name);
      TwoLinks(t, d, k, name);
      CountLinks(c, d, -1, x);
      assert WellFormed(t, i);
      SameWellFormed(t, AddLinks(c, d, -1), i);
      CountAfterRemove(AddLinks(c, d, -1), i, d, x);
    } else {
      assert AddLinks(c, d, 0) == c;
      CountLinks(c, i, -1, x);
    }
  }

  // From t to t', linked directory d has lost its entry at k; the directory it named, if it was one, has lost its link.
  ghost predicate Left(t: Tree, t': Tree, d: int, k: int, i: int) {
    && |t'| == |t| && 0 < i < |t| && Linked(t, d) && Child(t, d, k, i)
    && t'[d].entries == t[d].entries[k := Dirent(0, "")]
    && (forall x {:trigger t'[x]} :: 0 <= x < |t| ==>
         t'[x].kind == t[x].kind
         && (x != d ==> t'[x].entries == t[x].entries))
    && (forall x {:trigger Linked(t', x)} :: Linked(t', x) <==> Linked(t, x) && (x != i || t[i].kind != Dir))
    && (t[i].kind == Dir ==> i != d && i != ROOT && Empty(t, i))
  }

  lemma LeftHoused(t: Tree, t': Tree, d: int, k: int, i: int)
    requires Nested(t) && Left(t, t', d, k, i)
    ensures Housed(t')
  {
    forall x | Linked(t', x) && x != ROOT
      ensures |t'[x].entries| >= 2 && Linked(t', t'[x].entries[1].inum) && IsChild(t', t'[x].entries[1].inum, x)
    {
      var p := t[x].entries[1].inum;
      var j :| Child(t, p, j, x);
      assert Child(t', p, j, x);
    }
  }

  lemma LeftChild(t: Tree, t': Tree, d: int, k: int, i: int, x: int, j: int, c: int)
    requires Left(t, t', d, k, i) && c != 0
    ensures Child(t', x, j, c) <==> Child(t, x, j, c) && !(x == d && j == k)
  {
  }

  lemma LeftPointsBack(t: Tree, t': Tree, d: int, k: int, i: int)
    requires Nested(t) && Left(t, t', d, k, i)
    ensures PointsBack(t') && OnePlace(t')
  {
    forall x, j, c | Linked(t', x) && Child(t', x, j, c) && 0 < c < |t'| && t'[c].kind == Dir
      ensures c != ROOT && Linked(t', c) && Parent(t', c, x)
    {
      LeftChild(t, t', d, k, i, x, j, c);
      assert c == i ==> x == d;
    }
    forall x, j, m, c | Linked(t', x) && Child(t', x, j, c) && Child(t', x, m, c) && 0 < c < |t'| && t'[c].kind == Dir
      ensures j == m
    {
      LeftChild(t, t', d, k, i, x, j, c);
      LeftChild(t, t', d, k, i, x, m, c);
    }
  }

  lemma LeftKeeps(t: Tree, t': Tree, d: int, k: int, i: int)
    requires Inv(t) && Left(t, t', d, k, i)
    ensures AllWellFormed(t') && Nested(t') && Bare(t')
  {
    LeftHoused(t, t', d, k, i);
    LeftPointsBack(t, t', d, k, i);
    forall x | Linked(t', x) ensures WellFormed(t', x) {
      assert WellFormed(t, x);
    }
    if t[i].kind == Dir && Linked(t, i) {
      assert WellFormed(t, i);
    }
  }

  // Every unlink keeps the link counts right.
  lemma UnlinkKeeps(t: Tree, d: int, k: int, name: string)
    requires Inv(t) && CanUnlink(t, d, k, name)
    ensures t[t[d].entries[k].inum].nlink >= 1 && Inv(Unlinked(t, d, k))
  {
    UnlinkFacts(t, d, k, name);
    var i := t[d].entries[k].inum;
    var t' := Unlinked(t, d, k);
    assert t[i].nlink == Count(t, i);
    CountAtLeast(t, d, i, |t|);
    SomeIn(t[d].entries, i, k);
    forall x | 0 < x < |t| ensures t'[x].nlink == Count(t', x) && (t'[x].kind == Free ==> t'[x].nlink == 0) {
      UnlinkCounts(t, d, k, name, x);
      assert t[x].nlink == Count(t, x);
    }
    if t[i].kind == Dir {
      OneLink(t, d, k, name);
      TwoLinks(t, d, k, name);
    }
    hide Count, CountUpTo, Nested, Bare;
    assert Left(t, t', d, k, i);
    LeftKeeps(t, t', d, k, i);
  }

  // ---- the last iput ----

  lemma ReclaimKeepsCounts(t: Tree, i: int)
    requires Counted(t) && 0 < i < |t| && t[i].nlink == 0
    ensures Counted(Reclaimed(t, i))
  {
    var t' := Reclaimed(t, i);
    forall x | 0 < x < |t| ensures t'[x].nlink == Count(t', x) && (t'[x].kind == Free ==> t'[x].nlink == 0) {
      assert t[x].nlink == Count(t, x);
      CountOther(t, t', i, x);
    }
  }

  lemma ReclaimKeepsWellFormed(t: Tree, i: int)
    requires Inv(t) && 0 < i < |t| && t[i].nlink == 0
    ensures AllWellFormed(Reclaimed(t, i))
  {
    hide Nested, Bare;
    var t' := Reclaimed(t, i);
    forall d | Linked(t', d) ensures WellFormed(t', d) {
      assert WellFormed(t, d);
      forall k | 0 <= k < |t[d].entries| ensures t[d].entries[k].inum != i {
        FreeUnnamed(t, i, d, k);
      }
    }
  }

  lemma ReclaimKeepsNested(t: Tree, i: int)
    requires Nested(t) && 0 < i < |t| && t[i].nlink == 0
    ensures Nested(Reclaimed(t, i))
  {
    var t' := Reclaimed(t, i);
    assert Housed(t') by {
      forall x | Linked(t', x) && x != ROOT
        ensures |t'[x].entries| >= 2 && Linked(t', t'[x].entries[1].inum) && IsChild(t', t'[x].entries[1].inum, x)
      {
        assert Linked(t, x);
        var j :| Child(t, t[x].entries[1].inum, j, x);
        assert Child(t', t[x].entries[1].inum, j, x);
      }
    }
    assert forall x, j, c {:trigger Child(t', x, j, c)} :: Linked(t', x) && Child(t', x, j, c) ==> Child(t, x, j, c);
  }

  // No entry in a linked directory names an inode without links, so it can be given up.
  lemma ReclaimKeeps(t: Tree, i: int)
    requires Inv(t) && 0 < i < |t| && t[i].nlink == 0 && t[i].kind != Free
    ensures Inv(Reclaimed(t, i))
  {
    ReclaimKeepsCounts(t, i);
    ReclaimKeepsWellFormed(t, i);
    ReclaimKeepsNested(t, i);
    hide Counted, AllWellFormed, Nested;
  }

  // ---- every run ----

  datatype Event =
    | Link(i: int, d: int, k: int, name: string)
    | Create(d: int, k: int, name: string, kind: Kind, i: int)
    | Unlink(d: int, k: int, name: string)
    | Reclaim(i: int) // iput of the last reference

  ghost predicate Enabled(t: Tree, e: Event) {
    match e
    case Link(i, d, k, name) => CanLink(t, d, k, name) && 0 < i < |t| && (t[i].kind == File || t[i].kind == Dev)
    case Create(d, k, name, kind, i) => CanLink(t, d, k, name) && 0 < i < |t| && t[i].kind == Free && kind != Free
    case Unlink(d, k, name) => CanUnlink(t, d, k, name)
    case Reclaim(i) => 0 < i < |t| && t[i].nlink == 0 && t[i].kind != Free
  }

  ghost function Step(t: Tree, e: Event): Tree
    requires Enabled(t, e)
  {
    match e
    case Link(i, d, k, name) => WithLink(t, i, d, k, name)
    case Create(d, k, name, kind, i) => Created(t, d, k, name, kind, i)
    case Unlink(d, k, name) => Unlinked(t, d, k)
    case Reclaim(i) => Reclaimed(t, i)
  }

  // The step puts a name into a directory that has lost its links: one removed while it is a process's cwd.
  predicate Orphans(t: Tree, e: Event) {
    match e
    case Link(i, d, k, name) => !Linked(t, d)
    case Create(d, k, name, kind, i) => !Linked(t, d)
    case _ => false
  }

  lemma StepKeeps(t: Tree, e: Event)
    requires Inv(t) && Enabled(t, e)
    ensures Inv(Step(t, e)) <==> !Orphans(t, e)
  {
    hide Inv;
    match e {
      case Link(i, d, k, name) => LinkKeeps(t, i, d, k, name);
      case Create(d, k, name, kind, i) => CreateKeeps(t, d, k, name, kind, i);
      case Unlink(d, k, name) => UnlinkKeeps(t, d, k, name);
      case Reclaim(i) => ReclaimKeeps(t, i);
    }
  }

  ghost predicate IsRun(ts: seq<Tree>, es: seq<Event>) {
    |ts| == |es| + 1 && forall k :: 0 <= k < |es| ==> Enabled(ts[k], es[k]) && ts[k + 1] == Step(ts[k], es[k])
  }

  // The root directory alone.
  ghost predicate Boot(t: Tree) {
    && 1 < |t| && t[ROOT] == Node(Dir, 1, [Dirent(ROOT, "."), Dirent(ROOT, "..")])
    && forall i :: 1 < i < |t| ==> t[i].kind == Free && t[i].nlink == 0
  }

  lemma BootInv(t: Tree)
    requires Boot(t)
    ensures Inv(t)
  {
    forall x | 0 < x < |t| ensures Count(t, x) == t[x].nlink {
      CountOnly(t, ROOT, x, |t|);
      if x == ROOT {
        OneIn(t[ROOT].entries, x, 1);
      } else {
        NoneIn(t[ROOT].entries, x);
      }
    }
  }

  // In every run from a fresh file system in which no name is put into a removed directory, link counts equal the
  // entries that name each inode, and no linked directory holds a name twice.
  lemma {:induction false} RunsKeepInv(ts: seq<Tree>, es: seq<Event>, n: nat)
    requires IsRun(ts, es) && Boot(ts[0]) && n <= |es| && forall k :: 0 <= k < n ==> !Orphans(ts[k], es[k])
    ensures Inv(ts[n])
  {
    hide Inv, Boot, Enabled, Step, Orphans;
    if n == 0 {
      BootInv(ts[0]);
    } else {
      RunsKeepInv(ts, es, n - 1);
      StepKeeps(ts[n - 1], es[n - 1]);
    }
  }

  // A process can still have a removed directory as its cwd. Boot, mkdir, rmdir: inode 2 holds nothing but its dots,
  // so create and link accept a name in it, and a file made there has a link that no linked directory holds.
  function AfterRmdir(): Tree {
    var root := Node(Dir, 1, [Dirent(ROOT, "."), Dirent(ROOT, "..")]);
    var free := Node(Free, 0, []);
    Unlinked(Created([free, root, free, free], ROOT, 2, "d", Dir, 2), ROOT, 2)
  }

  lemma RemovedTakesNames()
    ensures var t := AfterRmdir();
      Inv(t) && CanLink(t, 2, 2, "a") && !Linked(t, 2) && !Inv(Created(t, 2, 2, "a", File, 3))
  {
    var root, free := Node(Dir, 1, [Dirent(ROOT, "."), Dirent(ROOT, "..")]), Node(Free, 0, []);
    var t0 := [free, root, free, free];
    BootInv(t0);
    assert CanLink(t0, ROOT, 2, "d") && Linked(t0, ROOT);
    CreateKeeps(t0, ROOT, 2, "d", Dir, 2);
    var t1 := Created(t0, ROOT, 2, "d", Dir, 2);
    assert t1[ROOT].entries == [Dirent(ROOT, "."), Dirent(ROOT, ".."), Dirent(2, "d")];
    assert CanUnlink(t1, ROOT, 2, "d");
    UnlinkKeeps(t1, ROOT, 2, "d");
    var t := AfterRmdir();
    assert t[2] == Node(Dir, 0, [Dirent(2, "."), Dirent(ROOT, "..")]) && t[3] == free;
    CreateKeeps(t, 2, 2, "a", File, 3);
  }
}
