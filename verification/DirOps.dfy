/** The directory system calls on the table of inodes: what they look up, write and roll back. */
module DirOps {
  import opened Directories
  import FsFiles

  // NoBlock: the disk blocks for a longer directory are not there, so that the write does not return normally.
  datatype Status = Ok | Error | Panic | NoBlock

  const DIRENT := 16 // bytes

  // Blocks a directory lacks for an entry at k.
  function Needs(es: seq<Dirent>, k: int): int {
    if k < |es| then 0 else FsFiles.BlocksFor(DIRENT * (k + 1)) - FsFiles.BlocksFor(DIRENT * k)
  }

  // How an attempt to put an entry into a directory ends when its first empty slot is k.
  function PutStatus(es: seq<Dirent>, k: int, free: int): Status {
    if k == MAXENTRIES then Panic else if Needs(es, k) > free then NoBlock else Ok
  }

  class FileTree {
    const nodes: array<Node> // by inode number
    var free: nat            // data blocks not in use

    ghost predicate Valid()
      reads this, nodes
    {
      Inv(nodes[..])
    }

    // dirlookup: the place of the first entry with the name, or -1.
    method DirLookup(d: int, name: string) returns (k: int)
      requires 0 <= d < nodes.Length && nodes[d].kind == Dir // else panic "dirlookup not DIR"
      ensures k == -1 ==> Absent(nodes[d].entries, name)
      ensures k != -1 ==> Found(nodes[d].entries, name, k)
      ensures forall j :: 0 <= j < (if k == -1 then |nodes[d].entries| else k) ==>
        j < |nodes[d].entries| && (nodes[d].entries[j].inum == 0 || nodes[d].entries[j].name != name)
      ensures k != -1 ==>
        0 <= k < |nodes[d].entries| && nodes[d].entries[k].inum != 0 && nodes[d].entries[k].name == name
    {
      k := 0;
      while k < |nodes[d].entries|
        invariant 0 <= k <= |nodes[d].entries|
        invariant forall j :: 0 <= j < k ==> !Matches(nodes[d].entries[j], name)
      {
        if nodes[d].entries[k].inum != 0 && nodes[d].entries[k].name == name {
          return;
        }
        k := k + 1;
      }
      k := -1;
    }

    // dirlink's search for a slot.
    method EmptySlot(d: int) returns (k: int)
      requires 0 <= d < nodes.Length
      ensures Place(nodes[d].entries, k)
    {
      k := 0;
      while k < |nodes[d].entries|
        invariant 0 <= k <= |nodes[d].entries| && forall j :: 0 <= j < k ==> nodes[d].entries[j].inum != 0
      {
        if nodes[d].entries[k].inum == 0 {
          return;
        }
        k := k + 1;
      }
    }

    // writei of one entry at slot k: Panic when the directory has its largest size.
    method WriteDirent(d: int, k: int, e: Dirent) returns (r: Status)
      requires 0 <= d < nodes.Length && 0 <= k <= |nodes[d].entries|
      modifies nodes, this`free
      ensures r == PutStatus(old(nodes[d].entries), k, old(free))
      ensures r == Ok ==>
        nodes[..] == Put(old(nodes[..]), d, k, e)
        && free == old(free) - Needs(old(nodes[d].entries), k)
      ensures r != Ok ==> nodes[..] == old(nodes[..]) && free == old(free)
    {
      if k == MAXENTRIES {
        return Panic;
      }
      var n := Needs(nodes[d].entries, k);
      if n > free {
        return NoBlock;
      }
      free := free - n;
      nodes[d] := nodes[d].(entries := PutEntry(nodes[d].entries, k, e));
      return Ok;
    }

    // dirlink: Error when the name is there already.
    method DirLink(d: int, name: string, inum: int) returns (r: Status, k: int)
      requires 0 <= d < nodes.Length && nodes[d].kind == Dir
      modifies nodes, this`free
      ensures r == Error <==> !Absent(old(nodes[d].entries), name)
      ensures r != Error ==> Place(old(nodes[d].entries), k) && r == PutStatus(old(nodes[d].entries), k, old(free))
      ensures r == Ok ==>
        nodes[..] == Put(old(nodes[..]), d, k, Dirent(inum, name))
          && free == old(free) - Needs(old(nodes[d].entries), k)
      ensures r != Ok ==> nodes[..] == old(nodes[..]) && free == old(free)
    {
      k := DirLookup(d, name);
      if k != -1 {
        return Error, k;
      }
      k := EmptySlot(d);
      r := WriteDirent(d, k, Dirent(inum, name));
    }

    method IsDirEmpty(i: int) returns (empty: bool)
      requires 0 <= i < nodes.Length
      ensures empty <==> forall j :: 2 <= j < |nodes[i].entries| ==> nodes[i].entries[j].inum == 0
    {
      var j := 2;
      while j < |nodes[i].entries|
        invariant 2 <= j && forall x :: 2 <= x < j && x < |nodes[i].entries| ==> nodes[i].entries[x].inum == 0
      {
        if nodes[i].entries[j].inum != 0 {
          return false;
        }
        j := j + 1;
      }
      return true;
    }

    // sys_link, once namei(old) has given i; d is what nameiparent(new) gives, 0 for nothing.
    method Link(i: int, d: int, elem: string) returns (r: Status, ghost k: int)
      requires Valid() && 0 < i < nodes.Length && nodes[i].kind != Free
      requires d == 0 || (0 < d < nodes.Length && nodes[d].kind == Dir)
      modifies nodes, this`free
      ensures r == Error <==> old(nodes[i].kind) == Dir || d == 0 || !Absent(old(nodes[d].entries), Name(elem))
      ensures r != Error ==>
        CanLink(old(nodes[..]), d, k, Name(elem)) && r == PutStatus(old(nodes[d].entries), k, old(free))
      ensures r == Error ==> nodes[..] == old(nodes[..]) && free == old(free)
      ensures r == Ok ==> nodes[..] == WithLink(old(nodes[..]), i, d, k, Name(elem))
      // Inode by inode.
      ensures r == Ok ==>
        && 0 < d < nodes.Length && 0 <= k <= |old(nodes[d].entries)|
        && forall x :: 0 <= x < nodes.Length ==>
        nodes[x] == old(nodes[x]).(
          nlink := old(nodes[x].nlink) + if x == i then 1 else 0,
          entries := if x == d then WithEntry(old(nodes[d].entries), k, i, elem) else old(nodes[x].entries))
      ensures r == Ok ==> free == old(free) - Needs(old(nodes[d].entries), k)
    {
      k := 0;
      if nodes[i].kind == Dir {
        return Error, 0;
      }
      ghost var t := nodes[..];
      nodes[i] := nodes[i].(nlink := nodes[i].nlink + 1);
      assert nodes[..] == AddLinks(t, i, 1);
      r := Error;
      if d != 0 {
        DotsPresent(t, d);
        r, k := DirLink(d, Name(elem), i);
      }
      if r == Error {
        nodes[i] := nodes[i].(nlink := nodes[i].nlink - 1);
        assert nodes[..] == t;
      }
    }

    // ialloc: an inode number, or 0 when there is none left.
    method Ialloc(kind: Kind) returns (i: int)
      modifies nodes
      ensures i == 0 ==> nodes[..] == old(nodes[..]) && forall j :: 0 < j < nodes.Length ==> nodes[j].kind != Free
      ensures i != 0 ==>
        0 < i < nodes.Length && old(nodes[i].kind) == Free
        && nodes[..] == old(nodes[..])[i := Node(kind, 0, [])]
    {
      i := 1;
      while i < nodes.Length
        invariant 1 <= i && forall j :: 0 < j < i && j < nodes.Length ==> nodes[j].kind != Free
        invariant nodes[..] == old(nodes[..])
      {
        if nodes[i].kind == Free {
          nodes[i] := Node(kind, 0, []);
          return;
        }
        i := i + 1;
      }
      i := 0;
    }

    // The two entries of the new directory i in d.
    method Dots(i: int, d: int) returns (r: Status)
      requires 0 < i < nodes.Length && nodes[i].kind == Dir && nodes[i].entries == []
      modifies nodes, this`free
      ensures r == if old(free) < 1 then NoBlock else Ok
      ensures r == Ok ==> free == old(free) - 1
      ensures r == Ok ==>
        nodes[..] == old(nodes[..])[i := old(nodes[i]).(entries := [Dirent(i, "."), Dirent(d, "..")])]
    {
      FirstDirent();
      var k;
      r, k := DirLink(i, ".", i);
      if r == Ok {
        assert nodes[i].entries == [Dirent(i, ".")];
        r, k := DirLink(i, "..", d);
        assert nodes[i].entries == [Dirent(i, "."), Dirent(d, "..")];
      }
    }

    // create, once nameiparent(path) has given d. A name that is there already is answered with its inode when both are
    // plain files; ilock panics on a free inode, which the ".." of a removed directory can name.
    method Create(d: int, elem: string, kind: Kind) returns (r: Status, i: int, ghost k: int)
      requires Valid() && 0 < d < nodes.Length && nodes[d].kind == Dir && kind != Free
      modifies nodes, this`free
      ensures !Absent(old(nodes[d].entries), Name(elem)) ==>
        && Found(old(nodes[d].entries), Name(elem), k) && 0 < old(nodes[d].entries)[k].inum < nodes.Length
        && r == ExistingStatus(old(nodes[..]), old(nodes[d].entries)[k].inum, kind)
        && (r == Ok ==> i == old(nodes[d].entries)[k].inum) && nodes[..] == old(nodes[..]) && free == old(free)
      ensures Absent(old(nodes[d].entries), Name(elem)) ==>
        && CanLink(old(nodes[..]), d, k, Name(elem))
        && r == CreateStatus(old(nodes[..]), d, k, kind, old(free))
        && (r == Ok ==> 0 < i < nodes.Length && old(nodes[i].kind) == Free)
        && (r == Ok ==> nodes[..] == Created(old(nodes[..]), d, k, Name(elem), kind, i))
      // How it ends, in plain terms, and the new inode and entry, inode by inode.
      ensures !Absent(old(nodes[d].entries), Name(elem)) ==>
        var c := old(nodes[..])[old(nodes[d].entries)[k].inum].kind;
        (r == Ok <==> kind == File && c == File) && (r == Panic <==> c == Free) && r != NoBlock
      ensures Absent(old(nodes[d].entries), Name(elem)) ==>
        var es, free0 := old(nodes[d].entries), old(free);
        var needed := (if k == |es| && k % 32 == 0 then 1 else 0) + (if k == |es| == 384 then 1 else 0);
        var block, none := if kind == Dir then 1 else 0, forall j :: 0 < j < nodes.Length ==>
          old(nodes[j].kind) != Free;
        && (r == Panic <==> none || (k == 4480 && block <= free0))
        && (r == NoBlock <==> !none && (block > free0 || (k != 4480 && block + needed > free0)))
        && r != Error
      ensures r == Ok && Absent(old(nodes[d].entries), Name(elem)) ==>
        && 0 <= k <= |old(nodes[d].entries)| && i != d
        && nodes[i] == Node(kind, 1, if kind == Dir then [Dirent(i, "."), Dirent(d, "..")] else [])
        && forall x :: 0 <= x < nodes.Length && x != i ==>
             nodes[x] == old(nodes[x]).(
               nlink := old(nodes[x].nlink) + if x == d && kind == Dir then 1 else 0,
               entries := if x == d then WithEntry(old(nodes[d].entries), k, i, elem) else old(nodes[x].entries))
    {
      hide Inv, Needs, Place, ExistingStatus, WithEntry, PutStatus;
      ghost var t, f := nodes[..], free;
      var at := DirLookup(d, Name(elem));
      k := at;
      if at != -1 {
        FoundInRange(t, d, at, Name(elem));
        ExistingIs(t, t[d].entries[at].inum, kind);
        i := nodes[d].entries[at].inum;
        if nodes[i].kind == Free {
          return Panic, 0, k;
        }
        if kind == File && nodes[i].kind == File {
          return Ok, i, k;
        }
        return Error, 0, k;
      }
      DotsPresent(t, d);
      k := EmptySlot(d);
      StatusIs(t, d, k, kind, f);
      i := Ialloc(kind);
      if i == 0 {
        return Panic, 0, k;
      }
      nodes[i] := nodes[i].(nlink := 1);
      if kind == Dir {
        nodes[d] := nodes[d].(nlink := nodes[d].nlink + 1);
        r := Dots(i, d);
        if r != Ok {
          return r, 0, k;
        }
      }
      assert nodes[i] == Made(t, d, kind, i)[i];
      assert nodes[..] == AddLinks(Made(t, d, kind, i), d, if kind == Dir then 1 else 0);
      ghost var k0 := k;
      r, k := DirLink(d, Name(elem), i);
      FirstPlace(t[d].entries, k, k0);
      CreatedIs(t, d, k, elem, kind, i);
    }

    // sys_unlink, once nameiparent(path) has given d.
    method Unlink(d: int, elem: string) returns (r: Status, ghost k: int)
      requires Valid() && 0 < d < nodes.Length && nodes[d].kind == Dir
      modifies nodes
      ensures r != Panic && r != NoBlock
      ensures r == Ok <==> exists j :: CanUnlink(old(nodes[..]), d, j, Name(elem))
      ensures r == Error ==> nodes[..] == old(nodes[..])
      ensures r == Ok ==> CanUnlink(old(nodes[..]), d, k, Name(elem)) && nodes[..] == Unlinked(old(nodes[..]), d, k)
      // Inode by inode: the entry is emptied, its inode has a link less, and the parent of a directory too.
      ensures r == Ok ==> 0 <= k < |old(nodes[d].entries)| && forall x :: 0 <= x < nodes.Length ==>
        var i := old(nodes[d].entries)[k].inum;
        && 0 < i < nodes.Length && i != d
        && nodes[x] == old(nodes[x]).(
             nlink := old(nodes[x].nlink) - if x == i || (x == d && old(nodes[..])[i].kind == Dir) then 1 else 0,
             entries := if x == d then old(nodes[d].entries)[k := Dirent(0, "")] else old(nodes[x].entries))
    {
      hide Inv, Absent;
      ghost var t := nodes[..];
      var name := Name(elem);
      k := -1;
      if name == "." || name == ".." {
        return Error, k;
      }
      var at := DirLookup(d, name);
      k := at;
      if at == -1 {
        return Error, k;
      }
      FoundLater(t, d, at, name);
      var i := nodes[d].entries[at].inum;
      if nodes[i].nlink < 1 {
        FoundHasLinks(t, d, at);
        return Panic, k;
      }
      if nodes[i].kind == Dir {
        var empty := IsDirEmpty(i);
        if !empty {
          OneFound(t[d].entries, name, at);
          return Error, k;
        }
      }
      assert CanUnlink(t, d, at, name);
      UnlinkFacts(t, d, at, name);
      nodes[d] := nodes[d].(entries := nodes[d].entries[at := Dirent(0, "")]);
      if nodes[i].kind == Dir {
        nodes[d] := nodes[d].(nlink := nodes[d].nlink - 1);
      }
      nodes[i] := nodes[i].(nlink := nodes[i].nlink - 1);
      assert nodes[..] == Unlinked(t, d, at);
      return Ok, at;
    }
  }

  // The entries with one for i, under the first 14 characters of the name, at k.
  function WithEntry(es: seq<Dirent>, k: int, i: int, elem: string): seq<Dirent>
    requires 0 <= k <= |es|
  {
    var e := Dirent(i, if |elem| <= 14 then elem else elem[..14]);
    if k < |es| then es[k := e] else es + [e]
  }

  // A directory that grows needs a block for every 32 entries, and the indirect block for the 385th.
  lemma NeedsIs(es: seq<Dirent>)
    ensures forall k :: 0 <= k <= |es| ==>
      Needs(es, k) == (if k == |es| && k % 32 == 0 then 1 else 0) + (if k == |es| == 384 then 1 else 0)
  {
    forall k | 0 <= k <= |es|
      ensures Needs(es, k) == (if k == |es| && k % 32 == 0 then 1 else 0) + (if k == |es| == 384 then 1 else 0)
    {
      assert (16 * (k + 1) + 511) / 512 == k / 32 + 1;
      assert (16 * k + 511) / 512 == (k + 31) / 32;
    }
  }

  lemma ExistingIs(t: Tree, i: int, kind: Kind)
    requires 0 < i < |t|
    ensures ExistingStatus(t, i, kind) ==
      if t[i].kind == Free then Panic else if kind == File && t[i].kind == File then Ok else Error
  {
  }

  lemma StatusIs(t: Tree, d: int, k: int, kind: Kind, free: nat)
    requires 0 < d < |t| && 0 <= k <= |t[d].entries|
    ensures var r, es := CreateStatus(t, d, k, kind, free), t[d].entries;
      var needed := (if k == |es| && k % 32 == 0 then 1 else 0) + (if k == |es| == 384 then 1 else 0);
      var block, none := if kind == Dir then 1 else 0, forall j :: 0 < j < |t| ==> t[j].kind != Free;
      && (r == Panic <==> none || (k == 4480 && block <= free))
      && (r == NoBlock <==> !none && (block > free || (k != 4480 && block + needed > free)))
      && r != Error
  {
    NeedsIs(t[d].entries);
  }

  lemma CreatedIs(t: Tree, d: int, k: int, elem: string, kind: Kind, i: int)
    requires 0 <= i < |t| && 0 <= d < |t| && i != d && 0 <= k <= |t[d].entries|
    ensures var c := Created(t, d, k, Name(elem), kind, i);
      && |c| == |t|
      && c[i] == Node(kind, 1, if kind == Dir then [Dirent(i, "."), Dirent(d, "..")] else [])
      && forall x :: 0 <= x < |t| && x != i ==>
           c[x] == t[x].(nlink := t[x].nlink + if x == d && kind == Dir then 1 else 0,
                         entries := if x == d then WithEntry(t[d].entries, k, i, elem) else t[x].entries)
  {
  }

  function ExistingStatus(t: Tree, i: int, kind: Kind): Status
    requires 0 < i < |t|
  {
    if t[i].kind == Free then Panic else if kind == File && t[i].kind == File then Ok else Error
  }

  // How create ends for a name that is not there: an inode, then the new directory's block, then the entry.
  ghost function CreateStatus(t: Tree, d: int, k: int, kind: Kind, free: int): Status
    requires 0 < d < |t|
  {
    var block := if kind == Dir then 1 else 0;
    if forall j :: 0 < j < |t| ==> t[j].kind != Free then Panic
    else if block > free then NoBlock
    else PutStatus(t[d].entries, k, free - block)
  }

  // "." takes a new directory's first block, and ".." fits into it.
  lemma FirstDirent()
    ensures forall es: seq<Dirent> :: |es| == 0 ==> Needs(es, 0) == 1
    ensures forall es: seq<Dirent> :: |es| == 1 ==> Needs(es, 1) == 0
  {
  }

  lemma FirstPlace(es: seq<Dirent>, k: int, k': int)
    requires Place(es, k) && Place(es, k')
    ensures k == k'
  {
  }

  // What a found name names is an inode number of this file system.
  lemma FoundInRange(t: Tree, d: int, k: int, name: string)
    requires Inv(t) && 0 < d < |t| && t[d].kind == Dir && Found(t[d].entries, name, k)
    ensures 0 < t[d].entries[k].inum < |t|
  {
    if Linked(t, d) {
      assert WellFormed(t, d);
    }
  }

  // A directory always holds "." and "..", so a name that is absent is neither.
  lemma DotsPresent(t: Tree, d: int)
    requires Inv(t) && 0 < d < |t| && t[d].kind == Dir
    ensures !Absent(t[d].entries, ".") && !Absent(t[d].entries, "..")
  {
    var es := t[d].entries;
    if Linked(t, d) {
      assert WellFormed(t, d);
    }
    assert Matches(es[0], ".") && Matches(es[1], "..");
  }

  // A name other than these is found only in a linked directory, past them, and names an inode in use.
  lemma FoundLater(t: Tree, d: int, k: int, name: string)
    requires Inv(t) && 0 < d < |t| && t[d].kind == Dir && Found(t[d].entries, name, k) && name != "." && name != ".."
    ensures Linked(t, d) && 2 <= k && 0 < t[d].entries[k].inum < |t| && t[t[d].entries[k].inum].kind != Free
    ensures t[t[d].entries[k].inum].kind == Dir ==> |t[t[d].entries[k].inum].entries| >= 2
  {
    if Linked(t, d) {
      assert WellFormed(t, d);
    }
    var i := t[d].entries[k].inum;
    if 0 < i < |t| && Linked(t, i) {
      assert WellFormed(t, i);
    }
  }

  lemma FoundHasLinks(t: Tree, d: int, k: int)
    requires Inv(t) && Linked(t, d) && 0 <= k < |t[d].entries| && t[d].entries[k].name != "."
    requires 0 < t[d].entries[k].inum < |t|
    ensures t[t[d].entries[k].inum].nlink >= 1
  {
    var i := t[d].entries[k].inum;
    assert t[i].nlink == Count(t, i);
    CountAtLeast(t, d, i, |t|);
    SomeIn(t[d].entries, i, k);
  }

  lemma OneFound(es: seq<Dirent>, name: string, k: int)
    requires Found(es, name, k)
    ensures forall j :: Found(es, name, j) ==> j == k
  {
  }
}
