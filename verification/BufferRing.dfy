/** The two linked lists of the buffer cache in memory: the ring of buffers behind bcache.head, and idequeue. */
module BufferRing {
  import opened DiskFormat
  import opened BufferCache

  // The ring runs from the list head h through the buffers of lru and back; places -1 and |lru| are the head's.
  function Spot(lru: seq<int>, h: int, i: int): int {
    if 0 <= i < |lru| then lru[i] else h
  }

  ghost predicate Linked(lru: seq<int>, h: int, next: seq<int>, prev: seq<int>) {
    && 0 <= h && |next| == |prev| == h + 1
    && (forall i :: 0 <= i < |lru| ==> 0 <= lru[i] < h)
    && (forall i, j :: 0 <= i < j < |lru| ==> lru[i] != lru[j])
    && forall i {:trigger LinkedAt(lru, h, next, prev, i)} :: -1 <= i < |lru| ==> LinkedAt(lru, h, next, prev, i)
  }

  // Those at places i and i + 1 point at each other.
  ghost predicate LinkedAt(lru: seq<int>, h: int, next: seq<int>, prev: seq<int>, i: int) {
    var x, y := Spot(lru, h, i), Spot(lru, h, i + 1);
    0 <= x < |next| && 0 <= y < |prev| && next[x] == y && prev[y] == x
  }

  // idequeue and qnext thread the queue; -1 stands for the null pointer.
  ghost predicate Threaded(queue: seq<int>, first: int, qnext: seq<int>) {
    && (forall i :: 0 <= i < |queue| ==> 0 <= queue[i] < |qnext|)
    && first == Link(queue, 0)
    && forall i :: 0 <= i < |queue| ==> qnext[queue[i]] == Link(queue, i + 1)
  }

  function Link(queue: seq<int>, i: int): int {
    if 0 <= i < |queue| then queue[i] else -1
  }

  lemma {:induction false} WithoutAt(lru: seq<int>, k: nat)
    requires k < |lru| && forall i, j :: 0 <= i < j < |lru| ==> lru[i] != lru[j]
    ensures BufferCache.Without(lru, lru[k]) == lru[..k] + lru[k + 1..]
  {
    var b, rest := lru[k], lru[1..];
    if k == 0 {
      NotThere(rest, b);
    } else {
      WithoutAt(rest, k - 1);
      calc {
        BufferCache.Without(lru, b);
        [lru[0]] + BufferCache.Without(rest, b);
        [lru[0]] + (rest[..k - 1] + rest[k..]);
        lru[..k] + lru[k + 1..];
      }
    }
  }

  lemma NotThere(lru: seq<int>, b: int)
    requires b !in lru
    ensures BufferCache.Without(lru, b) == lru
  {
  }

  lemma Alone(h: nat, next: seq<int>, prev: seq<int>)
    requires |next| == |prev| == h + 1 && next[h] == prev[h] == h
    ensures Linked([], h, next, prev)
  {
  }

  lemma Descending(lru: seq<int>)
    requires forall i :: 0 <= i < |lru| ==> lru[i] == |lru| - 1 - i
    ensures Order(lru, |lru|)
  {
    forall b | 0 <= b < |lru| ensures b in lru {
      assert lru[|lru| - 1 - b] == b;
    }
  }

  lemma Neighbours(lru: seq<int>, h: int, next: seq<int>, prev: seq<int>, k: nat)
    requires Linked(lru, h, next, prev) && k < |lru|
    ensures prev[lru[k]] == Spot(lru, h, k - 1) && next[lru[k]] == Spot(lru, h, k + 1)
    ensures 0 <= Spot(lru, h, k - 1) <= h && 0 <= Spot(lru, h, k + 1) <= h
  {
    assert LinkedAt(lru, h, next, prev, k - 1) && LinkedAt(lru, h, next, prev, k);
  }

  // Two assignments take the buffer at place k out of the ring.
  lemma Unlinked(lru: seq<int>, h: int, next: seq<int>, prev: seq<int>, k: nat, next': seq<int>, prev': seq<int>)
    requires Linked(lru, h, next, prev) && k < |lru|
    requires 0 <= Spot(lru, h, k - 1) <= h && 0 <= Spot(lru, h, k + 1) <= h
    requires next' == next[Spot(lru, h, k - 1) := Spot(lru, h, k + 1)]
    requires prev' == prev[Spot(lru, h, k + 1) := Spot(lru, h, k - 1)]
    ensures Linked(BufferCache.Without(lru, lru[k]), h, next', prev')
  {
    WithoutAt(lru, k);
    var m := lru[..k] + lru[k + 1..];
    forall i | -1 <= i < |m| ensures LinkedAt(m, h, next', prev', i) {
      UnlinkedAt(lru, h, next, prev, k, next', prev', i);
    }
  }

  lemma UnlinkedAt(lru: seq<int>, h: int, next: seq<int>, prev: seq<int>, k: nat, next': seq<int>, prev': seq<int>,
                   i: int)
    requires Linked(lru, h, next, prev) && k < |lru|
    requires 0 <= Spot(lru, h, k - 1) <= h && 0 <= Spot(lru, h, k + 1) <= h
    requires next' == next[Spot(lru, h, k - 1) := Spot(lru, h, k + 1)]
    requires prev' == prev[Spot(lru, h, k + 1) := Spot(lru, h, k - 1)]
    requires -1 <= i < |lru| - 1
    ensures LinkedAt(lru[..k] + lru[k + 1..], h, next', prev', i)
  {
    var m := lru[..k] + lru[k + 1..];
    assert Spot(m, h, i) == Spot(lru, h, if i < k then i else i + 1);
    assert Spot(m, h, i + 1) == Spot(lru, h, if i + 1 < k then i + 1 else i + 2);
    assert LinkedAt(lru, h, next, prev, i) && LinkedAt(lru, h, next, prev, i + 1);
  }

  // Four put a buffer that is not in the ring right behind the head.
  lemma Inserted(lru: seq<int>, h: int, next: seq<int>, prev: seq<int>, b: int, next': seq<int>, prev': seq<int>)
    requires Linked(lru, h, next, prev) && 0 <= b < h && b !in lru
    requires 0 <= next[h] <= h && next' == next[b := next[h]][h := b] && prev' == prev[b := h][next[h] := b]
    ensures Linked([b] + lru, h, next', prev')
  {
    var m := [b] + lru;
    forall i | -1 <= i < |m| ensures LinkedAt(m, h, next', prev', i) {
      assert LinkedAt(lru, h, next, prev, -1);
      assert 0 < i ==> LinkedAt(lru, h, next, prev, i - 1);
    }
  }

  lemma Appended(q: seq<int>, first: int, qnext: seq<int>, b: int, first': int, qnext': seq<int>)
    requires Threaded(q, first, qnext) && 0 <= b < |qnext| && b !in q
    requires forall i, j :: 0 <= i < j < |q| ==> q[i] != q[j]
    requires if q == [] then first' == b && qnext' == qnext[b := -1]
             else first' == first && qnext' == qnext[b := -1][q[|q| - 1] := b]
    ensures Threaded(q + [b], first', qnext')
  {
  }

  datatype Request = Panic | Started | Queued

  class Bcache {
    const n: nat
    const buf: array<Buf>
    const next: array<int>
    const prev: array<int>
    const qnext: array<int>
    var idequeue: int
    ghost var lru: seq<int>
    ghost var queue: seq<int>

    ghost predicate Valid()
      reads this, buf, next, prev, qnext
    {
      && buf.Length == qnext.Length == n && next.Length == prev.Length == n + 1
      && next != prev && next != qnext && prev != qnext
      && Order(lru, n)
      && Linked(lru, n, next[..], prev[..])
      && (forall i, j :: 0 <= i < j < |queue| ==> queue[i] != queue[j])
      && Threaded(queue, idequeue, qnext[..])
    }

    // binit, with no request queued.
    constructor (n: nat)
      ensures Valid() && this.n == n
      ensures fresh(buf) && fresh(next) && fresh(prev) && fresh(qnext)
      ensures lru == seq(n, i => n - 1 - i) && queue == []
      ensures forall b :: 0 <= b < n ==> buf[b] == Buf(false, false, false, NODEV, 0, ZeroBlock())
    {
      this.n := n;
      buf := new Buf[n](_ => Buf(false, false, false, NODEV, 0, ZeroBlock()));
      next := new int[n + 1](_ => n);
      prev := new int[n + 1](_ => n);
      qnext := new int[n](_ => -1);
      idequeue := -1;
      lru, queue := [], [];
      new;
      hide Order, LinkedAt;
      Alone(n, next[..], prev[..]);
      var b := 0;
      while b < n
        invariant 0 <= b <= n && |lru| == b && forall i :: 0 <= i < b ==> lru[i] == b - 1 - i
        invariant Linked(lru, n, next[..], prev[..])
        invariant fresh(next) && fresh(prev)
        modifies next, prev, this`lru
      {
        PushFront(b);
        b := b + 1;
      }
      Descending(lru);
    }

    // A search that passed every buffer found none.
    lemma Passed(dev: U32, sector: U32)
      requires Valid() && forall i :: 0 <= i < n ==> !Cached(buf[lru[i]], dev, sector)
      ensures NotCached(buf[..], dev, sector)
    {
      forall b | 0 <= b < n ensures !Cached(buf[b], dev, sector) {
        assert b in lru;
      }
    }

    lemma AllBusy()
      requires Valid() && forall i :: 0 <= i < n ==> buf[lru[i]].busy
      ensures forall b :: 0 <= b < n ==> buf[b].busy
    {
      forall b | 0 <= b < n ensures buf[b].busy {
        assert b in lru;
      }
    }

    lemma Follow(k: int)
      requires Valid() && -1 <= k < n
      ensures 0 <= Spot(lru, n, k) <= n && 0 <= Spot(lru, n, k + 1) <= n
      ensures next[Spot(lru, n, k)] == Spot(lru, n, k + 1) && prev[Spot(lru, n, k + 1)] == Spot(lru, n, k)
    {
      assert LinkedAt(lru, n, next[..], prev[..], k);
    }

    // bget's first loop: from the most recently released on; n when the sector has no buffer.
    method FindCached(dev: U32, sector: U32) returns (b: int, ghost k: int)
      requires Valid()
      ensures b == n ==> NotCached(buf[..], dev, sector)
      ensures b != n ==> FirstCached(buf[..], lru, dev, sector, k) && b == lru[k]
    {
      hide Linked, Threaded;
      Follow(-1);
      b, k := next[n], 0;
      while b != n
        invariant 0 <= k <= n && b == Spot(lru, n, k)
        invariant forall i :: 0 <= i < k ==> !Cached(buf[lru[i]], dev, sector)
        decreases n - k
      {
        if buf[b].dev == dev && buf[b].sector == sector {
          return;
        }
        Follow(k);
        b, k := next[b], k + 1;
      }
      Passed(dev, sector);
    }

    // bget's second loop: from the least recently released back; n when every buffer is busy.
    method FindFree() returns (b: int, ghost k: int)
      requires Valid()
      ensures b == n ==> forall c :: 0 <= c < n ==> buf[c].busy
      ensures b != n ==> LastFree(buf[..], lru, k) && b == lru[k]
    {
      hide Linked, Threaded;
      Follow(n - 1);
      b, k := prev[n], n - 1;
      while b != n
        invariant -1 <= k < n && b == Spot(lru, n, k)
        invariant forall i :: k < i < n ==> buf[lru[i]].busy
        decreases k
      {
        if !buf[b].busy {
          return;
        }
        Follow(k - 1);
        b, k := prev[b], k - 1;
      }
      AllBusy();
    }

    // bget, up to where it returns a buffer, goes to sleep or panics.
    method Bget(dev: U32, sector: U32) returns (g: Got)
      requires Valid()
      modifies buf
      ensures Valid()
      ensures GetOutcome(old(buf[..]), lru, dev, sector, g)
      ensures g.Hit? || g.Recycled? ==> 0 <= g.b < n
      ensures buf[..] == Claimed(old(buf[..]), g, dev, sector)
    {
      hide Linked, Threaded;
      var b, k := FindCached(dev, sector);
      if b != n {
        if buf[b].busy {
          return Asleep(b);
        }
        buf[b] := buf[b].(busy := true);
        return Hit(b);
      }
      b, k := FindFree();
      if b != n {
        buf[b] := Buf(true, false, false, dev, sector, buf[b].data);
        return Recycled(b);
      }
      return Full;
    }

    lemma PlaceOf(b: int) returns (k: nat)
      requires Valid() && 0 <= b < n
      ensures k < n && lru[k] == b
    {
      assert b in lru;
      k :| 0 <= k < n && lru[k] == b;
    }

    // brelse's relinking.
    method MoveToFront(b: int)
      requires Valid() && 0 <= b < n
      modifies next, prev, this`lru
      ensures Valid() && lru == ToFront(old(lru), b)
    {
      ghost var k := PlaceOf(b);
      Neighbours(lru, n, next[..], prev[..], k);
      hide Linked, Order, Threaded;
      prev[next[b]] := prev[b];
      next[prev[b]] := next[b];
      Unlinked(lru, n, old(next[..]), old(prev[..]), k, next[..], prev[..]);
      ToFrontKeepsOrder(lru, n, b);
      lru := BufferCache.Without(lru, b);
      PushFront(b);
    }

    // The four assignments that binit and brelse share.
    method PushFront(b: int)
      requires buf.Length == n && next.Length == prev.Length == n + 1 && next != prev
      requires Linked(lru, n, next[..], prev[..]) && 0 <= b < n && b !in lru
      modifies next, prev, this`lru
      ensures lru == [b] + old(lru) && Linked(lru, n, next[..], prev[..])
    {
      assert LinkedAt(lru, n, next[..], prev[..], -1);
      hide Linked, LinkedAt;
      next[b] := next[n];
      prev[b] := n;
      prev[next[n]] := b;
      next[n] := b;
      Inserted(lru, n, old(next[..]), old(prev[..]), b, next[..], prev[..]);
      lru := [b] + lru;
    }

    // brelse; false is its panic.
    method Brelse(b: int) returns (ok: bool)
      requires Valid() && 0 <= b < n
      modifies buf, next, prev, this`lru
      ensures Valid()
      ensures ok == old(buf[b].busy)
      ensures !ok ==> lru == old(lru) && buf[..] == old(buf[..])
      ensures ok ==> lru == ToFront(old(lru), b) && buf[..] == old(buf[..])[b := old(buf[b]).(busy := false)]
      ensures ok ==>
        exists k :: 0 <= k < |old(lru)| && old(lru)[k] == b && lru == [b] + (old(lru)[..k] + old(lru)[k + 1..])
    {
      ToFrontIs(lru, n, b);
      if !buf[b].busy {
        return false;
      }
      MoveToFront(b);
      buf[b] := buf[b].(busy := false);
      return true;
    }

    // iderw's walk along the queue: where its last pointer is, -1 standing for idequeue itself.
    method LastLink(ghost q: seq<int>) returns (pp: int)
      requires Threaded(q, idequeue, qnext[..])
      ensures pp == if q == [] then -1 else q[|q| - 1]
    {
      var p := idequeue;
      pp := -1;
      ghost var k := 0;
      while p != -1
        invariant 0 <= k <= |q| && pp == (if k == 0 then -1 else q[k - 1]) && p == Link(q, k)
        decreases |q| - k
      {
        pp, p := p, qnext[p];
        k := k + 1;
      }
    }

    // iderw up to its wait: the three panics, or the request goes to the end of the queue; an idle disk is started.
    method Iderw(b: int, havedisk1: bool) returns (r: Request)
      requires Valid() && 0 <= b < n && b !in queue
      modifies qnext, this`idequeue, this`queue
      ensures Valid()
      ensures r == Panic <==> !buf[b].busy || Settled(buf[b]) || (buf[b].dev != 0 && !havedisk1)
      ensures r == Panic ==> queue == old(queue)
      ensures r != Panic ==> queue == old(queue) + [b] && (r == Started <==> old(queue) == [])
    {
      hide Linked, Order;
      if !buf[b].busy || (buf[b].valid && !buf[b].dirty) || (buf[b].dev != 0 && !havedisk1) {
        return Panic;
      }
      ghost var links := qnext[..];
      qnext[b] := -1;
      var pp := LastLink(queue);
      if pp == -1 {
        idequeue := b;
      } else {
        qnext[pp] := b;
      }
      Appended(queue, old(idequeue), links, b, idequeue, qnext[..]);
      r := if idequeue == b then Started else Queued;
      queue := queue + [b];
    }

    // ideintr, where data is what the controller gives to a read: the buffer whose waiters it wakes, and the one it
    // starts the disk on, or -1. When the controller reports an error instead, a read leaves the data as it was, and
    // the buffer is marked valid all the same.
    method Ideintr(data: Block, error: bool) returns (served: int, started: int)
      requires Valid()
      modifies buf, this`idequeue, this`queue
      ensures Valid()
      ensures served == Link(old(queue), 0) && started == Link(old(queue), 1)
      ensures old(queue) == [] ==> queue == [] && buf[..] == old(buf[..])
      ensures old(queue) != [] ==>
        && queue == old(queue[1..])
        && var b := old(buf[..])[served];
           buf[..] == old(buf[..])[
             served := b.(data := if b.dirty || error then b.data else data, valid := true, dirty := false)]
    {
      served, started := idequeue, -1;
      if served == -1 {
        return;
      }
      idequeue := qnext[served];
      if !buf[served].dirty && !error {
        buf[served] := buf[served].(data := data);
      }
      buf[served] := buf[served].(valid := true, dirty := false);
      queue := queue[1..];
      if idequeue != -1 {
        started := idequeue;
      }
    }
  }

  // ---- the code takes the protocol's steps ----

  // The lists and buffers in memory are those of the protocol state.
  ghost predicate Shows(c: Bcache, s: Sys)
    reads c, c.buf
  {
    c.buf[..] == s.bufs && c.lru == s.lru && c.queue == s.queue
  }

  method BgetStep(c: Bcache, ghost s: Sys, ghost p: int, dev: U32, sector: U32) returns (g: Got)
    requires c.Valid() && Inv(s) && Shows(c, s) && Proc(s, p) && s.act[p] == Seeking(dev, sector)
    modifies c.buf
    ensures c.Valid() && (g != Full ==> Enabled(s, Get(p, g)) && Shows(c, Step(s, Get(p, g))))
  {
    g := c.Bget(dev, sector);
    if g != Full {
      OutcomeInRange(s, p, g);
    }
    hide Inv, GetOutcome, Order;
  }

  lemma OutcomeInRange(s: Sys, p: int, g: Got)
    requires Inv(s) && Proc(s, p) && s.act[p].Seeking? && GetOutcome(s.bufs, s.lru, s.act[p].dev, s.act[p].sector, g)
    requires g != Full
    ensures 0 <= g.b < |s.bufs|
  {
  }

  // bread's request for a buffer that is not valid.
  method FetchStep(c: Bcache, ghost s: Sys, ghost p: int, b: int, havedisk1: bool) returns (r: Request)
    requires c.Valid() && Inv(s) && Shows(c, s) && Enabled(s, Fetch(p)) && s.act[p] == Fetching(b) && !s.bufs[b].valid
    requires havedisk1 || s.bufs[b].dev == 0
    modifies c.qnext, c`idequeue, c`queue
    ensures c.Valid() && r != Panic && Shows(c, Step(s, Fetch(p)))
  {
    assert Plausible(s.bufs, s.queue, s.act[p], s.held[p], s.disk, s.changed);
    HeldNotQueued(s, p, b);
    hide Inv, Order;
    r := c.Iderw(b, havedisk1);
  }

  method BwriteStep(c: Bcache, ghost s: Sys, ghost p: int, b: int, havedisk1: bool) returns (r: Request)
    requires c.Valid() && Inv(s) && Shows(c, s) && Enabled(s, Bwrite(p, b))
    requires havedisk1 || s.bufs[b].dev == 0
    modifies c.buf, c.qnext, c`idequeue, c`queue
    ensures c.Valid() && r != Panic && Shows(c, Step(s, Bwrite(p, b)))
  {
    HeldNotQueued(s, p, b);
    hide Inv, Order;
    if !c.buf[b].busy {
      return Panic;
    }
    c.buf[b] := c.buf[b].(dirty := true);
    r := c.Iderw(b, havedisk1);
  }

  method BrelseStep(c: Bcache, ghost s: Sys, ghost p: int, b: int) returns (ok: bool)
    requires c.Valid() && Inv(s) && Shows(c, s) && Enabled(s, Brelse(p, b))
    modifies c.buf, c.next, c.prev, c`lru
    ensures c.Valid() && ok && Shows(c, Step(s, Brelse(p, b)))
  {
    HeldNotQueued(s, p, b);
    hide Inv, Order;
    ok := c.Brelse(b);
  }

  // The protocol's disk makes no errors.
  method IdeintrStep(c: Bcache, ghost s: Sys, data: Block) returns (served: int, started: int)
    requires c.Valid() && Inv(s) && Shows(c, s) && Enabled(s, Interrupt) && (s.ctl.Ready? ==> data == s.ctl.data)
    modifies c.buf, c`idequeue, c`queue
    ensures c.Valid() && Shows(c, Step(s, Interrupt))
    ensures started != -1 ==>
      0 <= started < |Step(s, Interrupt).bufs|
      && Step(s, Interrupt).ctl == Working(CommandFor(Step(s, Interrupt).bufs[started]))
  {
    hide Inv, Order;
    served, started := c.Ideintr(data, false);
  }
}
