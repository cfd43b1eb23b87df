/** Buffer cache and disk driver as a protocol of processes, a disk and its interrupt: every locked region is a step. */
module BufferCache {
  import opened DiskFormat

  datatype Buf = Buf(busy: bool, valid: bool, dirty: bool, dev: U32, sector: U32, data: Block)

  const NODEV: U32 := 0xFFFF_FFFF // binit's dev, -1

  // ---- bget's search ----

  predicate Cached(b: Buf, dev: U32, sector: U32) {
    b.dev == dev && b.sector == sector
  }

  // The list of buffers, most recently released first, holds each of them once.
  ghost predicate Order(lru: seq<int>, n: nat) {
    && |lru| == n
    && (forall i :: 0 <= i < n ==> 0 <= lru[i] < n)
    && (forall i, j :: 0 <= i < j < n ==> lru[i] != lru[j])
    && (forall b :: 0 <= b < n ==> b in lru)
  }

  datatype Got = Hit(b: int) | Asleep(b: int) | Recycled(b: int) | Full

  // The first buffer in the list that caches the sector is at place k.
  ghost predicate FirstCached(bufs: seq<Buf>, lru: seq<int>, dev: U32, sector: U32, k: int)
    requires Order(lru, |bufs|)
  {
    0 <= k < |lru| && Cached(bufs[lru[k]], dev, sector) && forall i :: 0 <= i < k ==> !Cached(bufs[lru[i]], dev, sector)
  }

  ghost predicate NotCached(bufs: seq<Buf>, dev: U32, sector: U32) {
    forall b :: 0 <= b < |bufs| ==> !Cached(bufs[b], dev, sector)
  }

  // The least recently released buffer that nobody holds is at place k.
  ghost predicate LastFree(bufs: seq<Buf>, lru: seq<int>, k: int)
    requires Order(lru, |bufs|)
  {
    0 <= k < |lru| && !bufs[lru[k]].busy && forall i :: k < i < |lru| ==> bufs[lru[i]].busy
  }

  ghost predicate GetOutcome(bufs: seq<Buf>, lru: seq<int>, dev: U32, sector: U32, g: Got)
    requires Order(lru, |bufs|)
  {
    match g
    case Hit(b) => exists k :: FirstCached(bufs, lru, dev, sector, k) && lru[k] == b && !bufs[b].busy
    case Asleep(b) => exists k :: FirstCached(bufs, lru, dev, sector, k) && lru[k] == b && bufs[b].busy
    case Recycled(b) => NotCached(bufs, dev, sector) && exists k :: LastFree(bufs, lru, k) && lru[k] == b
    case Full => NotCached(bufs, dev, sector) && forall b :: 0 <= b < |bufs| ==> bufs[b].busy
  }

  // Where the two scans stop: past the end, or before the beginning, if they find nothing.
  lemma FirstPlace(bufs: seq<Buf>, lru: seq<int>, dev: U32, sector: U32) returns (k: nat)
    requires Order(lru, |bufs|)
    ensures k == |lru| || FirstCached(bufs, lru, dev, sector, k)
    ensures k == |lru| ==> NotCached(bufs, dev, sector)
  {
    k := 0;
    while k < |lru| && !Cached(bufs[lru[k]], dev, sector)
      invariant k <= |lru| && forall i :: 0 <= i < k ==> !Cached(bufs[lru[i]], dev, sector)
    {
      k := k + 1;
    }
    forall b | k == |lru| && 0 <= b < |bufs| ensures !Cached(bufs[b], dev, sector) {
      assert b in lru;
    }
  }

  lemma LastPlace(bufs: seq<Buf>, lru: seq<int>) returns (k: int)
    requires Order(lru, |bufs|)
    ensures k == -1 || LastFree(bufs, lru, k)
    ensures k == -1 ==> forall b :: 0 <= b < |bufs| ==> bufs[b].busy
  {
    k := |lru| - 1;
    while 0 <= k && bufs[lru[k]].busy
      invariant -1 <= k < |lru| && forall i :: k < i < |lru| ==> bufs[lru[i]].busy
    {
      k := k - 1;
    }
    forall b | k == -1 && 0 <= b < |bufs| ensures bufs[b].busy {
      assert b in lru;
    }
  }

  function Claimed(bufs: seq<Buf>, g: Got, dev: U32, sector: U32): seq<Buf>
    requires g.Hit? || g.Recycled? ==> 0 <= g.b < |bufs|
  {
    match g
    case Hit(b) => bufs[b := bufs[b].(busy := true)]
    case Recycled(b) => bufs[b := Buf(true, false, false, dev, sector, bufs[b].data)]
    case _ => bufs
  }

  // ---- brelse ----

  function ToFront(lru: seq<int>, b: int): seq<int> {
    [b] + Without(lru, b)
  }

  function Without(lru: seq<int>, b: int): (r: seq<int>)
    ensures forall x :: x in r <==> x in lru && x != b
    ensures |r| <= |lru|
  {
    if lru == [] then [] else (if lru[0] == b then [] else [lru[0]]) + Without(lru[1..], b)
  }

  // ---- the disk ----

  datatype Address = Address(unit: int, sector: int)

  // What idestart writes to the controller: one bit of dev and 28 of sector.
  function Wire(b: Buf): Address {
    Address(b.dev % 2, b.sector % 0x1000_0000)
  }

  datatype Command = ReadSector(a: Address) | WriteSector(a: Address, data: Block)

  function CommandFor(b: Buf): Command {
    if b.dirty then WriteSector(Wire(b), b.data) else ReadSector(Wire(b))
  }

  // Ready: the command is done and the interrupt is raised; data is what insl would read.
  datatype Controller = Quiet | Working(cmd: Command) | Ready(cmd: Command, data: Block)

  type Disk = map<Address, Block>

  // A sector the machine has; two such never share a wire address.
  predicate Real(disk: Disk, dev: U32, sector: U32) {
    dev < 2 && sector < 0x1000_0000 && Address(dev, sector) in disk
  }

  // ---- processes ----

  datatype Activity =
    | Running
    | Seeking(dev: U32, sector: U32)          // about to search in bget
    | Blocked(dev: U32, sector: U32, b: int)  // asleep in bget until b is released
    | Fetching(b: int)                        // bget returned b to bread
    | Waiting(b: int, asleep: bool)           // in iderw, for b

  datatype Sys = Sys(bufs: seq<Buf>, lru: seq<int>, queue: seq<int>, ctl: Controller, disk: Disk,
                     act: seq<Activity>, held: seq<set<int>>, changed: set<int>)

  datatype Event =
    | Bread(p: int, dev: U32, sector: U32)
    | Get(p: int, g: Got)
    | Fetch(p: int)
    | Change(p: int, b: int, data: Block)
    | Bwrite(p: int, b: int)
    | Recheck(p: int)
    | Brelse(p: int, b: int)
    | Finish      // the disk carries out the command
    | Interrupt   // ideintr

  predicate Proc(s: Sys, p: int) {
    0 <= p < |s.act| == |s.held|
  }

  predicate Holder(s: Sys, p: int, b: int) {
    Proc(s, p) && s.act[p] == Running && b in s.held[p] && 0 <= b < |s.bufs|
  }

  // A holder changes data only of a buffer it holds, and releases no buffer it has changed since the last bwrite.
  // bget's panic halts the machine, so a run never gets past Full.
  ghost predicate Enabled(s: Sys, e: Event) {
    match e
    case Bread(p, dev, sector) => Proc(s, p) && s.act[p] == Running && Real(s.disk, dev, sector)
    case Get(p, g) => Proc(s, p) && s.act[p].Seeking? && Order(s.lru, |s.bufs|)
      && GetOutcome(s.bufs, s.lru, s.act[p].dev, s.act[p].sector, g) && g != Full && 0 <= g.b < |s.bufs|
    case Fetch(p) => Proc(s, p) && s.act[p].Fetching? && 0 <= s.act[p].b < |s.bufs|
    case Change(p, b, data) => Holder(s, p, b)
    case Bwrite(p, b) => Holder(s, p, b)
    case Recheck(p) => Proc(s, p) && s.act[p].Waiting? && !s.act[p].asleep && 0 <= s.act[p].b < |s.bufs|
    case Brelse(p, b) => Holder(s, p, b) && b !in s.changed
    case Finish => s.ctl.Working? && s.ctl.cmd.a in s.disk
    case Interrupt => s.queue != [] ==> s.ctl.Ready? && forall i :: 0 <= i < |s.queue| ==> 0 <= s.queue[i] < |s.bufs|
  }

  function Awake(a: Activity, b: int): Activity {
    if a.Blocked? && a.b == b then Seeking(a.dev, a.sector)
    else if a.Waiting? && a.b == b then Waiting(b, false)
    else a
  }

  function Wakeup(act: seq<Activity>, b: int): seq<Activity> {
    seq(|act|, i requires 0 <= i < |act| => Awake(act[i], b))
  }

  // iderw's first half: append to the queue, start an idle disk, sleep.
  function Enqueued(s: Sys, p: int, b: int): Sys
    requires Proc(s, p) && 0 <= b < |s.bufs|
  {
    s.(queue := s.queue + [b], ctl := if s.queue == [] then Working(CommandFor(s.bufs[b])) else s.ctl,
       act := s.act[p := Waiting(b, true)])
  }

  function Done(b: Buf, data: Block): Buf {
    b.(data := if b.dirty then b.data else data, valid := true, dirty := false)
  }

  // ideintr with a request done: the head leaves the queue, its waiters wake, the disk starts on the next.
  function Interrupted(s: Sys): Sys
    requires s.queue != [] && s.ctl.Ready? && forall i :: 0 <= i < |s.queue| ==> 0 <= s.queue[i] < |s.bufs|
  {
    var b, rest := s.queue[0], s.queue[1..];
    var bufs := s.bufs[b := Done(s.bufs[b], s.ctl.data)];
    s.(bufs := bufs, queue := rest, ctl := if rest == [] then Quiet else Working(CommandFor(bufs[rest[0]])),
       act := Wakeup(s.act, b), changed := s.changed - {b})
  }

  function Settled(b: Buf): bool {
    b.valid && !b.dirty
  }

  ghost function Step(s: Sys, e: Event): Sys
    requires Enabled(s, e)
  {
    match e
    case Bread(p, dev, sector) => s.(act := s.act[p := Seeking(dev, sector)])
    case Get(p, g) =>
      var a := s.act[p];
      if g.Asleep? then s.(act := s.act[p := Blocked(a.dev, a.sector, g.b)])
      else s.(bufs := Claimed(s.bufs, g, a.dev, a.sector), act := s.act[p := Fetching(g.b)],
        held := s.held[p := s.held[p] + {g.b}])
    case Fetch(p) =>
      var b := s.act[p].b;
      if s.bufs[b].valid then s.(act := s.act[p := Running]) else Enqueued(s, p, b)
    case Change(p, b, data) => s.(bufs := s.bufs[b := s.bufs[b].(data := data)], changed := s.changed + {b})
    case Bwrite(p, b) => Enqueued(s.(bufs := s.bufs[b := s.bufs[b].(dirty := true)]), p, b)
    case Recheck(p) =>
      var b := s.act[p].b;
      s.(act := s.act[p := if Settled(s.bufs[b]) then Running else Waiting(b, true)])
    case Brelse(p, b) =>
      s.(bufs := s.bufs[b := s.bufs[b].(busy := false)], lru := ToFront(s.lru, b),
         act := Wakeup(s.act, b), held := s.held[p := s.held[p] - {b}])
    case Finish =>
      (match s.ctl.cmd
       case ReadSector(a) => s.(ctl := Ready(s.ctl.cmd, s.disk[a]))
       case WriteSector(a, data) => s.(ctl := Ready(s.ctl.cmd, data), disk := s.disk[a := data]))
    case Interrupt => if s.queue == [] then s else Interrupted(s)
  }

  // ---- the invariant ----

  predicate Unused(b: Buf) {
    b.dev == NODEV && !b.valid && !b.busy
  }

  // Each buffer stands for a real sector or for none, and no sector has two buffers.
  ghost predicate Identity(bufs: seq<Buf>, disk: Disk) {
    && (forall i :: 0 <= i < |bufs| ==> Unused(bufs[i]) || Real(disk, bufs[i].dev, bufs[i].sector))
    && (forall i, j :: 0 <= i < j < |bufs| && Cached(bufs[i], bufs[j].dev, bufs[j].sector) ==> bufs[i].dev == NODEV)
  }

  ghost predicate Taken(held: seq<set<int>>, b: int) {
    exists p {:trigger b in held[p]} :: 0 <= p < |held| && b in held[p]
  }

  // A buffer is busy exactly when one process holds it, and no two hold the same.
  ghost predicate Locks(bufs: seq<Buf>, held: seq<set<int>>) {
    && (forall p, b {:trigger b in held[p]} :: 0 <= p < |held| && b in held[p] ==> 0 <= b < |bufs| && bufs[b].busy)
    && (forall p, q :: 0 <= p < q < |held| ==> held[p] !! held[q])
    && (forall b :: 0 <= b < |bufs| && bufs[b].busy ==> Taken(held, b))
  }

  // The queue holds each buffer that needs the disk once; its holder waits for it.
  ghost predicate Requests(bufs: seq<Buf>, queue: seq<int>, act: seq<Activity>, held: seq<set<int>>)
    requires |act| == |held|
  {
    && (forall i :: 0 <= i < |queue| ==> 0 <= queue[i] < |bufs| && bufs[queue[i]].busy && !Settled(bufs[queue[i]]))
    && (forall i, j :: 0 <= i < j < |queue| ==> queue[i] != queue[j])
    && (forall p, b {:trigger b in held[p]} :: 0 <= p < |held| && b in held[p] && b in queue ==>
         act[p].Waiting? && act[p].b == b)
    && (forall b :: 0 <= b < |bufs| && bufs[b].dirty ==> b in queue)
  }

  // What each process is doing matches what it holds; whoever sleeps will be woken.
  ghost predicate Acts(bufs: seq<Buf>, queue: seq<int>, act: seq<Activity>, held: seq<set<int>>, disk: Disk,
                       changed: set<int>)
    requires |act| == |held|
  {
    && (forall p :: 0 <= p < |act| ==> Plausible(bufs, queue, act[p], held[p], disk, changed))
    && (forall p, b {:trigger b in held[p]} :: 0 <= p < |held| && b in held[p] && 0 <= b < |bufs| && !bufs[b].valid ==>
         act[p] == Fetching(b) || b in queue)
  }

  ghost predicate Plausible(bufs: seq<Buf>, queue: seq<int>, a: Activity, held: set<int>, disk: Disk,
                            changed: set<int>) {
    match a
    case Running => true
    case Seeking(dev, sector) => Real(disk, dev, sector)
    case Blocked(dev, sector, b) => Real(disk, dev, sector) && 0 <= b < |bufs| && bufs[b].busy
      && Cached(bufs[b], dev, sector)
    case Fetching(b) => b in held && b !in changed
    case Waiting(b, asleep) => b in held && (asleep || b in changed ==> b in queue)
  }

  // The disk works on the head of the queue and on nothing else.
  ghost predicate Device(bufs: seq<Buf>, queue: seq<int>, ctl: Controller, disk: Disk) {
    if queue == [] then ctl == Quiet
    else
      && 0 <= queue[0] < |bufs| && ctl != Quiet && ctl.cmd == CommandFor(bufs[queue[0]])
      && (ctl.Ready? ==>
           ctl.cmd.a in disk && disk[ctl.cmd.a] == ctl.data
           && (ctl.cmd.WriteSector? ==> ctl.cmd.data == ctl.data))
  }

  // A valid buffer agrees with the disk, unless its holder has changed it and not yet written it.
  ghost predicate Coherent(bufs: seq<Buf>, disk: Disk, changed: set<int>) {
    && (forall b :: 0 <= b < |bufs| && bufs[b].valid && b !in changed ==>
         Wire(bufs[b]) in disk && bufs[b].data == disk[Wire(bufs[b])])
    && (forall b :: b in changed ==> 0 <= b < |bufs| && bufs[b].busy)
  }

  ghost predicate Inv(s: Sys) {
    && |s.act| == |s.held|
    && Order(s.lru, |s.bufs|)
    && Identity(s.bufs, s.disk)
    && Locks(s.bufs, s.held)
    && Requests(s.bufs, s.queue, s.act, s.held)
    && Acts(s.bufs, s.queue, s.act, s.held, s.disk, s.changed)
    && Device(s.bufs, s.queue, s.ctl, s.disk)
    && Coherent(s.bufs, s.disk, s.changed)
  }

  // ---- one step ----

  lemma {:induction false} WithoutOnce(lru: seq<int>, b: int)
    requires forall i, j :: 0 <= i < j < |lru| ==> lru[i] != lru[j]
    ensures |Without(lru, b)| == |lru| - (if b in lru then 1 else 0)
    ensures forall i, j :: 0 <= i < j < |Without(lru, b)| ==> Without(lru, b)[i] != Without(lru, b)[j]
  {
    if lru != [] {
      WithoutOnce(lru[1..], b);
      var r := Without(lru[1..], b);
      if lru[0] == b {
        assert forall x :: x in lru[1..] ==> x != b;
      } else {
        assert lru[0] !in r;
        assert Without(lru, b) == [lru[0]] + r;
      }
    }
  }

  lemma {:induction false} WithoutIs(lru: seq<int>, b: int, k: int)
    requires 0 <= k < |lru| && lru[k] == b && forall i :: 0 <= i < |lru| && i != k ==> lru[i] != b
    ensures Without(lru, b) == lru[..k] + lru[k + 1..]
    decreases |lru|
  {
    if k == 0 {
      WithoutNone(lru[1..], b);
    } else {
      WithoutIs(lru[1..], b, k - 1);
      assert lru[1..][..k - 1] == lru[1..k] && lru[1..][k..] == lru[k + 1..];
      assert [lru[0]] + lru[1..k] == lru[..k];
    }
  }

  lemma {:induction false} WithoutNone(lru: seq<int>, b: int)
    requires b !in lru
    ensures Without(lru, b) == lru
    decreases |lru|
  {
    if lru != [] {
      WithoutNone(lru[1..], b);
    }
  }

  // brelse's new order: the buffer comes first, and the others stay in theirs.
  lemma ToFrontIs(lru: seq<int>, n: nat, b: int)
    requires Order(lru, n) && 0 <= b < n
    ensures exists k :: 0 <= k < |lru| && lru[k] == b && ToFront(lru, b) == [b] + (lru[..k] + lru[k + 1..])
  {
    assert b in lru;
    var k :| 0 <= k < |lru| && lru[k] == b;
    WithoutIs(lru, b, k);
  }

  lemma ToFrontKeepsOrder(lru: seq<int>, n: nat, b: int)
    requires Order(lru, n) && 0 <= b < n
    ensures Order(ToFront(lru, b), n)
  {
    WithoutOnce(lru, b);
    var r := Without(lru, b);
    forall i | 0 <= i < |r| ensures 0 <= r[i] < n && r[i] != b {
      assert r[i] in r;
    }
  }

  // Only buffer b of bufs changes, and it stays with its holder and its sector.
  ghost predicate Touched(bufs: seq<Buf>, bufs': seq<Buf>, b: int) {
    && 0 <= b < |bufs| == |bufs'| && bufs' == bufs[b := bufs'[b]]
    && bufs'[b].busy == bufs[b].busy && bufs'[b].dev == bufs[b].dev && bufs'[b].sector == bufs[b].sector
  }

  lemma TouchedKeeps(bufs: seq<Buf>, bufs': seq<Buf>, b: int, held: seq<set<int>>, disk: Disk)
    requires Touched(bufs, bufs', b) && Locks(bufs, held) && Identity(bufs, disk) && bufs[b].busy
    ensures Locks(bufs', held) && Identity(bufs', disk)
  {
    assert forall i :: 0 <= i < |bufs| ==>
      bufs'[i].busy == bufs[i].busy && bufs'[i].dev == bufs[i].dev
      && bufs'[i].sector == bufs[i].sector;
  }

  // The buffers that a process not in the disk queue holds are not in the queue.
  lemma HeldNotQueued(s: Sys, p: int, b: int)
    requires Inv(s) && Proc(s, p) && b in s.held[p] && !s.act[p].Waiting?
    ensures 0 <= b < |s.bufs| && s.bufs[b].busy && b !in s.queue && !s.bufs[b].dirty
    ensures s.bufs[b].valid || s.act[p] == Fetching(b)
  {
  }

  // ---- bget ----

  lemma GetFacts(s: Sys, p: int, g: Got)
    requires Inv(s) && Enabled(s, Get(p, g))
    ensures Real(s.disk, s.act[p].dev, s.act[p].sector)
    ensures g.Asleep? ==> s.bufs[g.b].busy && Cached(s.bufs[g.b], s.act[p].dev, s.act[p].sector)
    ensures !g.Asleep? ==> !s.bufs[g.b].busy && g.b !in s.queue && !s.bufs[g.b].dirty && g.b !in s.changed
    ensures g.Hit? ==> Cached(s.bufs[g.b], s.act[p].dev, s.act[p].sector)
    ensures g.Recycled? ==> NotCached(s.bufs, s.act[p].dev, s.act[p].sector)
  {
    assert Plausible(s.bufs, s.queue, s.act[p], s.held[p], s.disk, s.changed);
  }

  lemma LockTaken(bufs: seq<Buf>, held: seq<set<int>>, p: int, b: int, x: Buf)
    requires Locks(bufs, held) && 0 <= p < |held| && 0 <= b < |bufs| && !bufs[b].busy && x.busy
    ensures Locks(bufs[b := x], held[p := held[p] + {b}])
  {
    var held' := held[p := held[p] + {b}];
    var bufs' := bufs[b := x];
    forall c | 0 <= c < |bufs| && bufs'[c].busy
      ensures Taken(held', c)
    {
      if c == b {
        assert c in held'[p];
      } else {
        var q :| 0 <= q < |held| && c in held[q];
        assert c in held'[q];
      }
    }
  }

  lemma LockDropped(bufs: seq<Buf>, held: seq<set<int>>, p: int, b: int, x: Buf)
    requires Locks(bufs, held) && 0 <= p < |held| && 0 <= b < |bufs| && b in held[p] && !x.busy
    ensures Locks(bufs[b := x], held[p := held[p] - {b}])
  {
    var held' := held[p := held[p] - {b}];
    var bufs' := bufs[b := x];
    forall c | 0 <= c < |bufs| && bufs'[c].busy
      ensures Taken(held', c)
    {
      var q :| 0 <= q < |held| && c in held[q];
      assert c in held'[q];
    }
  }

  lemma GetRest(s: Sys, p: int, g: Got)
    requires Inv(s) && Enabled(s, Get(p, g)) && !g.Asleep?
    ensures var s' := Step(s, Get(p, g));
      Identity(s'.bufs, s'.disk) && Coherent(s'.bufs, s'.disk, s'.changed)
  {
    hide Order, GetOutcome, Acts, Locks, Device;
    GetFacts(s, p, g);
  }

  lemma GetQueue(s: Sys, p: int, g: Got)
    requires Inv(s) && Enabled(s, Get(p, g)) && !g.Asleep?
    ensures var s' := Step(s, Get(p, g));
      Requests(s'.bufs, s'.queue, s'.act, s'.held) && Device(s'.bufs, s'.queue, s'.ctl, s'.disk)
  {
    hide Order, GetOutcome, Plausible, Identity, Coherent;
    GetFacts(s, p, g);
  }

  lemma GetActs(s: Sys, p: int, g: Got)
    requires Inv(s) && Enabled(s, Get(p, g)) && !g.Asleep?
    ensures var s' := Step(s, Get(p, g)); Acts(s'.bufs, s'.queue, s'.act, s'.held, s'.disk, s'.changed)
  {
    hide Order, GetOutcome, Identity, Device, Coherent;
    GetFacts(s, p, g);
  }

  lemma GetKeeps(s: Sys, p: int, g: Got)
    requires Inv(s) && Enabled(s, Get(p, g))
    ensures Inv(Step(s, Get(p, g)))
  {
    hide Order, GetOutcome, Identity, Locks, Device, Coherent;
    GetFacts(s, p, g);
    if !g.Asleep? {
      hide Acts, Requests;
      GetRest(s, p, g);
      GetQueue(s, p, g);
      GetActs(s, p, g);
      LockTaken(s.bufs, s.held, p, g.b, Claimed(s.bufs, g, s.act[p].dev, s.act[p].sector)[g.b]);
    }
  }

  // ---- bread, bwrite and brelse ----

  lemma BreadKeeps(s: Sys, p: int, dev: U32, sector: U32)
    requires Inv(s) && Enabled(s, Bread(p, dev, sector))
    ensures Inv(Step(s, Bread(p, dev, sector)))
  {
  }

  // A buffer of p's that is not queued and needs the disk may be queued.
  lemma EnqueueKeeps(s: Sys, p: int, b: int)
    requires Inv(s) && Proc(s, p) && b in s.held[p] && !s.act[p].Waiting? && 0 <= b < |s.bufs|
    requires !s.bufs[b].valid
    ensures Inv(Enqueued(s, p, b))
  {
    hide Order, Identity, Coherent;
    HeldNotQueued(s, p, b);
  }

  lemma FetchKeeps(s: Sys, p: int)
    requires Inv(s) && Enabled(s, Fetch(p))
    ensures Inv(Step(s, Fetch(p)))
  {
    var b := s.act[p].b;
    assert Plausible(s.bufs, s.queue, s.act[p], s.held[p], s.disk, s.changed);
    if s.bufs[b].valid {
      HeldNotQueued(s, p, b);
    } else {
      hide Inv;
      EnqueueKeeps(s, p, b);
    }
  }

  lemma ChangeKeeps(s: Sys, p: int, b: int, data: Block)
    requires Inv(s) && Enabled(s, Change(p, b, data))
    ensures Inv(Step(s, Change(p, b, data)))
  {
    hide Order, Identity, Locks;
    HeldNotQueued(s, p, b);
    TouchedKeeps(s.bufs, Step(s, Change(p, b, data)).bufs, b, s.held, s.disk);
  }

  lemma BwriteRest(s: Sys, p: int, b: int)
    requires Inv(s) && Enabled(s, Bwrite(p, b))
    ensures var s' := Step(s, Bwrite(p, b));
      Requests(s'.bufs, s'.queue, s'.act, s'.held) && Acts(s'.bufs, s'.queue, s'.act, s'.held, s'.disk, s'.changed)
  {
    hide Order, Identity, Device, Coherent;
    HeldNotQueued(s, p, b);
  }

  lemma BwriteKeeps(s: Sys, p: int, b: int)
    requires Inv(s) && Enabled(s, Bwrite(p, b))
    ensures Inv(Step(s, Bwrite(p, b)))
  {
    HeldNotQueued(s, p, b);
    BwriteRest(s, p, b);
    hide Order, Identity, Locks, Requests, Acts;
    TouchedKeeps(s.bufs, Step(s, Bwrite(p, b)).bufs, b, s.held, s.disk);
  }

  lemma RecheckKeeps(s: Sys, p: int)
    requires Inv(s) && Enabled(s, Recheck(p))
    ensures Inv(Step(s, Recheck(p)))
  {
    hide Order, Identity, Locks, Device, Coherent;
  }

  lemma BrelseActs(s: Sys, p: int, b: int)
    requires Inv(s) && Enabled(s, Brelse(p, b))
    ensures var s' := Step(s, Brelse(p, b));
      Requests(s'.bufs, s'.queue, s'.act, s'.held) && Acts(s'.bufs, s'.queue, s'.act, s'.held, s'.disk, s'.changed)
  {
    hide Order, Identity, Device, Coherent;
    HeldNotQueued(s, p, b);
  }

  lemma BrelseRest(s: Sys, p: int, b: int)
    requires Inv(s) && Enabled(s, Brelse(p, b))
    ensures var s' := Step(s, Brelse(p, b));
      Identity(s'.bufs, s'.disk) && Device(s'.bufs, s'.queue, s'.ctl, s'.disk) && Coherent(s'.bufs, s'.disk, s'.changed)
  {
    hide Order, Acts;
    HeldNotQueued(s, p, b);
  }

  lemma BrelseKeeps(s: Sys, p: int, b: int)
    requires Inv(s) && Enabled(s, Brelse(p, b))
    ensures Inv(Step(s, Brelse(p, b)))
  {
    hide Order, Identity, Locks, Requests, Acts, Device, Coherent;
    BrelseActs(s, p, b);
    BrelseRest(s, p, b);
    LockDropped(s.bufs, s.held, p, b, s.bufs[b].(busy := false));
    ToFrontKeepsOrder(s.lru, |s.bufs|, b);
  }

  // ---- the disk ----

  lemma FinishKeeps(s: Sys)
    requires Inv(s) && Enabled(s, Finish)
    ensures Inv(Step(s, Finish))
  {
    hide Order, Locks, Requests, Plausible;
    var s' := Step(s, Finish);
    FinishCoherent(s);
    forall p | 0 <= p < |s.act|
      ensures Plausible(s'.bufs, s'.queue, s'.act[p], s'.held[p], s'.disk, s'.changed)
    {
      FinishPlausible(s, p);
    }
  }

  lemma FinishPlausible(s: Sys, p: int)
    requires Inv(s) && Enabled(s, Finish) && 0 <= p < |s.act|
    ensures var s' := Step(s, Finish); Plausible(s'.bufs, s'.queue, s'.act[p], s'.held[p], s'.disk, s'.changed)
  {
    hide Order, Locks, Requests, Coherent, Device, Identity;
    assert Plausible(s.bufs, s.queue, s.act[p], s.held[p], s.disk, s.changed);
  }

  lemma FinishCoherent(s: Sys)
    requires Inv(s) && Enabled(s, Finish)
    ensures var s' := Step(s, Finish);
      Identity(s'.bufs, s'.disk) && Coherent(s'.bufs, s'.disk, s'.changed)
  {
    hide Order, Locks, Acts;
  }

  lemma InterruptRequests(s: Sys)
    requires Inv(s) && Enabled(s, Interrupt) && s.queue != []
    ensures var s' := Interrupted(s); Requests(s'.bufs, s'.queue, s'.act, s'.held)
  {
    hide Order, Identity, Device, Coherent, Acts;
  }

  lemma InterruptPlausible(s: Sys, p: int)
    requires Inv(s) && Enabled(s, Interrupt) && s.queue != [] && 0 <= p < |s.act|
    ensures var s' := Interrupted(s); Plausible(s'.bufs, s'.queue, s'.act[p], s'.held[p], s'.disk, s'.changed)
  {
    hide Order, Identity, Device, Coherent;
    assert Plausible(s.bufs, s.queue, s.act[p], s.held[p], s.disk, s.changed);
  }

  lemma InterruptActs(s: Sys)
    requires Inv(s) && Enabled(s, Interrupt) && s.queue != []
    ensures var s' := Interrupted(s);
      Requests(s'.bufs, s'.queue, s'.act, s'.held) && Acts(s'.bufs, s'.queue, s'.act, s'.held, s'.disk, s'.changed)
  {
    hide Order, Identity, Device, Coherent, Requests, Plausible;
    var s' := Interrupted(s);
    InterruptRequests(s);
    forall p | 0 <= p < |s.act|
      ensures Plausible(s'.bufs, s'.queue, s'.act[p], s'.held[p], s'.disk, s'.changed)
    {
      InterruptPlausible(s, p);
    }
  }

  lemma InterruptRest(s: Sys)
    requires Inv(s) && Enabled(s, Interrupt) && s.queue != []
    ensures var s' := Interrupted(s);
      Device(s'.bufs, s'.queue, s'.ctl, s'.disk) && Coherent(s'.bufs, s'.disk, s'.changed)
  {
    hide Order, Acts, Identity, Locks;
  }

  lemma InterruptKeeps(s: Sys)
    requires Inv(s) && Enabled(s, Interrupt)
    ensures Inv(Step(s, Interrupt))
  {
    hide Order, Identity, Locks, Acts, Device, Coherent;
    if s.queue != [] {
      InterruptActs(s);
      InterruptRest(s);
      TouchedKeeps(s.bufs, Interrupted(s).bufs, s.queue[0], s.held, s.disk);
    }
  }

  // ---- every run ----

  lemma StepKeepsInv(s: Sys, e: Event)
    requires Inv(s) && Enabled(s, e)
    ensures Inv(Step(s, e))
  {
    hide Inv;
    match e {
      case Bread(p, dev, sector) => BreadKeeps(s, p, dev, sector);
      case Get(p, g) => GetKeeps(s, p, g);
      case Fetch(p) => FetchKeeps(s, p);
      case Change(p, b, data) => ChangeKeeps(s, p, b, data);
      case Bwrite(p, b) => BwriteKeeps(s, p, b);
      case Recheck(p) => RecheckKeeps(s, p);
      case Brelse(p, b) => BrelseKeeps(s, p, b);
      case Finish => FinishKeeps(s);
      case Interrupt => InterruptKeeps(s);
    }
  }

  // After binit and ideinit.
  ghost predicate Boot(s: Sys) {
    && Order(s.lru, |s.bufs|)
    && (forall b :: 0 <= b < |s.bufs| ==> Unused(s.bufs[b]) && !s.bufs[b].dirty)
    && s.queue == [] && s.ctl == Quiet && s.changed == {} && |s.act| == |s.held|
    && forall p :: 0 <= p < |s.act| ==> s.act[p] == Running && s.held[p] == {}
  }

  ghost predicate IsRun(ss: seq<Sys>, es: seq<Event>) {
    |ss| == |es| + 1 && forall k :: 0 <= k < |es| ==> Enabled(ss[k], es[k]) && ss[k + 1] == Step(ss[k], es[k])
  }

  // ---- the list is the order of release ----

  // When buffer b was last released before step n, by the events alone; -1 for never.
  function LastRelease(es: seq<Event>, n: nat, b: int): (k: int)
    requires n <= |es|
    ensures -1 <= k < n
    ensures k >= 0 ==> es[k].Brelse? && es[k].b == b
    ensures forall i :: k < i < n ==> !(es[i].Brelse? && es[i].b == b)
  {
    if n == 0 then -1 else if es[n - 1].Brelse? && es[n - 1].b == b then n - 1 else LastRelease(es, n - 1, b)
  }

  // In every run, a buffer released later than another, or at all when the other never was, stands before it.
  lemma {:induction false} ReleaseOrder(ss: seq<Sys>, es: seq<Event>, n: nat, i: int, j: int)
    requires IsRun(ss, es) && Boot(ss[0]) && n <= |es| && 0 <= i < |ss[n].lru| && 0 <= j < |ss[n].lru|
    requires LastRelease(es, n, ss[n].lru[i]) > LastRelease(es, n, ss[n].lru[j])
    ensures i < j
    decreases n
  {
    hide Boot, Inv, Enabled, Step, ToFront;
    if n > 0 {
      var s, e := ss[n - 1], es[n - 1];
      RunsKeepInv(ss, es, n - 1);
      if e.Brelse? {
        var k := ReleasePlaces(s, e);
        if i > 0 && j > 0 {
          ReleaseOrder(ss, es, n - 1, if i <= k then i - 1 else i, if j <= k then j - 1 else j);
        }
      } else {
        SameOrder(s, e);
        ReleaseOrder(ss, es, n - 1, i, j);
      }
    }
  }

  lemma MovedPlaces(l: seq<int>, n: nat, b: int, k: int)
    requires Order(l, n) && 0 <= k < |l| && l[k] == b
    ensures var l' := [b] + (l[..k] + l[k + 1..]);
      |l'| == |l| && l'[0] == b && forall i :: 0 < i < |l| ==> l'[i] == l[if i <= k then i - 1 else i] != b
  {
  }

  lemma ReleasedList(s: Sys, e: Event)
    requires Inv(s) && Enabled(s, e) && e.Brelse?
    ensures Order(s.lru, |s.bufs|) && 0 <= e.b < |s.bufs| && Step(s, e).lru == ToFront(s.lru, e.b)
  {
  }

  // Where the entries of the list after a brelse were before it.
  lemma ReleasePlaces(s: Sys, e: Event) returns (k: int)
    requires Inv(s) && Enabled(s, e) && e.Brelse?
    ensures var l, l' := s.lru, Step(s, e).lru;
      && |l'| == |l| && 0 <= k < |l| && l'[0] == e.b
      && forall i :: 0 < i < |l| ==> l'[i] == l[if i <= k then i - 1 else i] != e.b
  {
    hide Inv, Enabled, Step, Order, ToFront;
    ReleasedList(s, e);
    ToFrontIs(s.lru, |s.bufs|, e.b);
    k :| 0 <= k < |s.lru| && s.lru[k] == e.b && ToFront(s.lru, e.b) == [e.b] + (s.lru[..k] + s.lru[k + 1..]);
    MovedPlaces(s.lru, |s.bufs|, e.b, k);
  }

  lemma OrderOfRun(s: Sys)
    requires Inv(s)
    ensures Order(s.lru, |s.bufs|)
  {
  }

  lemma SameOrder(s: Sys, e: Event)
    requires Enabled(s, e) && !e.Brelse?
    ensures Step(s, e).lru == s.lru
  {
    hide GetOutcome, Order;
  }

  // What bget recycles is, of the buffers nobody holds, the one released longest ago, or never.
  lemma RecycledIsOldest(ss: seq<Sys>, es: seq<Event>, n: nat, p: int, b: int, c: int)
    requires IsRun(ss, es) && Boot(ss[0]) && n < |es| && es[n] == Get(p, Recycled(b))
    requires 0 <= c < |ss[n].bufs| && !ss[n].bufs[c].busy
    ensures 0 <= b < |ss[n].bufs| && !ss[n].bufs[b].busy
    ensures LastRelease(es, n, b) <= LastRelease(es, n, c)
  {
    hide Boot, Inv;
    RunsKeepInv(ss, es, n);
    var s := ss[n];
    OrderOfRun(s);
    var k :| LastFree(s.bufs, s.lru, k) && s.lru[k] == b;
    assert c in s.lru;
    var j :| 0 <= j < |s.lru| && s.lru[j] == c;
    if LastRelease(es, n, b) > LastRelease(es, n, c) {
      ReleaseOrder(ss, es, n, k, j);
    }
  }

  lemma {:induction false} RunsKeepInv(ss: seq<Sys>, es: seq<Event>, n: nat)
    requires IsRun(ss, es) && Boot(ss[0]) && n <= |es|
    ensures Inv(ss[n])
  {
    if n > 0 {
      hide Boot, Inv;
      RunsKeepInv(ss, es, n - 1);
      StepKeepsInv(ss[n - 1], es[n - 1]);
    }
  }

  // ---- the cache is transparent ----

  // What the machine holds for a sector: the data on its way to the disk, if a write is queued, or else the disk's.
  ghost predicate InFlight(s: Sys, b: int, a: Address) {
    0 <= b < |s.bufs| && s.bufs[b].dirty && Wire(s.bufs[b]) == a
  }

  ghost function Stored(s: Sys, a: Address): Block
    requires a in s.disk
  {
    if b :| InFlight(s, b, a) then s.bufs[b].data else s.disk[a]
  }

  lemma OneInFlight(s: Sys, b: int, c: int, a: Address)
    requires Inv(s) && InFlight(s, b, a) && 0 <= c < |s.bufs| && Wire(s.bufs[c]) == a && !Unused(s.bufs[c])
    ensures b == c
  {
  }

  lemma StoredIs(s: Sys, b: int, a: Address)
    requires Inv(s) && a in s.disk && InFlight(s, b, a)
    ensures Stored(s, a) == s.bufs[b].data
  {
    forall c | InFlight(s, c, a) ensures c == b {
      DirtyIsUsed(s, c);
      OneInFlight(s, b, c, a);
    }
  }

  lemma DirtyIsUsed(s: Sys, b: int)
    requires Inv(s) && 0 <= b < |s.bufs| && s.bufs[b].dirty
    ensures b in s.queue && s.bufs[b].busy && Real(s.disk, s.bufs[b].dev, s.bufs[b].sector)
  {
  }

  ghost predicate WritesTo(s: Sys, e: Event, a: Address) {
    e.Bwrite? && 0 <= e.b < |s.bufs| && Wire(s.bufs[e.b]) == a
  }

  // A step that leaves dirty buffers as they are, and the disk, changes nothing stored.
  lemma SameStored(s: Sys, s': Sys, a: Address)
    requires Inv(s) && Inv(s') && a in s.disk && s'.disk == s.disk
    requires forall b :: InFlight(s', b, a) ==> InFlight(s, b, a)
    requires forall b :: InFlight(s, b, a) ==> InFlight(s', b, a) && s'.bufs[b].data == s.bufs[b].data
    ensures Stored(s', a) == Stored(s, a)
  {
    hide Inv;
    if b :| InFlight(s, b, a) {
      StoredIs(s, b, a);
      StoredIs(s', b, a);
    }
  }

  lemma BwriteStored(s: Sys, p: int, b: int, a: Address)
    requires Inv(s) && Enabled(s, Bwrite(p, b)) && Inv(Step(s, Bwrite(p, b))) && a in s.disk
    ensures Stored(Step(s, Bwrite(p, b)), a) == if Wire(s.bufs[b]) == a then s.bufs[b].data else Stored(s, a)
  {
    hide Inv;
    var s' := Step(s, Bwrite(p, b));
    if Wire(s.bufs[b]) == a {
      assert InFlight(s', b, a);
      StoredIs(s', b, a);
    } else {
      assert forall c :: InFlight(s', c, a) <==> InFlight(s, c, a);
      SameStored(s, s', a);
    }
  }

  // The disk takes in exactly the data on its way.
  lemma FinishStored(s: Sys, a: Address)
    requires Inv(s) && Enabled(s, Finish) && Inv(Step(s, Finish)) && a in s.disk
    ensures Stored(Step(s, Finish), a) == Stored(s, a)
  {
    var s' := Step(s, Finish);
    var b := s.queue[0];
    if s.bufs[b].dirty && Wire(s.bufs[b]) == a {
      hide Inv;
      assert InFlight(s, b, a) && InFlight(s', b, a);
      StoredIs(s, b, a);
      StoredIs(s', b, a);
    } else if c :| InFlight(s, c, a) {
      hide Inv;
      assert InFlight(s', c, a);
      StoredIs(s, c, a);
      StoredIs(s', c, a);
    } else {
      assert forall c :: InFlight(s', c, a) <==> InFlight(s, c, a);
    }
  }

  lemma HeadDone(s: Sys)
    requires Inv(s) && Enabled(s, Interrupt) && s.queue != []
    ensures var b := s.bufs[s.queue[0]]; b.dirty ==> Wire(b) in s.disk && s.disk[Wire(b)] == b.data
  {
    hide Order, Acts, Identity, Locks, Coherent, Requests;
  }

  // When the interrupt takes a write off the queue, its data is on the disk.
  lemma InterruptStored(s: Sys, a: Address)
    requires Inv(s) && Enabled(s, Interrupt) && s.queue != [] && Inv(Interrupted(s)) && a in s.disk
    ensures Stored(Interrupted(s), a) == Stored(s, a)
  {
    hide Inv;
    var s', b := Interrupted(s), s.queue[0];
    HeadDone(s);
    if InFlight(s, b, a) {
      StoredIs(s, b, a);
      forall c | InFlight(s, c, a)
        ensures c == b
      {
        DirtyIsUsed(s, c);
        OneInFlight(s, b, c, a);
      }
      assert forall c :: InFlight(s', c, a) ==> InFlight(s, c, a);
      assert !InFlight(s', b, a);
    } else {
      assert forall c :: InFlight(s', c, a) <==> InFlight(s, c, a);
      SameStored(s, s', a);
    }
  }

  // Every other step leaves the dirty buffers and the disk alone.
  lemma QuietStored(s: Sys, e: Event, a: Address)
    requires Inv(s) && Enabled(s, e) && Inv(Step(s, e)) && a in s.disk
    requires !e.Bwrite? && !e.Finish? && !e.Interrupt?
    requires e.Change? ==> !s.bufs[e.b].dirty
    requires e.Get? && !e.g.Asleep? ==> !s.bufs[e.g.b].dirty
    ensures a in Step(s, e).disk && Stored(Step(s, e), a) == Stored(s, a)
  {
    hide Inv, GetOutcome, Order, Stored;
    SameStored(s, Step(s, e), a);
  }

  // Only bwrite changes what is stored, and only in the sector of the buffer it writes.
  lemma StepStored(s: Sys, e: Event, a: Address)
    requires Inv(s) && Enabled(s, e) && a in s.disk
    ensures a in Step(s, e).disk
    ensures Stored(Step(s, e), a) == if WritesTo(s, e, a) then s.bufs[e.b].data else Stored(s, a)
  {
    hide Inv, GetOutcome, Order;
    var s' := Step(s, e);
    StepKeepsInv(s, e);
    match e {
      case Bwrite(p, b) =>
        BwriteStored(s, p, b, a);
      case Finish =>
        FinishStored(s, a);
      case Interrupt =>
        if s.queue != [] {
          InterruptStored(s, a);
        }
      case Change(p, b, data) =>
        HeldNotQueued(s, p, b);
        QuietStored(s, e, a);
      case Get(p, g) =>
        GetFacts(s, p, g);
        QuietStored(s, e, a);
      case _ => QuietStored(s, e, a);
    }
  }

  // The data of the last bwrite to the sector before step n, or what the disk held at the start.
  ghost function LastBwrite(ss: seq<Sys>, es: seq<Event>, n: nat, a: Address): Block
    requires IsRun(ss, es) && n <= |es| && a in ss[0].disk
  {
    if n == 0 then ss[0].disk[a]
    else if WritesTo(ss[n - 1], es[n - 1], a) then ss[n - 1].bufs[es[n - 1].b].data
    else LastBwrite(ss, es, n - 1, a)
  }

  lemma {:induction false} StoredIsLastBwrite(ss: seq<Sys>, es: seq<Event>, n: nat, a: Address)
    requires IsRun(ss, es) && Boot(ss[0]) && n <= |es| && a in ss[0].disk
    ensures Inv(ss[n]) && a in ss[n].disk && Stored(ss[n], a) == LastBwrite(ss, es, n, a)
  {
    RunsKeepInv(ss, es, n);
    if n > 0 {
      hide Inv, Boot;
      StoredIsLastBwrite(ss, es, n - 1, a);
      StepStored(ss[n - 1], es[n - 1], a);
    }
  }

  lemma {:induction false} SameSectors(ss: seq<Sys>, es: seq<Event>, n: nat)
    requires IsRun(ss, es) && n <= |es|
    ensures ss[n].disk.Keys == ss[0].disk.Keys
  {
    if n > 0 {
      SameSectors(ss, es, n - 1);
    }
  }

  // In every run from boot, a process that has a buffer back from bread, and has not changed it, reads in it the last
  // data written to its sector by anybody.
  lemma BreadSeesLastBwrite(ss: seq<Sys>, es: seq<Event>, n: nat, p: int, b: int)
    requires IsRun(ss, es) && Boot(ss[0]) && n <= |es|
    requires Holder(ss[n], p, b) && b !in ss[n].changed
    ensures ss[n].bufs[b].valid && Wire(ss[n].bufs[b]) in ss[0].disk
    ensures ss[n].bufs[b].data == LastBwrite(ss, es, n, Wire(ss[n].bufs[b]))
  {
    var s := ss[n];
    RunsKeepInv(ss, es, n);
    SameSectors(ss, es, n);
    HeldNotQueued(s, p, b);
    var a := Wire(s.bufs[b]);
    StoredIsLastBwrite(ss, es, n, a);
    if c :| InFlight(s, c, a) {
      OneInFlight(s, c, b, a);
    }
  }

  // When bread or bwrite returns, the process holds the buffer, and the buffer and the disk agree.
  lemma ReturnsInAgreement(s: Sys, e: Event, p: int)
    requires Inv(s) && Enabled(s, e) && Proc(s, p) && (s.act[p].Fetching? || s.act[p].Waiting?)
    requires Step(s, e).act[p] == Running
    ensures var b := s.act[p].b; var s' := Step(s, e);
      Holder(s', p, b) && Settled(s'.bufs[b]) && Wire(s'.bufs[b]) in s'.disk
        && s'.disk[Wire(s'.bufs[b])] == s'.bufs[b].data
  {
    hide Order, GetOutcome, Requests, Device, Identity, Locks, Acts;
    AwaitedBuffer(s, p);
  }

  lemma AwaitedBuffer(s: Sys, p: int)
    requires Inv(s) && Proc(s, p) && (s.act[p].Fetching? || s.act[p].Waiting?)
    ensures var b := s.act[p].b;
      && b in s.held[p] && 0 <= b < |s.bufs|
      && (s.act[p].Fetching? ==> !s.bufs[b].dirty && b !in s.changed)
      && (Settled(s.bufs[b]) ==> b !in s.changed)
  {
    hide Order, Device, Identity;
    assert Plausible(s.bufs, s.queue, s.act[p], s.held[p], s.disk, s.changed);
    if s.act[p].Fetching? {
      HeldNotQueued(s, p, s.act[p].b);
    }
  }

  // bget gives the process a buffer of the sector it asked for, which nobody else holds.
  lemma GetGivesSector(s: Sys, p: int, g: Got)
    requires Inv(s) && Enabled(s, Get(p, g)) && !g.Asleep?
    ensures var s' := Step(s, Get(p, g));
      g.b in s'.held[p] && Cached(s'.bufs[g.b], s.act[p].dev, s.act[p].sector)
      && forall q :: 0 <= q < |s.held| && q != p ==> g.b !in s'.held[q]
  {
    GetFacts(s, p, g);
  }

  // Until its holder releases it, a buffer stays with that holder and that sector; once filled it changes only when
  // the holder changes it.
  lemma HolderAlone(s: Sys, e: Event, p: int, b: int)
    requires Inv(s) && Enabled(s, e) && Proc(s, p) && b in s.held[p] && 0 <= b < |s.bufs| && e != Brelse(p, b)
    ensures var s' := Step(s, e);
      && b in s'.held[p] && s'.bufs[b].dev == s.bufs[b].dev && s'.bufs[b].sector == s.bufs[b].sector
      && (s.bufs[b].valid && !(e.Change? && e.p == p && e.b == b) ==>
           s'.bufs[b].valid && s'.bufs[b].data == s.bufs[b].data)
  {
    hide Order, GetOutcome, Acts, Device, Identity, Coherent;
    match e {
      case Get(q, g) =>
        if !g.Asleep? {
          GetFacts(s, q, g);
        }
      case Bread(q, dev, sector) =>
      case Fetch(q) =>
      case Change(q, x, data) =>
      case Bwrite(q, x) =>
      case Recheck(q) =>
      case Brelse(q, x) =>
      case Finish =>
      case Interrupt =>
    }
  }

  // ---- progress ----

  // Whoever sleeps for the disk has its request queued; whoever sleeps for a buffer sleeps on one that somebody holds.
  lemma SleepersAreAwaited(s: Sys, p: int)
    requires Inv(s) && Proc(s, p)
    ensures s.act[p].Waiting? && s.act[p].asleep ==> s.act[p].b in s.queue
    ensures s.act[p].Blocked? ==> Taken(s.held, s.act[p].b)
  {
    assert Plausible(s.bufs, s.queue, s.act[p], s.held[p], s.disk, s.changed);
  }

  // A queued request always has the disk at work or its interrupt raised.
  lemma DiskAtWork(s: Sys)
    requires Inv(s) && s.queue != []
    ensures Enabled(s, Finish) || Enabled(s, Interrupt)
    ensures s.ctl.cmd == CommandFor(s.bufs[s.queue[0]])
  {
    assert Real(s.disk, s.bufs[s.queue[0]].dev, s.bufs[s.queue[0]].sector);
  }

  // The interrupt finishes the request at the head and wakes its holder and everyone else asleep on that buffer.
  lemma InterruptServes(s: Sys, p: int)
    requires Inv(s) && Enabled(s, Interrupt) && s.queue != [] && Proc(s, p)
    ensures var s' := Step(s, Interrupt);
      Settled(s'.bufs[s.queue[0]]) && s.queue[0] !in s'.queue && s'.act[p] != Waiting(s.queue[0], true)
  {
  }

  // Interrupts that served a request, among the first n steps.
  ghost function Served(ss: seq<Sys>, es: seq<Event>, n: nat): nat
    requires IsRun(ss, es) && n <= |es|
  {
    if n == 0 then 0 else Served(ss, es, n - 1) + if es[n - 1] == Interrupt && ss[n - 1].queue != [] then 1 else 0
  }

  // Requests are served in the order in which they were queued: one behind k others waits for exactly k interrupts
  // to reach the head, and nothing overtakes it.
  lemma {:induction false} FirstComeFirstServed(ss: seq<Sys>, es: seq<Event>, n: nat, k: nat)
    requires IsRun(ss, es) && n <= |es| && k < |ss[0].queue| && Served(ss, es, n) <= k
    ensures At(ss[n].queue, k - Served(ss, es, n), ss[0].queue[k])
  {
    hide Enabled, Step;
    if n > 0 {
      FirstComeFirstServed(ss, es, n - 1, k);
      QueueStep(ss[n - 1], es[n - 1], k - Served(ss, es, n - 1));
    }
  }

  predicate At(q: seq<int>, i: int, b: int) {
    0 <= i < |q| && q[i] == b
  }

  lemma QueueStep(s: Sys, e: Event, i: nat)
    requires Enabled(s, e) && i < |s.queue|
    ensures var q := Step(s, e).queue;
      if e == Interrupt then i == 0 || At(q, i - 1, s.queue[i]) else At(q, i, s.queue[i])
  {
    hide GetOutcome, Order;
  }

  // The panics of iderw ("buf not busy", "nothing to do"), bwrite and brelse are out of reach.
  lemma NoPanic(s: Sys, e: Event)
    requires Inv(s) && Enabled(s, e)
    ensures e.Fetch? && !s.bufs[s.act[e.p].b].valid ==> s.bufs[s.act[e.p].b].busy
    ensures e.Bwrite? || e.Brelse? ==> s.bufs[e.b].busy
    ensures e.Bwrite? ==> !Settled(s.bufs[e.b].(dirty := true))
  {
    if e.Fetch? {
      assert Plausible(s.bufs, s.queue, s.act[e.p], s.held[e.p], s.disk, s.changed);
    }
  }

  // bget's search has one outcome; the panic "no buffers" is that outcome only when every buffer is held by somebody.
  lemma GetDecides(s: Sys, p: int) returns (g: Got)
    requires Inv(s) && Proc(s, p) && s.act[p].Seeking?
    ensures GetOutcome(s.bufs, s.lru, s.act[p].dev, s.act[p].sector, g)
    ensures forall h :: GetOutcome(s.bufs, s.lru, s.act[p].dev, s.act[p].sector, h) ==> h == g
    ensures g == Full ==> forall b :: 0 <= b < |s.bufs| ==> Taken(s.held, b)
  {
    var dev, sector := s.act[p].dev, s.act[p].sector;
    var k := FirstPlace(s.bufs, s.lru, dev, sector);
    var j := LastPlace(s.bufs, s.lru);
    hide Inv, Identity, Requests, Acts, Device, Coherent;
    if k < |s.lru| {
      g := if s.bufs[s.lru[k]].busy then Asleep(s.lru[k]) else Hit(s.lru[k]);
    } else {
      g := if 0 <= j then Recycled(s.lru[j]) else Full;
    }
  }
}
