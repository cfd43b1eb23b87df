/** Pipes: a ring buffer with wrapping counters that behaves as a bounded queue, and who sleeps on it. */
module Pipe {
  import opened Basics
  import opened DiskFormat

  const PIPESIZE := 512
  const WRAP := 0x1_0000_0000 // nread and nwrite are 32-bit

  // What becomes of a process at the end of its turn under the lock: -1, asleep, or finished.
  datatype Outcome = Failed | Asleep | Done

  // How many of n bytes fit, and how a turn of pipewrite ends that cannot store more.
  function Room(stored: seq<Byte>, taken: nat): int {
    PIPESIZE - (|stored| - taken)
  }

  function WriteOutcome(n: nat, room: int, readopen: bool, killed: bool): Outcome {
    if n <= room then Done else if !readopen || killed then Failed else Asleep
  }

  function ReadOutcome(held: int, writeopen: bool, killed: bool): Outcome {
    if held > 0 || !writeopen then Done else if killed then Failed else Asleep
  }

  // ---- counters ----

  lemma ModOfMod(k: nat)
    ensures (k % WRAP) % PIPESIZE == k % PIPESIZE
  {
    var q := k / WRAP;
    assert k == PIPESIZE * (0x80_0000 * q) + k % WRAP;
    SameRemainder(0x80_0000 * q, k % WRAP);
  }

  lemma {:induction false} SameRemainder(q: nat, r: nat)
    ensures (PIPESIZE * q + r) % PIPESIZE == r % PIPESIZE
  {
    if q > 0 {
      SameRemainder(q - 1, r);
      assert (PIPESIZE * q + r) % PIPESIZE == (PIPESIZE * (q - 1) + r + PIPESIZE) % PIPESIZE;
    }
  }

  // The counters tell an empty pipe and a full one, however often they have wrapped.
  lemma CountersTell(taken: nat, stored: nat)
    requires taken <= stored <= taken + PIPESIZE
    ensures taken % WRAP == stored % WRAP <==> stored == taken
    ensures stored % WRAP == (taken % WRAP + PIPESIZE) % WRAP <==> stored == taken + PIPESIZE
  {
    var d := stored - taken;
    assert (taken % WRAP + d) % WRAP == stored % WRAP;
  }

  lemma NextCount(k: nat)
    ensures (k % WRAP + 1) % WRAP == (k + 1) % WRAP
  {
  }

  lemma SlotsApart(j: nat, k: nat)
    requires j < k < j + PIPESIZE
    ensures j % PIPESIZE != k % PIPESIZE
  {
  }

  class Ring {
    const data: array<Byte>
    var nread: U32
    var nwrite: U32
    var readopen: bool
    var writeopen: bool
    ghost var stored: seq<Byte> // every byte ever stored
    ghost var taken: nat        // how many have been read

    ghost predicate Valid()
      reads this, data
    {
      && data.Length == PIPESIZE
      && taken <= |stored| <= taken + PIPESIZE
      && nread == taken % WRAP && nwrite == |stored| % WRAP
      && forall k :: taken <= k < |stored| ==> data[k % PIPESIZE] == stored[k]
    }

    // pipealloc, when its allocations succeed.
    constructor ()
      ensures Valid() && stored == [] && taken == 0 && readopen && writeopen && fresh(data)
    {
      data := new Byte[PIPESIZE](_ => 0);
      nread, nwrite, readopen, writeopen := 0, 0, true, true;
      stored, taken := [], 0;
    }

    // Store c at the write counter, wrapped into the buffer, and count it.
    method Put(c: Byte)
      requires Valid() && |stored| < taken + PIPESIZE
      modifies data, this`nwrite, this`stored
      ensures Valid() && stored == old(stored) + [c]
    {
      ModOfMod(|stored|);
      NextCount(|stored|);
      forall k | taken <= k < |stored| ensures k % PIPESIZE != |stored| % PIPESIZE {
        SlotsApart(k, |stored|);
      }
      data[nwrite % PIPESIZE] := c;
      nwrite := (nwrite + 1) % WRAP;
      stored := stored + [c];
    }

    // Take the byte at the read counter, wrapped into the buffer, and count it.
    method Take() returns (c: Byte)
      requires Valid() && taken < |stored|
      modifies this`nread, this`taken
      ensures Valid() && taken == old(taken) + 1 && c == stored[old(taken)]
    {
      ModOfMod(taken);
      NextCount(taken);
      c := data[nread % PIPESIZE];
      nread := (nread + 1) % WRAP;
      taken := taken + 1;
    }

    predicate Full()
      reads this
    {
      nwrite == (nread + PIPESIZE) % WRAP
    }

    predicate Empty()
      reads this
    {
      nread == nwrite
    }

    lemma FullEmpty()
      requires Valid()
      ensures Full() <==> |stored| == taken + PIPESIZE
      ensures Empty() <==> |stored| == taken
    {
      CountersTell(taken, |stored|);
    }

    // A turn of pipewrite with bytes left to store: from taking the lock, or from waking, to giving it up.
    method Write(bytes: seq<Byte>, killed: bool) returns (i: nat, r: Outcome)
      requires Valid()
      modifies data, this`nwrite, this`stored
      ensures Valid()
      ensures i == Min(|bytes|, Room(old(stored), taken)) && stored == old(stored) + bytes[..i]
      ensures r == WriteOutcome(|bytes|, Room(old(stored), taken), readopen, killed)
      // In numbers.
      ensures i == Min(|bytes|, 512 - (|old(stored)| - taken))
      ensures r == Done <==> |bytes| <= 512 - (|old(stored)| - taken)
      ensures r == Failed <==> |bytes| > 512 - (|old(stored)| - taken) && (!readopen || killed)
    {
      hide Full, Empty;
      i := 0;
      while i < |bytes|
        invariant Valid() && 0 <= i <= |bytes| && i <= Room(old(stored), taken)
        invariant stored == old(stored) + bytes[..i]
      {
        FullEmpty();
        if Full() {
          return i, if !readopen || killed then Failed else Asleep;
        }
        Put(bytes[i]);
        i := i + 1;
      }
      r := Done;
    }

    // A turn of piperead.
    method Read(n: nat, killed: bool) returns (out: seq<Byte>, r: Outcome)
      requires Valid()
      modifies this`nread, this`taken
      ensures Valid()
      ensures r == ReadOutcome(|stored| - old(taken), writeopen, killed)
      ensures r == Done <==> |stored| > old(taken) || !writeopen
      ensures r == Failed <==> |stored| == old(taken) && writeopen && killed
      ensures out == if r == Done then stored[old(taken)..old(taken) + Min(n, |stored| - old(taken))] else []
      ensures taken == old(taken) + |out|
    {
      hide Full, Empty;
      FullEmpty();
      out := [];
      if Empty() && writeopen {
        return [], if killed then Failed else Asleep;
      }
      while |out| < n
        invariant Valid() && |out| <= n && taken == old(taken) + |out| && out == stored[old(taken)..taken]
        decreases n - |out|
      {
        FullEmpty();
        if Empty() {
          break;
        }
        var c := Take();
        out := out + [c];
      }
      FullEmpty();
      r := Done;
    }

    // pipeclose; true when both ends are closed and the pipe's page is freed.
    method Close(writable: bool) returns (gone: bool)
      requires Valid()
      modifies this`readopen, this`writeopen
      ensures Valid()
      ensures readopen == (old(readopen) && writable) && writeopen == (old(writeopen) && !writable)
      ensures gone == (!readopen && !writeopen)
    {
      if writable {
        writeopen := false;
      } else {
        readopen := false;
      }
      gone := !readopen && !writeopen;
    }
  }

  // ---- processes on a pipe ----

  datatype Activity = Idle | Writing(rest: seq<Byte>, asleep: bool) | Reading(n: nat, asleep: bool)

  datatype Sys = Sys(stored: seq<Byte>, taken: nat, readopen: bool, writeopen: bool, act: seq<Activity>)

  datatype Event =
    | StartWrite(p: int, bytes: seq<Byte>)
    | StartRead(p: int, n: nat)
    | WriteTurn(p: int, killed: bool)
    | ReadTurn(p: int, killed: bool)
    | Rouse(p: int)                // kill wakes a sleeper
    | CloseRead
    | CloseWrite

  predicate In(s: Sys, p: int) {
    0 <= p < |s.act|
  }

  // An end is closed only when no process uses it: a read or write under way keeps its file open.
  predicate Enabled(s: Sys, e: Event) {
    match e
    case StartWrite(p, bytes) => In(s, p) && s.act[p].Idle? && s.writeopen
    case StartRead(p, n) => In(s, p) && s.act[p].Idle? && s.readopen
    case WriteTurn(p, killed) => In(s, p) && s.act[p].Writing? && !s.act[p].asleep
    case ReadTurn(p, killed) => In(s, p) && s.act[p].Reading? && !s.act[p].asleep
    case Rouse(p) => In(s, p) && !s.act[p].Idle?
    case CloseRead => s.readopen && forall p :: 0 <= p < |s.act| ==> !s.act[p].Reading?
    case CloseWrite => s.writeopen && forall p :: 0 <= p < |s.act| ==> !s.act[p].Writing?
  }

  function Roused(a: Activity, readers: bool): Activity {
    if readers && a.Reading? then Reading(a.n, false) else if !readers && a.Writing? then Writing(a.rest, false) else a
  }

  // Readers sleep on the read counter, writers on the write counter.
  function Wakeup(act: seq<Activity>, readers: bool): seq<Activity> {
    seq(|act|, p requires 0 <= p < |act| => Roused(act[p], readers))
  }

  function WriteStep(s: Sys, p: int, killed: bool): Sys
    requires In(s, p) && s.act[p].Writing? && 0 <= Room(s.stored, s.taken)
  {
    var rest := s.act[p].rest;
    var i := Min(|rest|, Room(s.stored, s.taken));
    var s' := s.(stored := s.stored + rest[..i]);
    match WriteOutcome(|rest|, Room(s.stored, s.taken), s.readopen, killed)
    case Failed => s'.(act := s.act[p := Idle])
    case Asleep => s'.(act := Wakeup(s.act, true)[p := Writing(rest[i..], true)])
    case Done => s'.(act := Wakeup(s.act[p := Idle], true))
  }

  function ReadStep(s: Sys, p: int, killed: bool): Sys
    requires In(s, p) && s.act[p].Reading? && s.taken <= |s.stored|
  {
    match ReadOutcome(|s.stored| - s.taken, s.writeopen, killed)
    case Failed => s.(act := s.act[p := Idle])
    case Asleep => s.(act := s.act[p := Reading(s.act[p].n, true)])
    case Done => s.(taken := s.taken + Min(s.act[p].n, |s.stored| - s.taken), act := Wakeup(s.act[p := Idle], false))
  }

  predicate Bounded(s: Sys) {
    s.taken <= |s.stored| <= s.taken + PIPESIZE
  }

  function Step(s: Sys, e: Event): Sys
    requires Enabled(s, e) && Bounded(s)
  {
    match e
    case StartWrite(p, bytes) => s.(act := s.act[p := Writing(bytes, false)])
    case StartRead(p, n) => s.(act := s.act[p := Reading(n, false)])
    case WriteTurn(p, killed) => WriteStep(s, p, killed)
    case ReadTurn(p, killed) => ReadStep(s, p, killed)
    case Rouse(p) =>
      var a := s.act[p];
      s.(act := s.act[p := if a.Writing? then Writing(a.rest, false) else Reading(a.n, false)])
    case CloseRead => s.(readopen := false, act := Wakeup(s.act, false))
    case CloseWrite => s.(writeopen := false, act := Wakeup(s.act, true))
  }

  // ---- nobody sleeps in vain ----

  ghost predicate ReadersWait(s: Sys) {
    forall p :: 0 <= p < |s.act| && s.act[p].Reading? && s.act[p].asleep ==> |s.stored| == s.taken && s.writeopen
  }

  ghost predicate WritersWait(s: Sys) {
    forall p :: 0 <= p < |s.act| && s.act[p].Writing? && s.act[p].asleep ==>
      |s.stored| == s.taken + PIPESIZE && s.readopen
  }

  ghost predicate EndsOpen(s: Sys) {
    forall p :: 0 <= p < |s.act| ==> (s.act[p].Reading? ==> s.readopen) && (s.act[p].Writing? ==> s.writeopen)
  }

  ghost predicate Inv(s: Sys) {
    Bounded(s) && ReadersWait(s) && WritersWait(s) && EndsOpen(s)
  }

  // A killed writer fills the empty pipe and returns -1 without waking the readers.
  ghost predicate SilentFill(s: Sys, e: Event) {
    && e.WriteTurn? && e.killed && In(s, e.p) && s.act[e.p].Writing?
    && |s.stored| == s.taken && |s.act[e.p].rest| > PIPESIZE
    && exists q :: 0 <= q < |s.act| && s.act[q].Reading? && s.act[q].asleep
  }

  lemma WriteKeeps(s: Sys, p: int, killed: bool)
    requires Inv(s) && Enabled(s, WriteTurn(p, killed))
    ensures Inv(Step(s, WriteTurn(p, killed))) <==> !SilentFill(s, WriteTurn(p, killed))
  {
    var s' := Step(s, WriteTurn(p, killed));
    if SilentFill(s, WriteTurn(p, killed)) {
      var q :| 0 <= q < |s.act| && s.act[q].Reading? && s.act[q].asleep;
      assert s'.act[q] == s.act[q];
    }
  }

  // A sleeping reader means an empty pipe still open for writing, and a sleeping writer a full one still open for
  // reading, after a step exactly unless the step is such a silent fill.
  lemma StepKeeps(s: Sys, e: Event)
    requires Inv(s) && Enabled(s, e)
    ensures Inv(Step(s, e)) <==> !SilentFill(s, e)
  {
    if e.WriteTurn? {
      WriteKeeps(s, e.p, e.killed);
    }
  }

  ghost predicate IsRun(ss: seq<Sys>, es: seq<Event>) {
    |ss| == |es| + 1 && forall k :: 0 <= k < |es| ==>
      Enabled(ss[k], es[k]) && Bounded(ss[k])
      && ss[k + 1] == Step(ss[k], es[k])
  }

  ghost predicate Fresh(s: Sys) {
    s.stored == [] && s.taken == 0 && s.readopen && s.writeopen && forall p :: 0 <= p < |s.act| ==> s.act[p] == Idle
  }

  lemma {:induction false} RunsKeepInv(ss: seq<Sys>, es: seq<Event>, n: nat)
    requires IsRun(ss, es) && Fresh(ss[0]) && n <= |es| && forall k :: 0 <= k < n ==> !SilentFill(ss[k], es[k])
    ensures Inv(ss[n])
  {
    if n > 0 {
      RunsKeepInv(ss, es, n - 1);
      StepKeeps(ss[n - 1], es[n - 1]);
    }
  }

  // What a step hands to a reader, and what it takes from a writer.
  function Out(s: Sys, e: Event): seq<Byte>
    requires Enabled(s, e) && Bounded(s)
  {
    if e.ReadTurn? && ReadOutcome(|s.stored| - s.taken, s.writeopen, e.killed) == Done
    then s.stored[s.taken..s.taken + Min(s.act[e.p].n, |s.stored| - s.taken)] else []
  }

  function Taken(s: Sys, e: Event): seq<Byte>
    requires Enabled(s, e) && Bounded(s)
  {
    if e.WriteTurn? then s.act[e.p].rest[..Min(|s.act[e.p].rest|, Room(s.stored, s.taken))] else []
  }

  ghost function AllOut(ss: seq<Sys>, es: seq<Event>, n: nat): seq<Byte>
    requires IsRun(ss, es) && n <= |es|
  {
    if n == 0 then [] else AllOut(ss, es, n - 1) + Out(ss[n - 1], es[n - 1])
  }

  ghost function AllIn(ss: seq<Sys>, es: seq<Event>, n: nat): seq<Byte>
    requires IsRun(ss, es) && n <= |es|
  {
    if n == 0 then [] else AllIn(ss, es, n - 1) + Taken(ss[n - 1], es[n - 1])
  }

  // In every run, whoever is killed: the bytes read are the bytes written, in order, without gap or repetition, and
  // at most PIPESIZE of them are still to be read.
  lemma {:induction false} FirstInFirstOut(ss: seq<Sys>, es: seq<Event>, n: nat)
    requires IsRun(ss, es) && Fresh(ss[0]) && n <= |es|
    ensures Bounded(ss[n]) && ss[n].stored == AllIn(ss, es, n) && AllOut(ss, es, n) == AllIn(ss, es, n)[..ss[n].taken]
  {
    if n > 0 {
      hide Enabled, Step, Out, Taken, Fresh;
      FirstInFirstOut(ss, es, n - 1);
      StepMovesBytes(ss[n - 1], es[n - 1]);
      Prefixes(ss[n - 1].stored, ss[n - 1].taken, ss[n].taken, Taken(ss[n - 1], es[n - 1]));
    } else {
      assert ss[0].stored[..0] == [];
    }
  }

  lemma Prefixes(stored: seq<Byte>, a: nat, b: nat, more: seq<Byte>)
    requires a <= b <= |stored|
    ensures stored[..a] + stored[a..b] == (stored + more)[..b]
  {
  }

  lemma StepMovesBytes(s: Sys, e: Event)
    requires Enabled(s, e) && Bounded(s)
    ensures var s' := Step(s, e);
      Bounded(s') && s'.stored == s.stored + Taken(s, e) && s.taken <= s'.taken <= |s.stored|
        && Out(s, e) == s.stored[s.taken..s'.taken]
  {
  }

  // The silent fill, in the smallest case: one reader asleep, one killed writer with 513 bytes.  Afterwards the reader
  // sleeps on beside a full pipe.
  lemma KilledWriterStrandsReader()
    ensures exists s, e :: Inv(s) && Enabled(s, e) && Stranded(Step(s, e))
  {
    var bytes := seq(PIPESIZE + 1, _ => 0);
    var s := Sys([], 0, true, true, [Reading(1, true), Writing(bytes, false)]);
    var e := WriteTurn(1, true);
    assert Step(s, e).act[0] == Reading(1, true);
    assert Inv(s) && Enabled(s, e) && Stranded(Step(s, e));
  }

  ghost predicate Stranded(s: Sys) {
    Bounded(s) && |s.stored| > s.taken && exists p :: 0 <= p < |s.act| && s.act[p].Reading? && s.act[p].asleep
  }
}
