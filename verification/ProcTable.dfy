/** The process table of xv6/kernel/proc.c: what each region under ptable.lock does to it. */
module ProcTable {
  import opened Basics

  datatype State = UNUSED | EMBRYO | SLEEPING | RUNNABLE | RUNNING | ZOMBIE

  // What a process sleeps on: its own table slot (in wait), or some other kernel address.
  datatype Chan = Nowhere | Slot(slot: int) | Address(a: int)

  datatype Proc = Proc(state: State, pid: int, parent: int, chan: Chan, killed: bool,
                       tickets: int, pass: int, stride: int, nSchedule: int,
                       kstack: int, pgdir: int)

  type Table = seq<Proc>

  const MINTIX := 10
  const MAXTIX := 150
  const LCM := 3603600
  const LONG_MAX := 2147483647
  const NOBODY := -1   // a null struct proc pointer

  // ---- the stride scheduler ----

  // Runnable, with the least pass, and the first such in the table.
  ghost predicate IsPick(t: Table, i: int) {
    && 0 <= i < |t| && t[i].state == RUNNABLE
    && forall j :: 0 <= j < |t| && t[j].state == RUNNABLE ==>
         t[i].pass <= t[j].pass && (j < i ==> t[i].pass < t[j].pass)
  }

  predicate Overflows(p: Proc) {
    p.pass > 0 && p.stride > LONG_MAX - p.pass
  }

  function ZeroPasses(t: Table): (r: Table)
    ensures |r| == |t|
    ensures forall j :: 0 <= j < |t| ==> r[j] == if t[j].state != UNUSED then t[j].(pass := 0) else t[j]
  {
    seq(|t|, j requires 0 <= j < |t| => if t[j].state != UNUSED then t[j].(pass := 0) else t[j])
  }

  // The pass values after process i is charged for its turn.
  function Charged(t: Table, i: int): (r: Table)
    requires 0 <= i < |t|
    ensures |r| == |t|
  {
    if Overflows(t[i]) then ZeroPasses(t) else t[i := t[i].(pass := t[i].pass + t[i].stride)]
  }

  function Dispatched(t: Table, i: int): (r: Table)
    requires 0 <= i < |t|
    ensures |r| == |t|
  {
    var c := Charged(t, i);
    c[i := c[i].(state := RUNNING)]
  }

  // ---- pass of a newcomer ----

  // The least pass among the used processes below slot k other than pid.
  function LeastPass(t: Table, pid: int, k: nat): (r: Option<int>)
    requires k <= |t|
    ensures r.None? ==> forall j :: 0 <= j < k ==> t[j].state == UNUSED || t[j].pid == pid
    ensures r.Some? ==> exists j :: 0 <= j < k && t[j].state != UNUSED && t[j].pid != pid && t[j].pass == r.value
    ensures r.Some? ==> forall j :: 0 <= j < k && t[j].state != UNUSED && t[j].pid != pid ==> r.value <= t[j].pass
  {
    if k == 0 then None else
    var r := LeastPass(t, pid, k - 1);
    var q := t[k - 1];
    if q.state != UNUSED && q.pid != pid && (r.None? || q.pass < r.value) then Some(q.pass) else r
  }

  function NewPass(t: Table, i: int): int
    requires 0 <= i < |t|
  {
    match LeastPass(t, t[i].pid, |t|)
    case None => t[i].pass
    case Some(v) => v
  }

  lemma LeastNone(t: Table, pid: int)
    ensures LeastPass(t, pid, 0) == None
  {
  }

  lemma LeastNext(t: Table, pid: int, k: nat)
    requires k < |t|
    ensures LeastPass(t, pid, k + 1) ==
      if t[k].state != UNUSED && t[k].pid != pid
        && (LeastPass(t, pid, k).None? || t[k].pass < LeastPass(t, pid, k).value)
      then Some(t[k].pass) else LeastPass(t, pid, k)
  {
  }

  lemma NewPassOf(t: Table, i: int)
    requires 0 <= i < |t|
    ensures forall j :: 0 <= j < |t| && t[j].state != UNUSED && t[j].pid != t[i].pid ==> NewPass(t, i) <= t[j].pass
    ensures NewPass(t, i) == t[i].pass
      || exists j :: 0 <= j < |t| && t[j].state != UNUSED && t[j].pid != t[i].pid && t[j].pass == NewPass(t, i)
  {
  }

  // ---- sleep and wakeup ----

  predicate SleepsOn(p: Proc, c: Chan) {
    p.state == SLEEPING && p.chan == c
  }

  function WakeSlot(t: Table, i: int): Table
    requires 0 <= i < |t|
  {
    t[i := t[i].(pass := NewPass(t, i), state := RUNNABLE)]
  }

  // wakeup1 over the slots below k.
  function Woken(t: Table, c: Chan, k: nat): (r: Table)
    requires k <= |t|
    ensures |r| == |t|
    ensures forall j :: 0 <= j < |t| ==>
      r[j] == if j < k && SleepsOn(t[j], c) then t[j].(state := RUNNABLE, pass := r[j].pass) else t[j]
  {
    if k == 0 then t else
    var r := Woken(t, c, k - 1);
    if SleepsOn(r[k - 1], c) then WakeSlot(r, k - 1) else r
  }

  lemma WokenNone(t: Table, c: Chan)
    ensures Woken(t, c, 0) == t
  {
  }

  lemma WokenNext(t: Table, c: Chan, k: nat)
    requires k < |t|
    ensures Woken(t, c, k + 1) ==
      if SleepsOn(Woken(t, c, k)[k], c) then WakeSlot(Woken(t, c, k), k) else Woken(t, c, k)
  {
  }

  // ---- exit and wait ----

  // exit hands the children of `me` below slot k to init, waking init for each zombie among them.
  function Adopted(t: Table, me: int, init: int, k: nat): (r: Table)
    requires k <= |t|
    ensures |r| == |t|
    ensures forall j :: 0 <= j < |t| ==>
      r[j] == t[j].(state := r[j].state, pass := r[j].pass,
                    parent := if j < k && t[j].parent == me then init else t[j].parent)
    ensures forall j :: 0 <= j < |t| ==>
      r[j].state == t[j].state || (SleepsOn(t[j], Slot(init)) && r[j].state == RUNNABLE)
    ensures (exists j :: 0 <= j < k && t[j].parent == me && t[j].state == ZOMBIE) ==>
      forall j :: 0 <= j < |t| ==> !SleepsOn(r[j], Slot(init))
    ensures (forall j :: 0 <= j < k && t[j].parent == me ==> t[j].state != ZOMBIE) ==>
      forall j :: 0 <= j < |t| ==> r[j].state == t[j].state
  {
    if k == 0 then t else
    var r := Adopted(t, me, init, k - 1);
    if r[k - 1].parent == me then
      var a := r[k - 1 := r[k - 1].(parent := init)];
      if r[k - 1].state == ZOMBIE then Woken(a, Slot(init), |a|) else a
    else r
  }

  lemma AdoptedNone(t: Table, me: int, init: int)
    ensures Adopted(t, me, init, 0) == t
  {
  }

  lemma AdoptedNext(t: Table, me: int, init: int, k: nat)
    requires k < |t|
    ensures var r := Adopted(t, me, init, k);
      var a := r[k := r[k].(parent := init)];
      Adopted(t, me, init, k + 1) ==
        if r[k].parent != me then r else if r[k].state == ZOMBIE then Woken(a, Slot(init), |a|) else a
  {
    hide Woken;
  }

  function Exited(t: Table, me: int, init: int): (r: Table)
    requires 0 <= me < |t|
    ensures |r| == |t|
  {
    var w := Woken(t, Slot(t[me].parent), |t|);
    var a := Adopted(w, me, init, |t|);
    a[me := a[me].(state := ZOMBIE)]
  }

  lemma ExitedSlots(t: Table, me: int, init: int)
    requires 0 <= me < |t|
    ensures forall j :: 0 <= j < |t| ==>
      var orphan := exists z :: 0 <= z < |t| && t[z].parent == me && t[z].state == ZOMBIE;
      var woken := t[j].state == SLEEPING && (t[j].chan == Slot(t[me].parent) || (t[j].chan == Slot(init) && orphan));
      Exited(t, me, init)[j] == t[j].(
        state := if j == me then ZOMBIE else if woken then RUNNABLE else t[j].state,
        parent := if t[j].parent == me then init else t[j].parent, pass := Exited(t, me, init)[j].pass)
  {
    hide Woken, Adopted;
    var w := Woken(t, Slot(t[me].parent), |t|);
    var a := Adopted(w, me, init, |t|);
    assert forall j :: 0 <= j < |t| ==> w[j].parent == t[j].parent && (w[j].state == ZOMBIE <==> t[j].state == ZOMBIE);
    if z :| 0 <= z < |t| && t[z].parent == me && t[z].state == ZOMBIE {
      assert w[z].parent == me && w[z].state == ZOMBIE;
    }
  }

  predicate ZombieChild(t: Table, me: int, j: int)
    requires 0 <= j < |t|
  {
    t[j].parent == me && t[j].state == ZOMBIE
  }

  // What wait does under the lock: reap the first zombie child, give up, or go to sleep.
  datatype WaitResult = Reaped(slot: int) | NoChildren | Asleep

  function Reap(p: Proc): Proc {
    p.(kstack := 0, state := UNUSED, pid := 0, parent := NOBODY, killed := false)
  }

  function SleepOn(p: Proc, c: Chan): Proc {
    p.(chan := c, state := SLEEPING)
  }

  function Waited(t: Table, me: int, w: WaitResult): (r: Table)
    requires 0 <= me < |t| && (w.Reaped? ==> 0 <= w.slot < |t|)
    ensures |r| == |t|
  {
    match w
    case Reaped(j) => t[j := Reap(t[j])]
    case NoChildren => t
    case Asleep => t[me := SleepOn(t[me], Slot(me))]
  }

  // Which of the three it does.
  ghost predicate WaitOutcome(t: Table, me: int, w: WaitResult)
    requires 0 <= me < |t|
  {
    match w
    case Reaped(j) => 0 <= j < |t| && ZombieChild(t, me, j) && forall k :: 0 <= k < j ==> !ZombieChild(t, me, k)
    case NoChildren =>
      && (forall j :: 0 <= j < |t| ==> !ZombieChild(t, me, j))
      && ((forall j :: 0 <= j < |t| ==> t[j].parent != me) || t[me].killed)
    case Asleep =>
      && (forall j :: 0 <= j < |t| ==> !ZombieChild(t, me, j))
      && (exists j :: 0 <= j < |t| && t[j].parent == me) && !t[me].killed
  }

  // ---- allocproc ----

  function Embryo(p: Proc, pid: int, stack: int): Proc {
    p.(state := EMBRYO, pid := pid, kstack := stack, tickets := MINTIX, stride := LCM / MINTIX)
  }

  function Newborn(t: Table, i: int, pid: int, stack: int): (r: Table)
    requires 0 <= i < |t|
    ensures |r| == |t|
  {
    var e := t[i := Embryo(t[i], pid, stack)];
    e[i := e[i].(pass := NewPass(e, i))]
  }

  // ---- the code ----

  class PTable {
    const proc: array<Proc>
    const initproc: nat
    var nextpid: int

    // The slot of the runnable process with the lowest pass, or -1.
    method GetLproc() returns (p: int)
      ensures p == -1 ==> forall j :: 0 <= j < proc.Length ==> proc[j].state != RUNNABLE
      ensures p != -1 ==> IsPick(proc[..], p)
      ensures p != -1 ==> 0 <= p < proc.Length && proc[p].state == RUNNABLE
      ensures p != -1 ==> forall j :: 0 <= j < proc.Length && proc[j].state == RUNNABLE ==>
        proc[p].pass < proc[j].pass || (proc[p].pass == proc[j].pass && p <= j)
    {
      p := -1;
      var ps := 0;
      while ps < proc.Length
        invariant 0 <= ps <= proc.Length
        invariant p == -1 ==> forall j :: 0 <= j < ps ==> proc[j].state != RUNNABLE
        invariant p != -1 ==> 0 <= p < ps && proc[p].state == RUNNABLE
        invariant p != -1 ==> forall j :: 0 <= j < ps && proc[j].state == RUNNABLE ==>
          proc[p].pass <= proc[j].pass && (j < p ==> proc[p].pass < proc[j].pass)
      {
        if proc[ps].state == RUNNABLE {
          if p == -1 {
            p := ps;
          } else if proc[ps].pass < proc[p].pass {
            p := ps;
          }
        }
        ps := ps + 1;
      }
    }

    // The scheduler's turn up to the switch to the chosen process.
    method Schedule() returns (p: int)
      modifies proc
      ensures p == -1 ==> proc[..] == old(proc[..]) && forall j :: 0 <= j < proc.Length ==> proc[j].state != RUNNABLE
      ensures p != -1 ==> IsPick(old(proc[..]), p) && proc[..] == Dispatched(old(proc[..]), p)
      // Slot by slot.
      ensures p != -1 ==> forall j :: 0 <= j < proc.Length && old(proc[j].state) == RUNNABLE ==>
        0 <= p < proc.Length && old(proc[p].pass) <= old(proc[j].pass)
      ensures p != -1 ==> 0 <= p < proc.Length && old(proc[p].state) == RUNNABLE
      ensures p != -1 ==> forall j :: 0 <= j < proc.Length ==>
        var overflow := old(proc[p].pass) > 0 && old(proc[p].pass) + old(proc[p].stride) > 2147483647;
        proc[j] == old(proc[j]).(
          pass := if overflow then (if old(proc[j].state) == UNUSED then old(proc[j].pass) else 0)
                  else if j == p then old(proc[p].pass) + old(proc[p].stride) else old(proc[j].pass),
          state := if j == p then RUNNING else old(proc[j].state))
    {
      p := GetLproc();
      if p != -1 {
        if proc[p].pass > 0 && proc[p].stride > LONG_MAX - proc[p].pass {
          var ps := 0;
          while ps < proc.Length
            invariant 0 <= ps <= proc.Length
            invariant proc[..ps] == ZeroPasses(old(proc[..]))[..ps]
            invariant proc[ps..] == old(proc[ps..])
          {
            assert proc[ps..][0] == old(proc[ps]);
            if proc[ps].state != UNUSED {
              proc[ps] := proc[ps].(pass := 0);
            }
            ps := ps + 1;
            assert proc[..ps] == proc[..ps - 1] + [proc[ps - 1]];
          }
          assert proc[..] == ZeroPasses(old(proc[..]));
        } else {
          proc[p] := proc[p].(pass := proc[p].pass + proc[p].stride);
        }
        assert proc[..] == Charged(old(proc[..]), p);
        proc[p] := proc[p].(state := RUNNING);
      }
    }

    // The starvation prevention of allocproc and wakeup1: slot p takes the least pass of the other used processes.
    method TakeLeastPass(p: int)
      requires 0 <= p < proc.Length
      modifies proc
      ensures proc[..] == old(proc[..])[p := old(proc[p]).(pass := NewPass(old(proc[..]), p))]
      // Slot by slot, the others being the used ones with another pid.
      ensures forall j :: 0 <= j < proc.Length ==> proc[j] == old(proc[j]).(pass := proc[j].pass)
      ensures forall j :: 0 <= j < proc.Length && j != p ==> proc[j].pass == old(proc[j].pass)
      ensures forall j :: 0 <= j < proc.Length && j != p && proc[j].state != UNUSED && proc[j].pid != proc[p].pid ==>
        proc[p].pass <= proc[j].pass
      ensures proc[p].pass == old(proc[p].pass)
        || exists j :: 0 <= j < proc.Length && proc[j].state != UNUSED && proc[j].pid != proc[p].pid
             && old(proc[j].pass) == proc[p].pass
    {
      hide LeastPass;
      NewPassOf(proc[..], p);
      ghost var t := proc[..];
      LeastNone(t, t[p].pid);
      var foundlock := false;
      var ps := 0;
      while ps < proc.Length
        invariant 0 <= ps <= proc.Length
        invariant forall j :: 0 <= j < proc.Length && j != p ==> proc[j] == t[j]
        invariant proc[p] == t[p].(pass := proc[p].pass)
        invariant var r := LeastPass(t, t[p].pid, ps);
          foundlock == r.Some? && proc[p].pass == if r.Some? then r.value else t[p].pass
      {
        LeastNext(t, t[p].pid, ps);
        if proc[ps].state != UNUSED && proc[ps].pid != proc[p].pid {
          if !foundlock {
            proc[p] := proc[p].(pass := proc[ps].pass);
            foundlock := true;
          } else if proc[ps].pass < proc[p].pass {
            proc[p] := proc[p].(pass := proc[ps].pass);
          }
        }
        ps := ps + 1;
      }
      assert proc[..] == t[p := t[p].(pass := NewPass(t, p))];
    }

    method Wakeup1(chan: Chan)
      modifies proc
      ensures proc[..] == Woken(old(proc[..]), chan, proc.Length)
      // Slot by slot.
      ensures forall j :: 0 <= j < proc.Length ==>
        if old(proc[j].state) == SLEEPING && old(proc[j].chan) == chan
        then proc[j] == old(proc[j]).(state := RUNNABLE, pass := proc[j].pass) else proc[j] == old(proc[j])
    {
      hide Woken, NewPass;
      ghost var t := proc[..];
      WokenNone(t, chan);
      var p := 0;
      while p < proc.Length
        invariant 0 <= p <= proc.Length
        invariant proc[..] == Woken(t, chan, p)
      {
        ghost var r := proc[..];
        WokenNext(t, chan, p);
        if proc[p].state == SLEEPING && proc[p].chan == chan {
          TakeLeastPass(p);
          proc[p] := proc[p].(state := RUNNABLE);
          assert proc[..] == WakeSlot(r, p);
        }
        p := p + 1;
      }
    }

    // exit's loop: the children go to init, which is woken for each zombie among them.
    method PassChildren(me: int)
      modifies proc
      ensures proc[..] == Adopted(old(proc[..]), me, initproc, proc.Length)
    {
      hide Woken, Adopted;
      ghost var w := proc[..];
      AdoptedNone(w, me, initproc);
      var p := 0;
      while p < proc.Length
        invariant 0 <= p <= proc.Length
        invariant proc[..] == Adopted(w, me, initproc, p)
      {
        ghost var r := proc[..];
        AdoptedNext(w, me, initproc, p);
        if proc[p].parent == me {
          proc[p] := proc[p].(parent := initproc);
          assert proc[..] == r[p := r[p].(parent := initproc)];
          if proc[p].state == ZOMBIE {
            Wakeup1(Slot(initproc));
          }
        }
        p := p + 1;
      }
    }

    // exit, from the acquisition of ptable.lock to the jump into the scheduler; false when init exits, which panics.
    method Exit(me: int) returns (ok: bool)
      requires 0 <= me < proc.Length
      modifies proc
      ensures ok <==> me != initproc
      ensures proc[..] == if ok then Exited(old(proc[..]), me, initproc) else old(proc[..])
      // Slot by slot: who is woken, whose parent is now init, and who is the zombie.
      ensures ok ==> forall j :: 0 <= j < proc.Length ==>
        var orphan := exists z :: 0 <= z < proc.Length && old(proc[z].parent) == me && old(proc[z].state) == ZOMBIE;
        var c := old(proc[j].chan);
        var woken := old(proc[j].state) == SLEEPING
          && (c == Slot(old(proc[me].parent)) || (c == Slot(initproc) && orphan));
        proc[j] == old(proc[j]).(
          state := if j == me then ZOMBIE else if woken then RUNNABLE else old(proc[j].state),
          parent := if old(proc[j].parent) == me then initproc else old(proc[j].parent),
          pass := proc[j].pass)
    {
      hide Woken, Adopted;
      ExitedSlots(proc[..], me, initproc);
      if me == initproc {
        return false;
      }
      Wakeup1(Slot(proc[me].parent));
      PassChildren(me);
      proc[me] := proc[me].(state := ZOMBIE);
      return true;
    }

    // One pass of wait's loop, from holding ptable.lock to releasing it or sleeping.
    method WaitScan(me: int) returns (w: WaitResult)
      requires 0 <= me < proc.Length
      modifies proc
      ensures WaitOutcome(old(proc[..]), me, w)
      ensures proc[..] == Waited(old(proc[..]), me, w)
      // Slot by slot.
      ensures w.Reaped? ==>
        && 0 <= w.slot < proc.Length && old(proc[w.slot].parent) == me && old(proc[w.slot].state) == ZOMBIE
        && proc[w.slot] == old(proc[w.slot]).(kstack := 0, state := UNUSED, pid := 0, parent := -1, killed := false)
        && forall j :: 0 <= j < proc.Length && j != w.slot ==> proc[j] == old(proc[j])
      ensures !w.Reaped? ==>
        forall j :: 0 <= j < proc.Length ==> !(old(proc[j].parent) == me && old(proc[j].state) == ZOMBIE)
      ensures !w.Reaped? ==>
        (w.Asleep? <==> !old(proc[me].killed) && exists j :: 0 <= j < proc.Length && old(proc[j].parent) == me)
      ensures w.Asleep? ==> proc[me] == old(proc[me]).(state := SLEEPING, chan := Slot(me))
      ensures !w.Reaped? ==> forall j :: 0 <= j < proc.Length && (w.Asleep? ==> j != me) ==> proc[j] == old(proc[j])
    {
      var havekids := false;
      var p := 0;
      while p < proc.Length
        invariant 0 <= p <= proc.Length && proc[..] == old(proc[..])
        invariant forall j :: 0 <= j < p ==> !ZombieChild(proc[..], me, j)
        invariant forall j :: 0 <= j < p ==> !(proc[j].parent == me && proc[j].state == ZOMBIE)
        invariant havekids <==> exists j :: 0 <= j < p && proc[j].parent == me
      {
        if proc[p].parent == me {
          havekids := true;
          if proc[p].state == ZOMBIE {
            proc[p] := Reap(proc[p]);
            return Reaped(p);
          }
        }
        p := p + 1;
      }
      if !havekids || proc[me].killed {
        return NoChildren;
      }
      proc[me] := proc[me].(chan := Slot(me), state := SLEEPING);
      return Asleep;
    }

    // The first process with that pid is marked and, if asleep, made runnable.
    method Kill(pid: int) returns (found: bool)
      modifies proc
      ensures found <==> exists j :: 0 <= j < proc.Length && old(proc[j].pid) == pid
      ensures !found ==> proc[..] == old(proc[..])
      ensures forall j :: FirstWithPid(old(proc[..]), pid, j) ==>
        proc[..] == old(proc[..])[j := Killed(old(proc[j]))]
      // Slot by slot: the first with the pid is marked, and is no longer asleep.
      ensures forall j :: 0 <= j < proc.Length ==>
        if old(proc[j].pid) == pid && (forall k :: 0 <= k < j ==> old(proc[k].pid) != pid)
        then proc[j] == old(proc[j]).(killed := true,
               state := if old(proc[j].state) == SLEEPING then RUNNABLE else old(proc[j].state))
        else proc[j] == old(proc[j])
    {
      var p := 0;
      while p < proc.Length
        invariant 0 <= p <= proc.Length && proc[..] == old(proc[..])
        invariant forall k :: 0 <= k < p ==> proc[k].pid != pid
      {
        if proc[p].pid == pid {
          proc[p] := proc[p].(killed := true);
          if proc[p].state == SLEEPING {
            proc[p] := proc[p].(state := RUNNABLE);
          }
          assert FirstWithPid(old(proc[..]), pid, p) && proc[..] == old(proc[..])[p := Killed(old(proc[p]))];
          return true;
        }
        p := p + 1;
      }
      return false;
    }

    // allocproc, with the kernel stack that kalloc gave (0 for none): the first unused slot is set up, or -1.
    method AllocProc(stack: int) returns (p: int)
      modifies proc, this`nextpid
      ensures (forall j :: 0 <= j < proc.Length ==> old(proc[j].state) != UNUSED) ==>
        p == -1 && proc[..] == old(proc[..]) && nextpid == old(nextpid)
      ensures forall i :: FirstUnused(old(proc[..]), i) ==>
        && nextpid == old(nextpid) + 1
        && p == (if stack == 0 then -1 else i)
        && proc[..] == if stack == 0 then old(proc[..])[i := old(proc[i]).(pid := old(nextpid), kstack := 0)]
                       else Newborn(old(proc[..]), i, old(nextpid), stack)
      // The new slot: 10 tickets, the stride for them, and the rest as it was; the pass is that of TakeLeastPass.
      ensures p != -1 ==>
        && 0 <= p < proc.Length && old(proc[p].state) == UNUSED && stack != 0
        && proc[p] == old(proc[p]).(state := EMBRYO, pid := old(nextpid), kstack := stack, tickets := 10,
                                    stride := 360360, pass := proc[p].pass)
        && forall j :: 0 <= j < proc.Length && j != p ==>
             proc[j] == old(proc[j])
             && (proc[j].state != UNUSED && proc[j].pid != old(nextpid) ==> proc[p].pass <= proc[j].pass)
    {
      p := 0;
      while p < proc.Length && proc[p].state != UNUSED
        invariant 0 <= p <= proc.Length && forall j :: 0 <= j < p ==> proc[j].state != UNUSED
      {
        p := p + 1;
      }
      if p == proc.Length {
        return -1;
      }
      proc[p] := proc[p].(state := EMBRYO, pid := nextpid);
      nextpid := nextpid + 1;
      proc[p] := proc[p].(kstack := stack);
      if stack == 0 {
        proc[p] := proc[p].(state := UNUSED);
        return -1;
      }
      proc[p] := proc[p].(tickets := MINTIX, stride := LCM / MINTIX);
      assert proc[..] == old(proc[..])[p := Embryo(old(proc[p]), old(nextpid), stack)];
      TakeLeastPass(p);
    }

    // sys_settickets for the running process.
    method Settickets(me: int, tix: int) returns (ok: bool)
      requires 0 <= me < proc.Length
      modifies proc
      ensures ok <==> LegalTickets(tix)
      ensures ok <==> 10 <= tix <= 150 && tix % 10 == 0
      ensures ok ==> proc[me].tickets == tix && tix * proc[me].stride == 3603600
      ensures proc[..] == if ok then old(proc[..])[me := old(proc[me]).(tickets := tix, stride := LCM / tix)]
        else old(proc[..])
    {
      if tix < MINTIX || tix > MAXTIX || tix % 10 != 0 {
        return false;
      }
      TicketsDivide(tix);
      proc[me] := proc[me].(tickets := tix, stride := LCM / tix);
      return true;
    }
  }

  ghost predicate FirstUnused(t: Table, i: int) {
    0 <= i < |t| && t[i].state == UNUSED && forall j :: 0 <= j < i ==> t[j].state != UNUSED
  }

  ghost predicate FirstWithPid(t: Table, pid: int, j: int) {
    0 <= j < |t| && t[j].pid == pid && forall k :: 0 <= k < j ==> t[k].pid != pid
  }

  function Killed(p: Proc): Proc {
    p.(killed := true, state := if p.state == SLEEPING then RUNNABLE else p.state)
  }

  lemma TicketsDivide(tix: int)
    requires LegalTickets(tix)
    ensures tix * (LCM / tix) == 3603600
  {
    match tix {
      case 10 => case 20 => case 30 => case 40 => case 50 =>
      case 60 => case 70 => case 80 => case 90 => case 100 =>
      case 110 => case 120 => case 130 => case 140 => case _ =>
        assert tix == 150;
    }
  }

  predicate LegalTickets(tix: int) {
    MINTIX <= tix <= MAXTIX && tix % 10 == 0
  }
}
