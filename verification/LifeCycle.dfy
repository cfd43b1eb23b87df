/** Process life cycle: fork, exit, wait, sleep, wakeup and kill as atomic steps of any number of CPUs. */
module LifeCycle {
  import opened Basics
  import opened ProcTable

  // The process table, and the kernel stacks and page directories handed out and not yet given back.
  datatype Sys = Sys(t: Table, stacks: set<int>, dirs: set<int>)

  // One region under ptable.lock, or one unlocked update of a slot that only its maker touches.
  datatype Event =
    | Claim(j: int, pid: int)              // allocproc: an unused slot becomes EMBRYO
    | GiveStack(j: int, stack: int)        // kalloc succeeded
    | NoStack(j: int)                      // kalloc failed
    | SetPass(j: int)                      // allocproc takes the least pass
    | Ready(me: int, j: int, dir: int)     // fork succeeds
    | Abort(j: int)                        // copyuvm failed
    | Dispatch(i: int)
    | Yield(i: int)
    | Sleep(i: int, a: int)                // sleep on something other than a process
    | Resume(i: int)                       // sleep clears chan
    | Wakeup(c: Chan)
    | Kill(j: int)
    | Exit(me: int)
    | Wait(me: int, w: WaitResult)
    | Tickets(me: int, tix: int)

  // In use beyond EMBRYO: such a slot has a kernel stack and a page directory.
  predicate Formed(p: Proc) {
    p.state == SLEEPING || p.state == RUNNABLE || p.state == RUNNING || p.state == ZOMBIE
  }

  predicate Alive(p: Proc) {
    Formed(p) && p.state != ZOMBIE
  }

  predicate In(s: Sys, i: int) {
    0 <= i < |s.t|
  }

  predicate Running(s: Sys, i: int) {
    In(s, i) && s.t[i].state == RUNNING
  }

  predicate Growing(s: Sys, j: int) {
    In(s, j) && s.t[j].state == EMBRYO
  }

  ghost predicate Enabled(s: Sys, init: int, e: Event) {
    match e
    case Claim(j, pid) => In(s, j) && s.t[j].state == UNUSED
    case GiveStack(j, stack) => Growing(s, j) && s.t[j].kstack == 0 && stack != 0 && stack !in s.stacks
    case NoStack(j) => Growing(s, j) && s.t[j].kstack == 0
    case SetPass(j) => Growing(s, j)
    case Ready(me, j, dir) => Running(s, me) && Growing(s, j) && s.t[j].kstack != 0 && dir != 0 && dir !in s.dirs
    case Abort(j) => Growing(s, j) && s.t[j].kstack != 0
    case Dispatch(i) => IsPick(s.t, i)
    case Yield(i) => Running(s, i)
    case Sleep(i, a) => Running(s, i)
    case Resume(i) => Running(s, i)
    case Wakeup(c) => true
    case Kill(j) => In(s, j)
    case Exit(me) => Running(s, me) && me != init
    case Wait(me, w) => Running(s, me) && WaitOutcome(s.t, me, w)
    case Tickets(me, tix) => Running(s, me) && LegalTickets(tix)
  }

  function Put(s: Sys, i: int, p: Proc): Sys
    requires In(s, i)
  {
    s.(t := s.t[i := p])
  }

  ghost function Step(s: Sys, init: int, e: Event): Sys
    requires Enabled(s, init, e)
  {
    match e
    case Claim(j, pid) => Put(s, j, s.t[j].(state := EMBRYO, pid := pid))
    case GiveStack(j, stack) => Put(s, j, Embryo(s.t[j], s.t[j].pid, stack)).(stacks := s.stacks + {stack})
    case NoStack(j) => Put(s, j, s.t[j].(state := UNUSED))
    case SetPass(j) => Put(s, j, s.t[j].(pass := NewPass(s.t, j)))
    case Ready(me, j, dir) => Put(s, j, s.t[j].(state := RUNNABLE, parent := me, pgdir := dir)).(dirs := s.dirs + {dir})
    case Abort(j) => Put(s, j, s.t[j].(state := UNUSED, kstack := 0, pgdir := 0)).(stacks := s.stacks - {s.t[j].kstack})
    case Dispatch(i) => s.(t := Dispatched(s.t, i))
    case Yield(i) => Put(s, i, s.t[i].(state := RUNNABLE))
    case Sleep(i, a) => Put(s, i, SleepOn(s.t[i], Address(a)))
    case Resume(i) => Put(s, i, s.t[i].(chan := Nowhere))
    case Wakeup(c) => s.(t := Woken(s.t, c, |s.t|))
    case Kill(j) => Put(s, j, Killed(s.t[j]))
    case Exit(me) => s.(t := Exited(s.t, me, init))
    case Wait(me, Reaped(j)) =>
      s.(t := Waited(s.t, me, Reaped(j)), stacks := s.stacks - {s.t[j].kstack}, dirs := s.dirs - {s.t[j].pgdir})
    case Wait(me, w) => s.(t := Waited(s.t, me, w))
    case Tickets(me, tix) => Put(s, me, s.t[me].(tickets := tix, stride := LCM / tix))
  }

  // ---- the invariant ----

  // Nobody is asleep in wait while it has a zombie child.
  ghost predicate NoLostChild(t: Table) {
    forall w, c :: 0 <= w < |t| && 0 <= c < |t| && SleepsOn(t[w], Slot(w)) ==> !ZombieChild(t, w, c)
  }

  // A process asleep on a table slot is asleep on its own.
  ghost predicate SleepsOnSelf(t: Table) {
    forall w, x :: 0 <= w < |t| && SleepsOn(t[w], Slot(x)) ==> x == w
  }

  // Every process but init has a living parent; a slot not yet, or no longer, a process has none.
  ghost predicate Parents(t: Table, init: int) {
    && 0 <= init < |t| && Alive(t[init]) && t[init].parent == NOBODY
    && forall c {:trigger t[c].parent} {:trigger Placed(t, init, c)} :: 0 <= c < |t| ==> Placed(t, init, c)
  }

  predicate Placed(t: Table, init: int, c: int)
    requires 0 <= c < |t|
  {
    if !Formed(t[c]) then t[c].parent == NOBODY
    else c == init || (0 <= t[c].parent < |t| && t[c].parent != c && Alive(t[t[c].parent]))
  }

  // The stacks handed out are exactly those of the slots, one each.
  ghost predicate Stacks(t: Table, stacks: set<int>) {
    && (forall i {:trigger t[i].kstack} :: 0 <= i < |t| ==>
          (t[i].kstack != 0 ==> t[i].kstack in stacks) && (t[i].state == UNUSED ==> t[i].kstack == 0)
            && (Formed(t[i]) ==> t[i].kstack != 0))
    && (forall i, j {:trigger t[i].kstack, t[j].kstack} :: 0 <= i < j < |t| && t[i].kstack == t[j].kstack ==>
         t[i].kstack == 0)
    && (forall x :: x in stacks ==> x != 0 && exists i :: 0 <= i < |t| && t[i].kstack == x)
  }

  // The page directories handed out are exactly those of the formed processes, one each.
  ghost predicate Dirs(t: Table, dirs: set<int>) {
    && (forall i {:trigger t[i].pgdir} :: 0 <= i < |t| && Formed(t[i]) ==> t[i].pgdir in dirs)
    && (forall i, j {:trigger t[i].pgdir, t[j].pgdir} :: 0 <= i < j < |t| && Formed(t[i]) && Formed(t[j]) ==>
         t[i].pgdir != t[j].pgdir)
    && (forall x :: x in dirs ==> exists i :: 0 <= i < |t| && Formed(t[i]) && t[i].pgdir == x)
  }

  ghost predicate Inv(s: Sys, init: int) {
    NoLostChild(s.t) && SleepsOnSelf(s.t) && Parents(s.t, init) && Stacks(s.t, s.stacks) && Dirs(s.t, s.dirs)
  }

  // ---- what each part of the invariant looks at ----

  lemma SameWaits(t: Table, t': Table)
    requires NoLostChild(t) && SleepsOnSelf(t) && |t'| == |t|
    requires forall i, j {:trigger ZombieChild(t', i, j)} :: 0 <= i < |t| && 0 <= j < |t| && ZombieChild(t', i, j) ==>
      ZombieChild(t, i, j)
    requires forall i, x {:trigger SleepsOn(t'[i], Slot(x))} :: 0 <= i < |t| && SleepsOn(t'[i], Slot(x)) ==>
      SleepsOn(t[i], Slot(x))
    ensures NoLostChild(t') && SleepsOnSelf(t')
  {
  }

  lemma SameParents(t: Table, t': Table, init: int)
    requires Parents(t, init) && |t'| == |t|
    requires forall i {:trigger t'[i]} :: 0 <= i < |t| ==>
      t'[i].parent == t[i].parent && Formed(t'[i]) == Formed(t[i]) && Alive(t'[i]) == Alive(t[i])
    ensures Parents(t', init)
  {
    forall c {:trigger Placed(t', init, c)} | 0 <= c < |t'|
      ensures Placed(t', init, c)
    {
      assert t[c].parent == t'[c].parent;
    }
  }

  lemma SameStacks(t: Table, t': Table, stacks: set<int>)
    requires Stacks(t, stacks) && |t'| == |t|
    requires forall i {:trigger t'[i]} :: 0 <= i < |t| ==>
      t'[i].kstack == t[i].kstack && (t'[i].state == UNUSED ==> t[i].kstack == 0)
        && (Formed(t'[i]) ==> t[i].kstack != 0)
    ensures Stacks(t', stacks)
  {
    forall x | x in stacks
      ensures x != 0 && exists i :: 0 <= i < |t'| && t'[i].kstack == x
    {
      var i :| 0 <= i < |t| && t[i].kstack == x;
      assert t'[i].kstack == x;
    }
  }

  lemma SameDirs(t: Table, t': Table, dirs: set<int>)
    requires Dirs(t, dirs) && |t'| == |t|
    requires forall i {:trigger t'[i]} :: 0 <= i < |t| ==>
      Formed(t'[i]) == Formed(t[i]) && (Formed(t[i]) ==> t'[i].pgdir == t[i].pgdir)
    ensures Dirs(t', dirs)
  {
    forall x | x in dirs
      ensures exists i :: 0 <= i < |t'| && Formed(t'[i]) && t'[i].pgdir == x
    {
      var i :| 0 <= i < |t| && Formed(t[i]) && t[i].pgdir == x;
      assert Formed(t'[i]) && t'[i].pgdir == x;
    }
  }

  // From t to t' processes may be woken, dispatched or put to sleep on an address; nothing else that matters changes.
  ghost predicate Stirred(t: Table, t': Table) {
    && |t'| == |t|
    && forall i {:trigger t'[i]} :: 0 <= i < |t| ==>
         && t'[i].parent == t[i].parent && t'[i].kstack == t[i].kstack && t'[i].pgdir == t[i].pgdir
         && Alive(t'[i]) == Alive(t[i]) && Formed(t'[i]) == Formed(t[i])
              && (t'[i].state == UNUSED <==> t[i].state == UNUSED)
         && (t'[i].state == SLEEPING && t'[i].chan.Slot? ==> t[i].state == SLEEPING && t[i].chan == t'[i].chan)
  }

  lemma StirredKeeps(s: Sys, init: int, t': Table)
    requires Inv(s, init) && Stirred(s.t, t')
    ensures Inv(s.(t := t'), init)
  {
    hide NoLostChild, SleepsOnSelf, Parents, Stacks, Dirs;
    SameWaits(s.t, t');
    SameParents(s.t, t', init);
    StackNeeds(s.t, s.stacks);
    SameStacks(s.t, t', s.stacks);
    SameDirs(s.t, t', s.dirs);
  }

  lemma StackNeeds(t: Table, stacks: set<int>)
    requires Stacks(t, stacks)
    ensures forall i {:trigger t[i]} :: 0 <= i < |t| ==>
      (t[i].state == UNUSED ==> t[i].kstack == 0) && (Formed(t[i]) ==> t[i].kstack != 0)
  {
  }

  // ---- exit ----

  lemma ExitedShape(t: Table, me: int, init: int)
    requires 0 <= me < |t| && 0 <= init < |t| && 0 <= t[me].parent < |t|
    requires t[me].state == RUNNING && me != init
    ensures var t' := Exited(t, me, init);
      && t'[me].state == ZOMBIE
      && (forall i {:trigger t'[i]} :: 0 <= i < |t| ==>
            && t'[i].kstack == t[i].kstack && t'[i].pgdir == t[i].pgdir && t'[i].pid == t[i].pid
            && t'[i].parent == (if t[i].parent == me then init else t[i].parent)
            && (i != me ==> t'[i].state == t[i].state || (t[i].state == SLEEPING && t'[i].state == RUNNABLE))
            && (t'[i].state == SLEEPING ==> t[i].state == SLEEPING && t'[i].chan == t[i].chan))
      && !SleepsOn(t'[t[me].parent], Slot(t[me].parent))
      && ((exists j :: 0 <= j < |t| && ZombieChild(t, me, j)) ==> !SleepsOn(t'[init], Slot(init)))
  {
    hide Woken, Adopted;
    var w := Woken(t, Slot(t[me].parent), |t|);
    var a := Adopted(w, me, init, |t|);
    var p := t[me].parent;
    assert !SleepsOn(w[p], Slot(p));
    if j :| 0 <= j < |t| && ZombieChild(t, me, j) {
      assert w[j].parent == me && w[j].state == ZOMBIE;
      assert !SleepsOn(a[init], Slot(init));
    }
  }

  lemma ExitKeepsWaits(t: Table, me: int, init: int)
    requires NoLostChild(t) && SleepsOnSelf(t) && 0 <= me < |t| && 0 <= init < |t| && 0 <= t[me].parent < |t|
    requires t[me].state == RUNNING && me != init && t[me].parent != me
    ensures NoLostChild(Exited(t, me, init)) && SleepsOnSelf(Exited(t, me, init))
  {
    var t' := Exited(t, me, init);
    ExitedShape(t, me, init);
    hide Exited;
    forall w, x | 0 <= w < |t'| && SleepsOn(t'[w], Slot(x))
      ensures x == w
    {
      assert SleepsOn(t[w], Slot(x));
    }
    forall w, c | 0 <= w < |t'| && 0 <= c < |t'| && SleepsOn(t'[w], Slot(w))
      ensures !ZombieChild(t', w, c)
    {
      assert SleepsOn(t[w], Slot(w)) && !ZombieChild(t, w, c);
      if c != me {
        assert t[c].parent == me && t[c].state == ZOMBIE ==> ZombieChild(t, me, c);
      }
    }
  }

  lemma ParentOf(t: Table, init: int, c: int)
    requires Parents(t, init) && 0 <= c < |t| && Formed(t[c]) && c != init
    ensures 0 <= t[c].parent < |t| && t[c].parent != c && Alive(t[t[c].parent])
  {
    assert t[c].parent == t[c].parent;
  }

  lemma ExitKeepsParents(t: Table, me: int, init: int)
    requires Parents(t, init) && 0 <= me < |t| && t[me].state == RUNNING && me != init
    ensures 0 <= t[me].parent < |t| && t[me].parent != me && Parents(Exited(t, me, init), init)
  {
    hide Exited;
    ParentOf(t, init, me);
    var t' := Exited(t, me, init);
    ExitedShape(t, me, init);
    forall c {:trigger Placed(t', init, c)} | 0 <= c < |t'|
      ensures Placed(t', init, c)
    {
      assert Formed(t'[c]) == Formed(t[c]) && t[c].parent == t[c].parent;
    }
  }

  lemma ExitedHoldings(t: Table, me: int, init: int)
    requires 0 <= me < |t| && 0 <= init < |t| && 0 <= t[me].parent < |t|
    requires t[me].state == RUNNING && me != init
    ensures forall i {:trigger Exited(t, me, init)[i]} :: 0 <= i < |t| ==> var p := Exited(t, me, init)[i];
      p.kstack == t[i].kstack && p.pgdir == t[i].pgdir && p.pid == t[i].pid && Formed(p) == Formed(t[i])
      && (p.state == UNUSED <==> t[i].state == UNUSED) && (t[i].state == ZOMBIE ==> p.state == ZOMBIE)
  {
    ExitedShape(t, me, init);
  }

  lemma ExitKeepsHoldings(t: Table, me: int, init: int, stacks: set<int>, dirs: set<int>)
    requires Stacks(t, stacks) && Dirs(t, dirs) && 0 <= me < |t| && 0 <= init < |t| && 0 <= t[me].parent < |t|
    requires t[me].state == RUNNING && me != init
    ensures Stacks(Exited(t, me, init), stacks) && Dirs(Exited(t, me, init), dirs)
  {
    hide Stacks, Dirs, Exited, Formed;
    ExitedHoldings(t, me, init);
    StackNeeds(t, stacks);
    SameStacks(t, Exited(t, me, init), stacks);
    SameDirs(t, Exited(t, me, init), dirs);
  }

  lemma ExitKeeps(s: Sys, init: int, me: int)
    requires Inv(s, init) && Running(s, me) && me != init
    ensures Inv(s.(t := Exited(s.t, me, init)), init)
  {
    assert 0 <= init < |s.t|;
    hide NoLostChild, SleepsOnSelf, Parents, Stacks, Dirs, Exited;
    ExitKeepsParents(s.t, me, init);
    ExitKeepsWaits(s.t, me, init);
    ExitKeepsHoldings(s.t, me, init, s.stacks, s.dirs);
  }

  // ---- wait ----

  lemma WaitKeeps(s: Sys, init: int, me: int, w: WaitResult)
    requires Inv(s, init) && Enabled(s, init, Wait(me, w))
    ensures Inv(Step(s, init, Wait(me, w)), init)
  {
    hide Inv;
    match w {
      case Reaped(j) => ReapKeeps(s, init, me, j);
      case NoChildren =>
      case Asleep => AsleepKeeps(s, init, me);
    }
  }

  lemma AsleepKeeps(s: Sys, init: int, me: int)
    requires Inv(s, init) && Running(s, me) && forall j :: 0 <= j < |s.t| ==> !ZombieChild(s.t, me, j)
    ensures Inv(s.(t := s.t[me := SleepOn(s.t[me], Slot(me))]), init)
  {
    hide Parents, Stacks, Dirs;
    var t, t' := s.t, s.t[me := SleepOn(s.t[me], Slot(me))];
    AsleepWaits(t, me);
    hide NoLostChild, SleepsOnSelf;
    SameParents(t, t', init);
    StackNeeds(t, s.stacks);
    SameStacks(t, t', s.stacks);
    SameDirs(t, t', s.dirs);
  }

  lemma AsleepWaits(t: Table, me: int)
    requires NoLostChild(t) && SleepsOnSelf(t) && 0 <= me < |t| && t[me].state == RUNNING
    requires forall j :: 0 <= j < |t| ==> !ZombieChild(t, me, j)
    ensures NoLostChild(t[me := SleepOn(t[me], Slot(me))]) && SleepsOnSelf(t[me := SleepOn(t[me], Slot(me))])
  {
    var t' := t[me := SleepOn(t[me], Slot(me))];
    forall x, c | 0 <= x < |t'| && 0 <= c < |t'| && SleepsOn(t'[x], Slot(x))
      ensures !ZombieChild(t', x, c)
    {
      assert !ZombieChild(t, x, c);
    }
  }

  lemma ReapStacks(t: Table, stacks: set<int>, j: int)
    requires Stacks(t, stacks) && 0 <= j < |t| && t[j].state == ZOMBIE
    ensures t[j].kstack in stacks && Stacks(t[j := Reap(t[j])], stacks - {t[j].kstack})
  {
    var t' := t[j := Reap(t[j])];
    assert Formed(t[j]) && t[j].kstack != 0;
    forall x | x in stacks - {t[j].kstack}
      ensures x != 0 && exists i :: 0 <= i < |t'| && t'[i].kstack == x
    {
      var i :| 0 <= i < |t| && t[i].kstack == x;
      assert t'[i].kstack == x;
    }
    assert forall i {:trigger t'[i].kstack} :: 0 <= i < |t| && i != j ==> t'[i].kstack == t[i].kstack;
  }

  lemma ReapDirs(t: Table, dirs: set<int>, j: int)
    requires Dirs(t, dirs) && 0 <= j < |t| && t[j].state == ZOMBIE
    ensures t[j].pgdir in dirs && Dirs(t[j := Reap(t[j])], dirs - {t[j].pgdir})
  {
    var t' := t[j := Reap(t[j])];
    assert Formed(t[j]) && t[j].pgdir == t[j].pgdir;
    forall x | x in dirs - {t[j].pgdir}
      ensures exists i :: 0 <= i < |t'| && Formed(t'[i]) && t'[i].pgdir == x
    {
      var i :| 0 <= i < |t| && Formed(t[i]) && t[i].pgdir == x;
      assert Formed(t'[i]) && t'[i].pgdir == x;
    }
    assert forall i {:trigger t'[i].pgdir} :: 0 <= i < |t| && i != j ==>
      t'[i].pgdir == t[i].pgdir && Formed(t'[i]) == Formed(t[i]);
  }

  lemma ReapParents(t: Table, init: int, me: int, j: int)
    requires Parents(t, init) && 0 <= j < |t| && 0 <= me && ZombieChild(t, me, j)
    ensures Parents(t[j := Reap(t[j])], init)
  {
    var t' := t[j := Reap(t[j])];
    assert j != init;
    forall c {:trigger Placed(t', init, c)} | 0 <= c < |t'|
      ensures Placed(t', init, c)
    {
      assert c != j ==> t'[c].parent == t[c].parent;
    }
  }

  // The reaped child's stack and directory were handed out to it alone; they are given back, and nothing else is.
  lemma ReapKeeps(s: Sys, init: int, me: int, j: int)
    requires Inv(s, init) && In(s, me) && In(s, j) && ZombieChild(s.t, me, j)
    ensures s.t[j].kstack in s.stacks && s.t[j].pgdir in s.dirs
    ensures Inv(Sys(s.t[j := Reap(s.t[j])], s.stacks - {s.t[j].kstack}, s.dirs - {s.t[j].pgdir}), init)
  {
    hide NoLostChild, SleepsOnSelf, Parents, Stacks, Dirs;
    SameWaits(s.t, s.t[j := Reap(s.t[j])]);
    ReapParents(s.t, init, me, j);
    ReapStacks(s.t, s.stacks, j);
    ReapDirs(s.t, s.dirs, j);
  }

  // ---- fork ----

  ghost predicate StackMoves(t: Table, j: int, p: Proc, stacks: set<int>, stacks': set<int>)
    requires 0 <= j < |t|
  {
    || (p.kstack == t[j].kstack && stacks' == stacks && (p.state == UNUSED ==> p.kstack == 0))
    || (t[j].kstack == 0 && p.kstack != 0 && p.kstack !in stacks && p.state == EMBRYO && stacks' == stacks + {p.kstack})
    || (t[j].kstack != 0 && p.kstack == 0 && stacks' == stacks - {t[j].kstack})
  }

  lemma StackMovesKeep(t: Table, j: int, p: Proc, stacks: set<int>, stacks': set<int>)
    requires Stacks(t, stacks) && 0 <= j < |t| && !Formed(p) && StackMoves(t, j, p, stacks, stacks')
    ensures Stacks(t[j := p], stacks')
  {
    var t' := t[j := p];
    assert t[j].kstack == t[j].kstack;
    assert forall i {:trigger t'[i].kstack} :: 0 <= i < |t| && i != j ==> t'[i].kstack == t[i].kstack;
    forall x | x in stacks'
      ensures x != 0 && exists i :: 0 <= i < |t'| && t'[i].kstack == x
    {
      if x == p.kstack {
        assert t'[j].kstack == x;
      } else {
        var i :| 0 <= i < |t| && t[i].kstack == x;
        assert t'[i].kstack == x;
      }
    }
  }

  // A slot that is not a process yet may change, gain a stack or lose it.
  lemma UnformedKeeps(s: Sys, init: int, j: int, p: Proc, stacks: set<int>)
    requires Inv(s, init) && In(s, j) && !Formed(s.t[j]) && !Formed(p) && p.parent == s.t[j].parent
    requires StackMoves(s.t, j, p, s.stacks, stacks)
    ensures Inv(s.(t := s.t[j := p], stacks := stacks), init)
  {
    hide NoLostChild, SleepsOnSelf, Parents, Stacks, Dirs, StackMoves;
    SameWaits(s.t, s.t[j := p]);
    SameParents(s.t, s.t[j := p], init);
    StackMovesKeep(s.t, j, p, s.stacks, stacks);
    SameDirs(s.t, s.t[j := p], s.dirs);
  }

  lemma ReadyParents(t: Table, init: int, me: int, j: int, dir: int)
    requires Parents(t, init) && 0 <= me < |t| && t[me].state == RUNNING && 0 <= j < |t| && t[j].state == EMBRYO
    ensures Parents(t[j := t[j].(state := RUNNABLE, parent := me, pgdir := dir)], init)
  {
    var t' := t[j := t[j].(state := RUNNABLE, parent := me, pgdir := dir)];
    assert Alive(t'[me]) && j != init;
    forall c {:trigger Placed(t', init, c)} | 0 <= c < |t'|
      ensures Placed(t', init, c)
    {
      assert c != j ==> t'[c].parent == t[c].parent;
    }
  }

  lemma ReadyDirs(t: Table, dirs: set<int>, me: int, j: int, dir: int)
    requires Dirs(t, dirs) && 0 <= j < |t| && t[j].state == EMBRYO && dir !in dirs
    ensures Dirs(t[j := t[j].(state := RUNNABLE, parent := me, pgdir := dir)], dirs + {dir})
  {
    var t' := t[j := t[j].(state := RUNNABLE, parent := me, pgdir := dir)];
    assert forall i {:trigger t'[i].pgdir} :: 0 <= i < |t| && i != j ==>
      t'[i].pgdir == t[i].pgdir && Formed(t'[i]) == Formed(t[i]);
    forall x | x in dirs + {dir}
      ensures exists i :: 0 <= i < |t'| && Formed(t'[i]) && t'[i].pgdir == x
    {
      if x == dir {
        assert Formed(t'[j]) && t'[j].pgdir == x;
      } else {
        var i :| 0 <= i < |t| && Formed(t[i]) && t[i].pgdir == x;
        assert Formed(t'[i]) && t'[i].pgdir == x;
      }
    }
  }

  lemma ReadyKeeps(s: Sys, init: int, me: int, j: int, dir: int)
    requires Inv(s, init) && Enabled(s, init, Ready(me, j, dir))
    ensures Inv(Step(s, init, Ready(me, j, dir)), init)
  {
    hide NoLostChild, SleepsOnSelf, Parents, Stacks, Dirs;
    var t' := Step(s, init, Ready(me, j, dir)).t;
    SameWaits(s.t, t');
    ReadyParents(s.t, init, me, j, dir);
    StackNeeds(s.t, s.stacks);
    SameStacks(s.t, t', s.stacks);
    ReadyDirs(s.t, s.dirs, me, j, dir);
  }

  // ---- every step, every run ----

  lemma StepKeepsInv(s: Sys, init: int, e: Event)
    requires Inv(s, init) && Enabled(s, init, e)
    ensures Inv(Step(s, init, e), init)
  {
    hide Inv, Exited, Woken, Dispatched;
    var s' := Step(s, init, e);
    match e {
      case Claim(j, pid) =>
        InvStackNeeds(s, init);
        UnformedKeeps(s, init, j, s'.t[j], s'.stacks);
      case GiveStack(j, stack) => UnformedKeeps(s, init, j, s'.t[j], s'.stacks);
      case NoStack(j) => UnformedKeeps(s, init, j, s'.t[j], s'.stacks);
      case SetPass(j) => UnformedKeeps(s, init, j, s'.t[j], s'.stacks);
      case Ready(me, j, dir) => ReadyKeeps(s, init, me, j, dir);
      case Abort(j) => UnformedKeeps(s, init, j, s'.t[j], s'.stacks);
      case Exit(me) => ExitKeeps(s, init, me);
      case Wait(me, w) => WaitKeeps(s, init, me, w);
      case Dispatch(i) =>
        DispatchStirs(s.t, i);
        StirredKeeps(s, init, s'.t);
      case Wakeup(c) =>
        WakeupStirs(s.t, c);
        StirredKeeps(s, init, s'.t);
      case Yield(i) => StirredKeeps(s, init, s'.t);
      case Sleep(i, a) => StirredKeeps(s, init, s'.t);
      case Resume(i) => StirredKeeps(s, init, s'.t);
      case Kill(j) => StirredKeeps(s, init, s'.t);
      case Tickets(me, tix) => StirredKeeps(s, init, s'.t);
    }
  }

  lemma InvStackNeeds(s: Sys, init: int)
    requires Inv(s, init)
    ensures forall i {:trigger s.t[i]} :: 0 <= i < |s.t| ==> (s.t[i].state == UNUSED ==> s.t[i].kstack == 0)
  {
    StackNeeds(s.t, s.stacks);
  }

  lemma DispatchStirs(t: Table, i: int)
    requires IsPick(t, i)
    ensures Stirred(t, Dispatched(t, i))
  {
  }

  lemma WakeupStirs(t: Table, c: Chan)
    ensures Stirred(t, Woken(t, c, |t|))
  {
  }

  // After boot: init runnable, with its stack and directory and the smallest number of tickets, and every other slot
  // unused. No pass has been given out.
  ghost predicate Boot(s: Sys, init: int) {
    && 0 <= init < |s.t| && s.t[init].state == RUNNABLE && s.t[init].parent == NOBODY && s.t[init].kstack != 0
    && s.t[init].tickets == MINTIX && s.t[init].stride == LCM / MINTIX
    && s.stacks == {s.t[init].kstack} && s.dirs == {s.t[init].pgdir}
    && (forall i :: 0 <= i < |s.t| ==> s.t[i].pass == 0)
    && forall i :: 0 <= i < |s.t| && i != init ==>
         s.t[i].state == UNUSED && s.t[i].parent == NOBODY
         && s.t[i].kstack == 0
  }

  ghost predicate IsRun(ss: seq<Sys>, es: seq<Event>, init: int) {
    |ss| == |es| + 1 && forall k :: 0 <= k < |es| ==>
      Enabled(ss[k], init, es[k])
      && ss[k + 1] == Step(ss[k], init, es[k])
  }

  // In every run from boot, whenever ptable.lock is free: nobody sleeps in wait beside a zombie child, every process
  // but init has a living parent, and the stacks and directories handed out are exactly those in the table.
  lemma {:induction false} RunsKeepInv(ss: seq<Sys>, es: seq<Event>, init: int, n: nat)
    requires IsRun(ss, es, init) && Boot(ss[0], init) && n <= |es|
    ensures Inv(ss[n], init)
  {
    if n == 0 {
      assert Formed(ss[0].t[init]);
    } else {
      RunsKeepInv(ss, es, init, n - 1);
      StepKeepsInv(ss[n - 1], init, es[n - 1]);
    }
  }

  // ---- passes and tickets in every run ----

  // The pass fits a long, also in a slot out of use; from allocproc on, the tickets are legal and the stride theirs.
  predicate Priced(p: Proc) {
    && 0 <= p.pass <= LONG_MAX
    && (p.state == UNUSED ==> p.kstack == 0)
    && (Formed(p) || (p.state == EMBRYO && p.kstack != 0) ==> LegalTickets(p.tickets) && p.stride == LCM / p.tickets)
  }

  ghost predicate AllPriced(t: Table) {
    forall i {:trigger t[i]} :: 0 <= i < |t| ==> Priced(t[i])
  }

  lemma NewPassPriced(t: Table, i: int)
    requires AllPriced(t) && 0 <= i < |t|
    ensures 0 <= NewPass(t, i) <= LONG_MAX
  {
    var r := LeastPass(t, t[i].pid, |t|);
    if r.Some? {
      var j :| 0 <= j < |t| && t[j].state != UNUSED && t[j].pid != t[i].pid && t[j].pass == r.value;
      assert Priced(t[j]);
    } else {
      assert Priced(t[i]);
    }
  }

  lemma {:induction false} WokenPriced(t: Table, c: Chan, n: nat)
    requires AllPriced(t) && n <= |t|
    ensures AllPriced(Woken(t, c, n))
  {
    hide NewPass;
    if n > 0 {
      WokenPriced(t, c, n - 1);
      NewPassPriced(Woken(t, c, n - 1), n - 1);
    }
  }

  lemma {:induction false} AdoptedPriced(t: Table, me: int, init: int, n: nat)
    requires AllPriced(t) && n <= |t|
    ensures AllPriced(Adopted(t, me, init, n))
  {
    hide Woken;
    if n > 0 {
      AdoptedPriced(t, me, init, n - 1);
      var r := Adopted(t, me, init, n - 1);
      var a := r[n - 1 := r[n - 1].(parent := init)];
      WokenPriced(a, Slot(init), |a|);
    }
  }

  lemma ExitedPriced(t: Table, me: int, init: int)
    requires AllPriced(t) && 0 <= me < |t| && Formed(t[me])
    ensures AllPriced(Exited(t, me, init))
  {
    hide Woken, Adopted, Priced;
    WokenPriced(t, Slot(t[me].parent), |t|);
    var w := Woken(t, Slot(t[me].parent), |t|);
    AdoptedPriced(w, me, init, |t|);
    WokenForms(t, Slot(t[me].parent), me);
    AdoptedForms(w, me, init, me);
    ZombiePriced(Adopted(w, me, init, |t|)[me]);
  }

  lemma WokenForms(t: Table, c: Chan, j: int)
    requires 0 <= j < |t| && Formed(t[j])
    ensures Formed(Woken(t, c, |t|)[j])
  {
  }

  lemma AdoptedForms(t: Table, me: int, init: int, j: int)
    requires 0 <= j < |t| && Formed(t[j])
    ensures Formed(Adopted(t, me, init, |t|)[j])
  {
  }

  lemma ZombiePriced(p: Proc)
    requires Priced(p) && Formed(p)
    ensures Priced(p.(state := ZOMBIE))
  {
  }

  lemma DispatchedPriced(t: Table, i: int)
    requires AllPriced(t) && IsPick(t, i)
    ensures AllPriced(Dispatched(t, i))
  {
    assert Priced(t[i]);
    StrideBound(t[i].tickets);
    forall j {:trigger Dispatched(t, i)[j]} | 0 <= j < |t|
      ensures Priced(Dispatched(t, i)[j])
    {
      assert Priced(t[j]);
    }
  }

  lemma StrideBound(tix: int)
    requires LegalTickets(tix)
    ensures 0 <= LCM / tix <= LONG_MAX
  {
    assert tix * (LCM / tix) <= LCM;
  }

  lemma SlotPriced(t: Table, i: int, p: Proc)
    requires AllPriced(t) && 0 <= i < |t| && Priced(p)
    ensures AllPriced(t[i := p])
  {
  }

  lemma StepKeepsPriced(s: Sys, init: int, e: Event)
    requires AllPriced(s.t) && Enabled(s, init, e)
    ensures AllPriced(Step(s, init, e).t)
  {
    hide Exited, Woken, Dispatched, NewPass, IsPick, WaitOutcome, Priced;
    match e {
      case Dispatch(i) => DispatchedPriced(s.t, i);
      case Wakeup(c) => WokenPriced(s.t, c, |s.t|);
      case Exit(me) => ExitedPriced(s.t, me, init);
      case Wait(me, w) => WaitPriced(s, init, me, w);
      case _ => PutPriced(s, init, e);
    }
  }

  lemma WaitPriced(s: Sys, init: int, me: int, w: WaitResult)
    requires AllPriced(s.t) && Enabled(s, init, Wait(me, w))
    ensures AllPriced(Step(s, init, Wait(me, w)).t)
  {
    match w {
      case Reaped(j) => SlotPriced(s.t, j, Reap(s.t[j]));
      case NoChildren =>
      case Asleep => SlotPriced(s.t, me, SleepOn(s.t[me], Slot(me)));
    }
  }

  lemma PutPriced(s: Sys, init: int, e: Event)
    requires AllPriced(s.t) && Enabled(s, init, e) && !e.Dispatch? && !e.Wakeup? && !e.Exit? && !e.Wait?
    ensures AllPriced(Step(s, init, e).t)
  {
    hide Exited, Woken, Dispatched, NewPass, IsPick, WaitOutcome;
    match e {
      case SetPass(j) => NewPassPriced(s.t, j);
      case _ =>
    }
  }

  // In every run from boot, with any interleaving of wakeups, kills, forks, exits and resets on any number of CPUs,
  // no pass overflows and every process is charged the stride of a legal number of tickets.
  lemma {:induction false} RunsKeepPriced(ss: seq<Sys>, es: seq<Event>, init: int, n: nat)
    requires IsRun(ss, es, init) && Boot(ss[0], init) && n <= |es|
    ensures AllPriced(ss[n].t)
  {
    hide Enabled;
    if n > 0 {
      RunsKeepPriced(ss, es, init, n - 1);
      StepKeepsPriced(ss[n - 1], init, es[n - 1]);
    }
  }

  // ---- the mark of a killed process ----

  predicate Reaps(e: Event, j: int) {
    e.Wait? && e.w == Reaped(j)
  }

  // Only kill marks a slot, and only its being reaped takes the mark away.
  lemma MarkStep(s: Sys, init: int, e: Event, j: int)
    requires Enabled(s, init, e) && In(s, j)
    ensures In(Step(s, init, e), j)
    ensures Step(s, init, e).t[j].killed <==> e == Kill(j) || (s.t[j].killed && !Reaps(e, j))
  {
    hide Woken, Adopted, NewPass, Exited;
    if e.Exit? {
      ExitedSlots(s.t, e.me, init);
    }
  }

  // In every run, a slot is marked exactly when it has been killed since it was last reaped.
  lemma {:induction false} MarkHistory(ss: seq<Sys>, es: seq<Event>, init: int, n: nat, j: int)
    requires IsRun(ss, es, init) && n <= |es| && In(ss[0], j)
    ensures In(ss[n], j)
    ensures ss[n].t[j].killed <==>
      || (ss[0].t[j].killed && forall m :: 0 <= m < n ==> !Reaps(es[m], j))
      || exists k :: 0 <= k < n && es[k] == Kill(j) && forall m :: k < m < n ==> !Reaps(es[m], j)
  {
    hide Enabled, Step;
    if n > 0 {
      MarkHistory(ss, es, init, n - 1, j);
      MarkStep(ss[n - 1], init, es[n - 1], j);
      if es[n - 1] == Kill(j) {
        assert ss[n].t[j].killed;
      } else if ss[n].t[j].killed && !(ss[0].t[j].killed && forall m :: 0 <= m < n ==> !Reaps(es[m], j)) {
        var k :| 0 <= k < n - 1 && es[k] == Kill(j) && forall m :: k < m < n - 1 ==> !Reaps(es[m], j);
        assert forall m :: k < m < n ==> !Reaps(es[m], j);
      }
    }
  }

  // ---- who runs, who sleeps and whose child a process is, told by the events ----

  // What takes the processor from the process in slot j.
  predicate Stops(e: Event, j: int) {
    e == Yield(j) || (e.Sleep? && e.i == j) || e == Exit(j) || e == Wait(j, Asleep)
  }

  // What ends a sleep on address a.
  predicate Rouses(e: Event, j: int, a: int) {
    e == Wakeup(Address(a)) || e == Kill(j)
  }

  lemma RunningStep(s: Sys, init: int, e: Event, j: int)
    requires Enabled(s, init, e) && In(s, j)
    ensures In(Step(s, init, e), j)
    ensures Running(Step(s, init, e), j) <==> e == Dispatch(j) || (Running(s, j) && !Stops(e, j))
  {
    hide Woken, Adopted, NewPass, Exited;
    if e.Exit? {
      ExitedSlots(s.t, e.me, init);
    }
  }

  lemma SleepStep(s: Sys, init: int, e: Event, j: int, a: int)
    requires Enabled(s, init, e) && In(s, j)
    ensures In(Step(s, init, e), j)
    ensures SleepsOn(Step(s, init, e).t[j], Address(a)) <==>
      e == Sleep(j, a) || (SleepsOn(s.t[j], Address(a)) && !Rouses(e, j, a))
  {
    hide Woken, Adopted, NewPass, Exited;
    if e.Exit? {
      ExitedSlots(s.t, e.me, init);
    }
  }

  // In every run, the process in a slot runs exactly when it has been dispatched and has not stopped since.
  lemma {:induction false} RunningHistory(ss: seq<Sys>, es: seq<Event>, init: int, n: nat, j: int)
    requires IsRun(ss, es, init) && Boot(ss[0], init) && n <= |es| && In(ss[0], j)
    ensures In(ss[n], j)
    ensures ss[n].t[j].state == RUNNING <==>
      exists k :: 0 <= k < n && es[k] == Dispatch(j) && forall m :: k < m < n ==> !Stops(es[m], j)
  {
    hide Enabled, Step;
    if n > 0 {
      RunningHistory(ss, es, init, n - 1, j);
      RunningStep(ss[n - 1], init, es[n - 1], j);
      if es[n - 1] == Dispatch(j) {
        assert Running(ss[n], j);
      } else if Running(ss[n], j) {
        var k :| 0 <= k < n - 1 && es[k] == Dispatch(j) && forall m :: k < m < n - 1 ==> !Stops(es[m], j);
        assert forall m :: k < m < n ==> !Stops(es[m], j);
      }
    }
  }

  // In every run, a process sleeps on an address exactly when it has gone to sleep there and since then there has
  // been no wakeup on that address and no kill of it: no wakeup is lost and none comes from elsewhere.
  lemma {:induction false} SleepHistory(ss: seq<Sys>, es: seq<Event>, init: int, n: nat, j: int, a: int)
    requires IsRun(ss, es, init) && Boot(ss[0], init) && n <= |es| && In(ss[0], j)
    ensures In(ss[n], j)
    ensures ss[n].t[j].state == SLEEPING && ss[n].t[j].chan == Address(a) <==>
      exists k :: 0 <= k < n && es[k] == Sleep(j, a) && forall m :: k < m < n ==> !Rouses(es[m], j, a)
  {
    hide Enabled, Step;
    if n > 0 {
      SleepHistory(ss, es, init, n - 1, j, a);
      SleepStep(ss[n - 1], init, es[n - 1], j, a);
      if es[n - 1] == Sleep(j, a) {
        assert SleepsOn(ss[n].t[j], Address(a));
      } else if SleepsOn(ss[n].t[j], Address(a)) {
        var k :| 0 <= k < n - 1 && es[k] == Sleep(j, a) && forall m :: k < m < n - 1 ==> !Rouses(es[m], j, a);
        assert forall m :: k < m < n ==> !Rouses(es[m], j, a);
      }
    }
  }

  predicate Forks(e: Event, c: int) {
    e.Ready? && e.j == c
  }

  lemma ParentStep(s: Sys, init: int, e: Event, c: int)
    requires Enabled(s, init, e) && In(s, c)
    ensures In(Step(s, init, e), c)
    ensures Formed(Step(s, init, e).t[c]) <==> Forks(e, c) || (Formed(s.t[c]) && !Reaps(e, c))
    ensures Forks(e, c) ==> Step(s, init, e).t[c].parent == e.me
    ensures Formed(s.t[c]) && !Reaps(e, c) ==>
      && !Forks(e, c)
      && Step(s, init, e).t[c].parent == if e == Exit(s.t[c].parent) then init else s.t[c].parent
  {
    hide Woken, Adopted, NewPass, Exited;
    if e.Exit? {
      ExitedSlots(s.t, e.me, init);
    }
  }

  // In every run, a process other than init is the child of the one that forked it as long as that one has not
  // exited, and from then on, whoever uses that slot, it is init's.
  lemma {:induction false} ParentHistory(ss: seq<Sys>, es: seq<Event>, init: int, n: nat, c: int)
    requires IsRun(ss, es, init) && Boot(ss[0], init) && n <= |es| && In(ss[0], c) && c != init
    ensures In(ss[n], c)
    ensures Formed(ss[n].t[c]) ==>
      exists k :: 0 <= k < n && Forks(es[k], c) && (forall m :: k < m < n ==> !Reaps(es[m], c))
        && ss[n].t[c].parent == if exists m :: k < m < n && es[m] == Exit(es[k].me) then init else es[k].me
  {
    hide Enabled, Step;
    if n > 0 {
      ParentHistory(ss, es, init, n - 1, c);
      var e := es[n - 1];
      ParentStep(ss[n - 1], init, e, c);
      if !Forks(e, c) && Formed(ss[n].t[c]) {
        var k :| 0 <= k < n - 1 && Forks(es[k], c) && (forall m :: k < m < n - 1 ==> !Reaps(es[m], c))
          && ss[n - 1].t[c].parent == if exists m :: k < m < n - 1 && es[m] == Exit(es[k].me) then init else es[k].me;
        InitStays(ss, es, init, n - 1);
        assert forall m :: k < m < n ==> !Reaps(es[m], c);
      }
    }
  }

  lemma InitStays(ss: seq<Sys>, es: seq<Event>, init: int, k: nat)
    requires IsRun(ss, es, init) && k < |es|
    ensures es[k] != Exit(init)
  {
    hide Step;
    assert Enabled(ss[k], init, es[k]);
  }

  // A killed process is not asleep in wait.
  ghost predicate MarkedAwake(t: Table) {
    forall j :: 0 <= j < |t| && t[j].killed && t[j].state == SLEEPING ==> !t[j].chan.Slot?
  }

  lemma StepKeepsMarkedAwake(s: Sys, init: int, e: Event)
    requires MarkedAwake(s.t) && Enabled(s, init, e)
    ensures MarkedAwake(Step(s, init, e).t)
  {
    hide Woken, Adopted, NewPass, Exited;
    if e.Exit? {
      ExitedSlots(s.t, e.me, init);
    }
  }

  // In every run from boot, a process that has been killed never sleeps in wait.
  lemma {:induction false} RunsKeepMarkedAwake(ss: seq<Sys>, es: seq<Event>, init: int, n: nat)
    requires IsRun(ss, es, init) && Boot(ss[0], init) && n <= |es|
    ensures forall j :: 0 <= j < |ss[n].t| && ss[n].t[j].killed && ss[n].t[j].state == SLEEPING ==>
      ss[n].t[j].chan != Slot(j)
    ensures MarkedAwake(ss[n].t)
  {
    hide Enabled, Step;
    if n > 0 {
      RunsKeepMarkedAwake(ss, es, init, n - 1);
      StepKeepsMarkedAwake(ss[n - 1], init, es[n - 1]);
    }
  }

  // ---- zombies ----

  // The zombie in slot j has been reaped by its parent, and its stack and directory given back.
  ghost predicate ReapedBy(s: Sys, s': Sys, e: Event, j: int)
    requires In(s, j)
  {
    && e == Wait(s.t[j].parent, Reaped(j)) && s'.t == s.t[j := Reap(s.t[j])]
    && s.t[j].kstack in s.stacks && s'.stacks == s.stacks - {s.t[j].kstack}
    && s.t[j].pgdir in s.dirs && s'.dirs == s.dirs - {s.t[j].pgdir}
  }

  // It is the same zombie as before, with its stack and directory.
  ghost predicate StillZombie(s: Sys, s': Sys, j: int)
    requires In(s, j)
  {
    && In(s', j) && s'.t[j].state == ZOMBIE && s'.t[j].pid == s.t[j].pid
    && s'.t[j].kstack == s.t[j].kstack && s.t[j].kstack in s'.stacks
    && s'.t[j].pgdir == s.t[j].pgdir && s.t[j].pgdir in s'.dirs
  }

  // A zombie stays as it is until its parent of the moment reaps it.
  lemma ZombieWaitsForParent(s: Sys, init: int, e: Event, j: int)
    requires Inv(s, init) && Enabled(s, init, e) && In(s, j) && s.t[j].state == ZOMBIE
    ensures ReapedBy(s, Step(s, init, e), e, j) || StillZombie(s, Step(s, init, e), j)
  {
    if e.Wait? {
      WaitAndZombie(s, init, e.me, e.w, j);
    } else if e.Claim? || e.GiveStack? || e.NoStack? || e.SetPass? || e.Ready? || e.Abort? {
      ForkAndZombie(s, init, e, j);
    } else {
      RunAndZombie(s, init, e, j);
    }
  }

  lemma ForkAndZombie(s: Sys, init: int, e: Event, j: int)
    requires Inv(s, init) && Enabled(s, init, e) && In(s, j) && s.t[j].state == ZOMBIE
    requires e.Claim? || e.GiveStack? || e.NoStack? || e.SetPass? || e.Ready? || e.Abort?
    ensures StillZombie(s, Step(s, init, e), j)
  {
    hide Inv, Exited, Woken, Dispatched, Waited, IsPick, NewPass, WaitOutcome;
    Holds(s, init, j);
    if e.Abort? {
      HoldsApart(s, init, e.j, j);
    }
  }

  lemma RunAndZombie(s: Sys, init: int, e: Event, j: int)
    requires Inv(s, init) && Enabled(s, init, e) && In(s, j) && s.t[j].state == ZOMBIE
    requires !(e.Claim? || e.GiveStack? || e.NoStack? || e.SetPass? || e.Ready? || e.Abort? || e.Wait?)
    ensures StillZombie(s, Step(s, init, e), j)
  {
    hide Inv, Exited, Woken, Dispatched, Waited, IsPick, NewPass, WaitOutcome;
    Holds(s, init, j);
    match e {
      case Exit(me) => ExitKeepsZombie(s, init, me, j);
      case Dispatch(i) => DispatchKeepsZombie(s.t, i, j);
      case Wakeup(c) => WakeupKeepsZombie(s.t, c, j);
      case _ =>
    }
  }

  lemma WaitAndZombie(s: Sys, init: int, me: int, w: WaitResult, j: int)
    requires Inv(s, init) && Enabled(s, init, Wait(me, w)) && In(s, j) && s.t[j].state == ZOMBIE
    ensures ReapedBy(s, Step(s, init, Wait(me, w)), Wait(me, w), j) || StillZombie(s, Step(s, init, Wait(me, w)), j)
  {
    hide Inv, Exited, Woken, Dispatched, Formed;
    Holds(s, init, j);
    if w.Reaped? && w.slot != j {
      HoldsApart(s, init, w.slot, j);
    }
  }

  lemma ExitKeepsZombie(s: Sys, init: int, me: int, j: int)
    requires Inv(s, init) && Running(s, me) && me != init && In(s, j) && s.t[j].state == ZOMBIE
    ensures var p := Exited(s.t, me, init)[j];
      p.state == ZOMBIE && p.kstack == s.t[j].kstack && p.pgdir == s.t[j].pgdir && p.pid == s.t[j].pid
  {
    ExitKeepsParents(s.t, me, init);
    ExitedHoldings(s.t, me, init);
  }

  lemma Holds(s: Sys, init: int, j: int)
    requires Inv(s, init) && In(s, j) && s.t[j].state == ZOMBIE
    ensures s.t[j].kstack in s.stacks && s.t[j].pgdir in s.dirs
  {
    assert Formed(s.t[j]) && s.t[j].kstack == s.t[j].kstack && s.t[j].pgdir == s.t[j].pgdir;
  }

  lemma HoldsApart(s: Sys, init: int, i: int, j: int)
    requires Inv(s, init) && In(s, i) && In(s, j) && i != j && s.t[j].state == ZOMBIE
    ensures s.t[i].kstack != s.t[j].kstack
    ensures s.t[i].state == ZOMBIE ==> s.t[i].pgdir != s.t[j].pgdir
  {
    assert Formed(s.t[j]) && s.t[j].kstack == s.t[j].kstack;
  }

  lemma DispatchKeepsZombie(t: Table, i: int, j: int)
    requires IsPick(t, i) && 0 <= j < |t| && t[j].state == ZOMBIE
    ensures Dispatched(t, i)[j] == t[j].(pass := Dispatched(t, i)[j].pass)
  {
  }

  lemma WakeupKeepsZombie(t: Table, c: Chan, j: int)
    requires 0 <= j < |t| && t[j].state == ZOMBIE
    ensures Woken(t, c, |t|)[j] == t[j]
  {
  }
}
