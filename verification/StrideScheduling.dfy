/** Fairness of the stride scheduler on one CPU, over runs in which the runnable processes keep running and yielding. */
module StrideScheduling {
  import opened Basics
  import opened ProcTable

  const SPREAD := LCM / MINTIX   // the largest stride, 360360

  // One turn of process i: it is charged and dispatched, runs, and yields.
  function Round(t: Table, i: int): (r: Table)
    requires 0 <= i < |t|
    ensures |r| == |t|
  {
    var d := Dispatched(t, i);
    d[i := d[i].(nSchedule := d[i].nSchedule + 1, state := RUNNABLE)]
  }

  ghost predicate IsRun(ts: seq<Table>, picks: seq<int>) {
    |ts| == |picks| + 1 && forall k :: 0 <= k < |picks| ==>
      IsPick(ts[k], picks[k]) && ts[k + 1] == Round(ts[k], picks[k])
  }

  // No turn of the run reset the pass values.
  ghost predicate NoReset(ts: seq<Table>, picks: seq<int>)
    requires IsRun(ts, picks)
  {
    forall k :: 0 <= k < |picks| ==> !Overflows(ts[k][picks[k]])
  }

  predicate Runnable(t: Table, i: int) {
    0 <= i < |t| && t[i].state == RUNNABLE
  }

  // ---- legal tickets divide LCM exactly ----

  lemma StrideExact(tix: int)
    requires LegalTickets(tix)
    ensures tix * (LCM / tix) == LCM
    ensures LCM / MAXTIX <= LCM / tix <= SPREAD
  {
    TicketsDivide(tix);
    var q := LCM / tix;
    assert 10 * q <= tix * q <= 150 * q;
  }

  // ---- the invariant of every run ----

  ghost predicate Legal(p: Proc) {
    0 <= p.pass <= LONG_MAX && LegalTickets(p.tickets) && p.stride == LCM / p.tickets
  }

  ghost predicate Spread(t: Table) {
    forall i, j :: Runnable(t, i) && Runnable(t, j) ==> t[i].pass - t[j].pass <= SPREAD
  }

  ghost predicate Healthy(t: Table) {
    (forall i :: 0 <= i < |t| && t[i].state != UNUSED ==> Legal(t[i])) && Spread(t)
  }

  // Every turn, with or without a reset, keeps all passes in range and the runnable ones within one largest stride.
  lemma RoundKeepsHealthy(t: Table, i: int)
    requires Healthy(t) && IsPick(t, i)
    ensures Healthy(Round(t, i))
    ensures forall j :: Runnable(Round(t, i), j) <==> Runnable(t, j)
  {
    StrideExact(t[i].tickets);
  }

  lemma SetticketsKeepsHealthy(t: Table, i: int, tix: int)
    requires Healthy(t) && 0 <= i < |t| && LegalTickets(tix)
    ensures Healthy(t[i := t[i].(tickets := tix, stride := LCM / tix)])
  {
    var t' := t[i := t[i].(tickets := tix, stride := LCM / tix)];
    assert forall j :: Runnable(t', j) ==> Runnable(t, j) && t'[j].pass == t[j].pass;
  }

  lemma {:induction false} RunKeepsHealthy(ts: seq<Table>, picks: seq<int>, n: nat)
    requires IsRun(ts, picks) && Healthy(ts[0]) && n <= |picks|
    ensures Healthy(ts[n]) && |ts[n]| == |ts[0]|
    ensures forall j :: Runnable(ts[n], j) <==> Runnable(ts[0], j)
  {
    if n > 0 {
      RunKeepsHealthy(ts, picks, n - 1);
      RoundKeepsHealthy(ts[n - 1], picks[n - 1]);
    }
  }

  // Turns and settickets calls in any order.
  datatype Move = Turn(i: int) | Tickets(i: int, tix: int)

  ghost predicate CanMove(t: Table, m: Move) {
    match m
    case Turn(i) => IsPick(t, i)
    case Tickets(i, tix) => 0 <= i < |t| && LegalTickets(tix)
  }

  function Moved(t: Table, m: Move): Table
    requires 0 <= m.i < |t|
  {
    match m
    case Turn(i) => Round(t, i)
    case Tickets(i, tix) => t[i := t[i].(tickets := tix, stride := if tix == 0 then 0 else LCM / tix)]
  }

  lemma {:induction false} MovesKeepHealthy(ts: seq<Table>, ms: seq<Move>, n: nat)
    requires |ts| == |ms| + 1 && forall k :: 0 <= k < |ms| ==> CanMove(ts[k], ms[k]) && ts[k + 1] == Moved(ts[k], ms[k])
    requires Healthy(ts[0]) && n <= |ms|
    ensures Healthy(ts[n])
  {
    if n > 0 {
      MovesKeepHealthy(ts, ms, n - 1);
      var t := ts[n - 1];
      match ms[n - 1] {
        case Turn(i) => RoundKeepsHealthy(t, i);
        case Tickets(i, tix) => SetticketsKeepsHealthy(t, i, tix);
      }
    }
  }

  // ---- proportional share ----

  // How often process i was scheduled during the run: the difference that getpinfo reports.
  function Turns(ts: seq<Table>, i: int): int
    requires |ts| > 0 && 0 <= i < |ts[0]| && |ts[|ts| - 1]| == |ts[0]|
  {
    ts[|ts| - 1][i].nSchedule - ts[0][i].nSchedule
  }

  // Without a reset, a process has paid one stride for each of its turns.
  lemma {:induction false} Paid(ts: seq<Table>, picks: seq<int>, n: nat, i: int)
    requires IsRun(ts, picks) && NoReset(ts, picks) && n <= |picks| && Runnable(ts[0], i)
    ensures Runnable(ts[n], i) && ts[n][i].stride == ts[0][i].stride && ts[n][i].tickets == ts[0][i].tickets
    ensures ts[n][i].nSchedule >= ts[0][i].nSchedule
    ensures ts[n][i].pass - ts[0][i].pass == (ts[n][i].nSchedule - ts[0][i].nSchedule) * ts[0][i].stride
    ensures |ts[n]| == |ts[0]|
  {
    if n > 0 {
      Paid(ts, picks, n - 1, i);
      var m, s := ts[n - 1][i].nSchedule - ts[0][i].nSchedule, ts[0][i].stride;
      assert (m + 1) * s == m * s + s;
    }
  }

  // Without a reset, a process that has had a turn was, before its last one, not ahead of anybody.
  lemma {:induction false} NotAhead(ts: seq<Table>, picks: seq<int>, n: nat, i: int, j: int)
    requires IsRun(ts, picks) && NoReset(ts, picks) && n <= |picks| && Runnable(ts[0], i) && Runnable(ts[0], j)
    requires forall k :: Runnable(ts[0], k) ==> ts[0][k].stride >= 0
    ensures |ts[n]| == |ts[0]|
    ensures ts[n][i].nSchedule > ts[0][i].nSchedule ==> ts[n][i].pass - ts[0][i].stride <= ts[n][j].pass
  {
    if n > 0 {
      NotAhead(ts, picks, n - 1, i, j);
      Paid(ts, picks, n - 1, i);
      Paid(ts, picks, n - 1, j);
    }
  }

  // From equal passes and without a reset, no process gets more than one turn beyond its share of tickets:
  // (n_i - 1) * tickets_j <= n_j * tickets_i for every two runnable processes.
  lemma ProportionalShare(ts: seq<Table>, picks: seq<int>, i: int, j: int)
    requires IsRun(ts, picks) && NoReset(ts, picks) && Healthy(ts[0])
    requires Runnable(ts[0], i) && Runnable(ts[0], j) && ts[0][i].pass == ts[0][j].pass
    ensures |ts[|picks|]| == |ts[0]|
    ensures (Turns(ts, i) - 1) * ts[0][j].tickets <= Turns(ts, j) * ts[0][i].tickets
  {
    hide NoReset, IsPick, Round;
    var n := |picks|;
    RunKeepsHealthy(ts, picks, n);
    Paid(ts, picks, n, i);
    Paid(ts, picks, n, j);
    StrideExact(ts[0][i].tickets);
    StrideExact(ts[0][j].tickets);
    if Turns(ts, i) > 0 {
      NotAhead(ts, picks, n, i, j);
      OneLess(Turns(ts, i), ts[0][i].stride);
      Cross(Turns(ts, i) - 1, Turns(ts, j), ts[0][i].tickets, ts[0][j].tickets, ts[0][i].stride, ts[0][j].stride, 0);
    } else {
      NoTurns(Turns(ts, j), ts[0][i].tickets, ts[0][j].tickets);
    }
  }

  lemma OneLess(a: int, s: int)
    ensures (a - 1) * s == a * s - s
  {
  }

  lemma NoTurns(b: int, ti: int, tj: int)
    requires b >= 0 && ti > 0 && tj > 0
    ensures -1 * tj <= b * ti
  {
  }

  // a strides of i are at most b strides of j plus c; the same in tickets.
  lemma Cross(a: int, b: int, ti: int, tj: int, si: int, sj: int, c: int)
    requires a * si <= b * sj + c && ti > 0 && tj > 0 && ti * si == LCM && tj * sj == LCM
    ensures (a * tj - b * ti) * LCM <= c * (ti * tj)
    ensures c == 0 ==> a * tj <= b * ti
  {
    assert (a * si) * (ti * tj) <= (b * sj + c) * (ti * tj) by {
      assert ti * tj > 0;
    }
    assert (a * si) * (ti * tj) == a * tj * (ti * si);
    assert (b * sj + c) * (ti * tj) == b * ti * (tj * sj) + c * (ti * tj);
  }

  // From any healthy table and without a reset, turns differ from the ticket ratio by a constant.
  lemma ShareFromAnywhere(ts: seq<Table>, picks: seq<int>, i: int, j: int)
    requires IsRun(ts, picks) && NoReset(ts, picks) && Healthy(ts[0]) && Runnable(ts[0], i) && Runnable(ts[0], j)
    ensures |ts[|picks|]| == |ts[0]|
    ensures 5 * (Turns(ts, i) * ts[0][j].tickets - Turns(ts, j) * ts[0][i].tickets) <=
      ts[0][i].tickets * ts[0][j].tickets
  {
    var n := |picks|;
    RunKeepsHealthy(ts, picks, n);
    Paid(ts, picks, n, i);
    Paid(ts, picks, n, j);
    StrideExact(ts[0][i].tickets);
    StrideExact(ts[0][j].tickets);
    Cross(Turns(ts, i), Turns(ts, j), ts[0][i].tickets, ts[0][j].tickets, ts[0][i].stride, ts[0][j].stride, 2 * SPREAD);
    Fifth(Turns(ts, i) * ts[0][j].tickets - Turns(ts, j) * ts[0][i].tickets, ts[0][i].tickets * ts[0][j].tickets);
  }

  lemma Fifth(x: int, y: int)
    requires x * LCM <= 2 * SPREAD * y
    ensures 5 * x <= y
  {
  }

  // ---- bounded waiting ----

  // How many turns process j can still get before process i's next turn, if there is no reset.
  function Ahead(t: Table, i: int, j: int): (n: int)
    requires 0 <= i < |t| && 0 <= j < |t| && t[j].stride > 0
    ensures n >= 0
  {
    if j != i && t[j].state == RUNNABLE && t[j].pass <= t[i].pass then (t[i].pass - t[j].pass) / t[j].stride + 1 else 0
  }

  function AheadOf(t: Table, i: int, j: int): int
    requires 0 <= i < |t| && 0 <= j < |t|
  {
    if t[j].state == RUNNABLE && t[j].stride > 0 then Ahead(t, i, j) else 0
  }

  function Waiting(t: Table, i: int, n: nat): int
    requires 0 <= i < |t| && n <= |t|
  {
    if n == 0 then 0 else Waiting(t, i, n - 1) + AheadOf(t, i, n - 1)
  }

  // The runnable processes below slot n other than i.
  function Others(t: Table, i: int, n: nat): (c: nat)
    requires n <= |t|
    ensures c <= n
  {
    if n == 0 then 0 else Others(t, i, n - 1) + if n - 1 != i && t[n - 1].state == RUNNABLE then 1 else 0
  }

  lemma HealthyPositive(t: Table, j: int)
    requires Healthy(t) && Runnable(t, j)
    ensures LCM / MAXTIX <= t[j].stride <= SPREAD
  {
    StrideExact(t[j].tickets);
  }

  // Within the spread, at most 16 turns.
  lemma AheadBound(t: Table, i: int, j: int)
    requires Healthy(t) && Runnable(t, i) && 0 <= j < |t|
    ensures 0 <= AheadOf(t, i, j) <= if j != i && t[j].state == RUNNABLE then 16 else 0
  {
    if Runnable(t, j) {
      HealthyPositive(t, j);
      if t[j].pass <= t[i].pass {
        Quotient(t[i].pass - t[j].pass, t[j].stride, 15);
      }
    }
  }

  lemma Quotient(a: int, s: int, q: int)
    requires 0 <= a && 0 < s && a <= q * 24024 && 24024 <= s && 0 <= q
    ensures 0 <= a / s <= q
  {
    assert q * 24024 <= q * s;
    assert a == a / s * s + a % s;
    assert (a / s - q) * s == a - a % s - q * s;
    Sign(a / s - q, s);
  }

  lemma Sign(d: int, s: int)
    requires s > 0
    ensures d * s <= 0 ==> d <= 0
    ensures -s < d * s < s ==> d == 0
  {
  }

  lemma {:induction false} WaitingBound(t: Table, i: int, n: nat)
    requires Healthy(t) && Runnable(t, i) && n <= |t|
    ensures 0 <= Waiting(t, i, n) <= 16 * Others(t, i, n)
  {
    if n > 0 {
      WaitingBound(t, i, n - 1);
      AheadBound(t, i, n - 1);
    }
  }

  // A turn of p without a reset uses up one of p's turns ahead of i and no other's.
  lemma AheadStep(t: Table, i: int, p: int, j: int)
    requires Healthy(t) && IsPick(t, p) && Runnable(t, i) && i != p && !Overflows(t[p]) && 0 <= j < |t|
    ensures AheadOf(Round(t, p), i, j) == AheadOf(t, i, j) - if j == p then 1 else 0
  {
    var r := Round(t, p);
    assert r[i] == t[i] && r[p] == t[p].(pass := t[p].pass + t[p].stride, nSchedule := t[p].nSchedule + 1);
    if j == p {
      HealthyPositive(t, p);
      LessOne(t[i].pass - t[p].pass, t[p].stride);
    } else {
      assert r[j] == t[j];
    }
  }

  lemma LessOne(a: int, s: int)
    requires 0 <= a && 0 < s
    ensures (if a >= s then (a - s) / s + 1 else 0) == a / s
  {
    assert a == a / s * s + a % s;
    if a >= s {
      assert a - s == (a - s) / s * s + (a - s) % s;
      assert (a / s - (a - s) / s - 1) * s == (a - s) % s - a % s;
      Sign(a / s - (a - s) / s - 1, s);
    } else {
      Sign(a / s, s);
    }
  }

  lemma {:induction false} WaitingStep(t: Table, i: int, p: int, n: nat)
    requires Healthy(t) && IsPick(t, p) && Runnable(t, i) && i != p && !Overflows(t[p]) && n <= |t|
    ensures Waiting(Round(t, p), i, n) == Waiting(t, i, n) - if p < n then 1 else 0
  {
    if n > 0 {
      WaitingStep(t, i, p, n - 1);
      AheadStep(t, i, p, n - 1);
    }
  }

  // After a reset everybody is level: one turn each at most.
  lemma {:induction false} WaitingReset(t: Table, i: int, p: int, n: nat)
    requires Healthy(t) && IsPick(t, p) && Runnable(t, i) && Overflows(t[p]) && n <= |t|
    ensures Waiting(Round(t, p), i, n) == Others(t, i, n)
  {
    if n > 0 {
      WaitingReset(t, i, p, n - 1);
      if Runnable(t, n - 1) {
        HealthyPositive(t, n - 1);
        assert 0 / t[n - 1].stride == 0;
      }
    }
  }

  lemma {:induction false} SameOthers(t: Table, t': Table, i: int, n: nat)
    requires |t'| == |t| && n <= |t|
    requires forall j :: 0 <= j < |t| ==> (t'[j].state == RUNNABLE <==> t[j].state == RUNNABLE)
    ensures Others(t', i, n) == Others(t, i, n)
  {
    if n > 0 {
      SameOthers(t, t', i, n - 1);
    }
  }

  // What is left of i's wait, allowing for one reset: none can happen while i's pass is 0.
  function Budget(t: Table, i: int): int
    requires 0 <= i < |t|
  {
    Waiting(t, i, |t|) + if t[i].pass == 0 then 0 else Others(t, i, |t|) + 1
  }

  lemma BudgetStep(t: Table, i: int, p: int)
    requires Healthy(t) && IsPick(t, p) && Runnable(t, i) && i != p
    ensures Runnable(Round(t, p), i) && Budget(Round(t, p), i) < Budget(t, i)
  {
    RoundKeepsHealthy(t, p);
    assert Runnable(Round(t, p), i);
    WaitingBound(t, i, |t|);
    SameOthers(t, Round(t, p), i, |t|);
    if Overflows(t[p]) {
      WaitingReset(t, i, p, |t|);
    } else {
      WaitingStep(t, i, p, |t|);
    }
  }

  lemma {:induction false} BudgetRun(ts: seq<Table>, picks: seq<int>, i: int, n: nat)
    requires IsRun(ts, picks) && Healthy(ts[0]) && Runnable(ts[0], i) && n <= |picks|
    requires forall k :: 0 <= k < n ==> picks[k] != i
    ensures Runnable(ts[n], i) && Budget(ts[n], i) + n <= Budget(ts[0], i)
  {
    if n > 0 {
      BudgetRun(ts, picks, i, n - 1);
      RunKeepsHealthy(ts, picks, n - 1);
      BudgetStep(ts[n - 1], i, picks[n - 1]);
    }
  }

  // Starvation freedom with a bound: against m competitors, with or without resets,
  // a runnable process is not passed over for more than 17 m + 1 turns in a row.
  lemma BoundedWait(ts: seq<Table>, picks: seq<int>, i: int)
    requires IsRun(ts, picks) && Healthy(ts[0]) && Runnable(ts[0], i)
    requires i !in picks
    ensures |picks| <= 17 * Others(ts[0], i, |ts[0]|) + 1
  {
    BudgetRun(ts, picks, i, |picks|);
    RunKeepsHealthy(ts, picks, |picks|);
    WaitingBound(ts[0], i, |ts[0]|);
    WaitingBound(ts[|picks|], i, |ts[|picks|]|);
  }

  lemma {:induction false} CompetitorTurns(ts: seq<Table>, picks: seq<int>, i: int, j: int, n: nat)
    requires IsRun(ts, picks) && NoReset(ts, picks) && Healthy(ts[0]) && Runnable(ts[0], i) && Runnable(ts[0], j)
    requires i != j && n <= |picks|
    requires forall k :: 0 <= k < n ==> picks[k] != i
    ensures |ts[n]| == |ts[0]|
    ensures ts[n][j].nSchedule - ts[0][j].nSchedule + AheadOf(ts[n], i, j) == AheadOf(ts[0], i, j)
  {
    if n > 0 {
      CompetitorTurns(ts, picks, i, j, n - 1);
      RunKeepsHealthy(ts, picks, n - 1);
      AheadStep(ts[n - 1], i, picks[n - 1], j);
    }
  }

  // Without a reset, no competitor gets more than 16 turns while a process waits for one.
  lemma SixteenTurns(ts: seq<Table>, picks: seq<int>, i: int, j: int)
    requires IsRun(ts, picks) && NoReset(ts, picks) && Healthy(ts[0]) && Runnable(ts[0], i) && Runnable(ts[0], j)
    requires i != j
    requires i !in picks
    ensures |ts[|picks|]| == |ts[0]| && Turns(ts, j) <= 16
  {
    CompetitorTurns(ts, picks, i, j, |picks|);
    RunKeepsHealthy(ts, picks, |picks|);
    AheadBound(ts[0], i, j);
    AheadBound(ts[|picks|], i, j);
  }

  // ---- what wakeup1, allocproc, fork and kill do to the spread ----

  ghost predicate DistinctPids(t: Table) {
    forall j, k :: 0 <= j < k < |t| && t[j].state != UNUSED && t[k].state != UNUSED ==> t[j].pid != t[k].pid
  }

  ghost predicate OtherUsed(t: Table, i: int, j: int) {
    0 <= j < |t| && j != i && t[j].state != UNUSED
  }

  ghost predicate FirstAsleep(t: Table, c: Chan, i: int) {
    0 <= i < |t| && SleepsOn(t[i], c) && forall j :: 0 <= j < i ==> !SleepsOn(t[j], c)
  }

  // The pass a newcomer takes is the least of the other used processes.
  lemma NewPassIs(t: Table, i: int, v: int)
    requires 0 <= i < |t| && forall j :: OtherUsed(t, i, j) ==> t[j].pid != t[i].pid && v <= t[j].pass
    requires exists j :: OtherUsed(t, i, j) && t[j].pass == v
    ensures NewPass(t, i) == v
  {
    var j :| OtherUsed(t, i, j) && t[j].pass == v;
    assert LeastPass(t, t[i].pid, |t|).Some?;
  }

  lemma NewPassLeast(t: Table, i: int)
    requires 0 <= i < |t| && (forall j :: OtherUsed(t, i, j) ==> t[j].pid != t[i].pid) && exists j :: OtherUsed(t, i, j)
    ensures forall j :: OtherUsed(t, i, j) ==> NewPass(t, i) <= t[j].pass
    ensures exists j :: OtherUsed(t, i, j) && t[j].pass == NewPass(t, i)
  {
    var j :| OtherUsed(t, i, j);
    assert LeastPass(t, t[i].pid, |t|).Some?;
    var k :| 0 <= k < |t| && t[k].state != UNUSED && t[k].pid != t[i].pid && t[k].pass == NewPass(t, i);
    assert OtherUsed(t, i, k);
  }

  // In r, the sleepers below m have been woken with pass v, the first of them at i.
  lemma LaterSleeper(t: Table, r: Table, c: Chan, i: int, m: int, v: int)
    requires FirstAsleep(t, c, i) && DistinctPids(t) && i < m < |t| == |r| && SleepsOn(t[m], c)
    requires forall j :: OtherUsed(t, i, j) ==> v <= t[j].pass
    requires forall j :: 0 <= j < |t| ==>
      r[j] == if j < m && SleepsOn(t[j], c) then t[j].(state := RUNNABLE, pass := v) else t[j]
    ensures NewPass(r, m) == v
  {
    forall j | OtherUsed(r, m, j)
      ensures r[j].pid != r[m].pid && v <= r[j].pass
    {
      assert t[j].state != UNUSED;
      assert j != i ==> OtherUsed(t, i, j);
    }
    assert OtherUsed(r, m, i) && r[i].pass == v;
    NewPassIs(r, m, v);
  }

  // wakeup1 gives every sleeper on the channel the pass it gives the first of them.
  lemma {:induction false} WokenPasses(t: Table, c: Chan, i: int, n: nat)
    requires FirstAsleep(t, c, i) && DistinctPids(t) && n <= |t| && exists j :: OtherUsed(t, i, j)
    ensures forall j :: 0 <= j < n && SleepsOn(t[j], c) ==> Woken(t, c, n)[j].pass == NewPass(t, i)
  {
    hide Woken, NewPass, DistinctPids;
    if n > 0 {
      var r, m, v := Woken(t, c, n - 1), n - 1, NewPass(t, i);
      WokenNext(t, c, m);
      WokenPasses(t, c, i, m);
      if SleepsOn(t[m], c) {
        if m == i {
          assert r == t;
        } else {
          DistinctUsed(t, i);
          NewPassLeast(t, i);
          LaterSleeper(t, r, c, i, m, v);
        }
      }
    }
  }

  lemma DistinctUsed(t: Table, i: int)
    requires DistinctPids(t) && 0 <= i < |t| && t[i].state != UNUSED
    ensures forall j :: OtherUsed(t, i, j) ==> t[j].pid != t[i].pid
  {
  }

  // All sleepers woken take the least pass over all used slots but the first sleeper's, also sleeping and zombie ones,
  // whose passes are stale. The spread survives exactly when none of these passes is further behind a runnable
  // process than one largest stride.
  lemma WakeSpread(t: Table, c: Chan, i: int)
    requires Spread(t) && FirstAsleep(t, c, i) && DistinctPids(t) && exists j :: OtherUsed(t, i, j)
    ensures Spread(Woken(t, c, |t|)) <==>
      forall j, k :: OtherUsed(t, i, j) && Runnable(t, k) ==> t[k].pass - t[j].pass <= SPREAD
  {
    var w, v := Woken(t, c, |t|), NewPass(t, i);
    WokenPasses(t, c, i, |t|);
    NewPassLeast(t, i);
    assert Runnable(w, i) && w[i].pass == v;
    forall k | Runnable(t, k)
      ensures Runnable(w, k) && w[k].pass == t[k].pass && v <= t[k].pass
    {
      assert OtherUsed(t, i, k);
    }
    forall k | Runnable(w, k)
      ensures if Runnable(t, k) then w[k].pass == t[k].pass else w[k].pass == v
    {
    }
    if Spread(w) {
      assert forall k :: Runnable(t, k) ==> w[k].pass - w[i].pass <= SPREAD;
    } else {
      var j :| OtherUsed(t, i, j) && t[j].pass == v;
    }
  }

  // The least pass can be a stale one: a sleeper at 0 while the runnable processes are past 400000.
  lemma WakeBreaksSpread()
    ensures exists t: Table, c :: Healthy(t) && DistinctPids(t) && !Spread(Woken(t, c, |t|))
  {
    var p := Proc(RUNNABLE, 1, NOBODY, Nowhere, false, 10, 400000, SPREAD, 0, 1, 1);
    var c, d := Address(1), Address(2);
    var t := [p, p.(state := SLEEPING, pid := 2, pass := 0, chan := c),
      p.(state := SLEEPING, pid := 3, pass := 0, chan := d)];
    assert Spread(t);
    assert Healthy(t);
    assert FirstAsleep(t, c, 1) && OtherUsed(t, 1, 2) && Runnable(t, 0) && t[0].pass - t[2].pass > SPREAD;
    WakeSpread(t, c, 1);
  }

  // A slot joins the runnable ones with pass v.
  lemma JoinSpread(t: Table, i: int, p: Proc)
    requires Spread(t) && 0 <= i < |t| && t[i].state != RUNNABLE && p.state == RUNNABLE
    ensures Spread(t[i := p]) <==> forall k :: Runnable(t, k) ==> -SPREAD <= t[k].pass - p.pass <= SPREAD
  {
    var w := t[i := p];
    assert Runnable(w, i) && w[i].pass == p.pass;
    assert forall k :: Runnable(t, k) ==> Runnable(w, k) && w[k].pass == t[k].pass;
    assert forall k :: Runnable(w, k) && k != i ==> Runnable(t, k) && w[k].pass == t[k].pass;
  }

  // kill makes a sleeper runnable without touching its pass.
  lemma KillSpread(t: Table, i: int)
    requires Spread(t) && 0 <= i < |t| && t[i].state == SLEEPING
    ensures Spread(t[i := Killed(t[i])]) <==>
      forall k :: Runnable(t, k) ==> -SPREAD <= t[k].pass - t[i].pass <= SPREAD
  {
    JoinSpread(t, i, Killed(t[i]));
  }

  // A sleeper that has been left behind and is killed.
  lemma KillBreaksSpread()
    ensures exists t: Table :: |t| == 2 && Healthy(t) && t[1].state == SLEEPING && !Spread(t[1 := Killed(t[1])])
  {
    var p := Proc(RUNNABLE, 1, NOBODY, Nowhere, false, 10, 400000, SPREAD, 0, 1, 1);
    var t := [p, p.(state := SLEEPING, pid := 2, pass := 0)];
    assert Spread(t);
    assert Healthy(t);
    assert Runnable(t, 0) && t[0].pass - t[1].pass > SPREAD;
    KillSpread(t, 1);
  }

  // A new process took its pass in allocproc and keeps it until fork makes it runnable, in a table t that has moved on.
  lemma ForkSpread(t: Table, i: int)
    requires Spread(t) && 0 <= i < |t| && t[i].state == EMBRYO
    ensures Spread(t[i := t[i].(state := RUNNABLE)]) <==>
      forall k :: Runnable(t, k) ==> -SPREAD <= t[k].pass - t[i].pass <= SPREAD
  {
    JoinSpread(t, i, t[i].(state := RUNNABLE));
  }

  // When nothing has moved since allocproc, the condition is that of a wakeup.
  lemma NewbornSpread(t: Table, i: int, pid: int, stack: int)
    requires Spread(t) && 0 <= i < |t| && t[i].state == UNUSED
    requires (forall j :: OtherUsed(t, i, j) ==> t[j].pid != pid) && exists j :: OtherUsed(t, i, j)
    ensures var n := Newborn(t, i, pid, stack);
      Spread(n[i := n[i].(state := RUNNABLE)]) <==>
      forall j, k :: OtherUsed(t, i, j) && Runnable(t, k) ==> t[k].pass - t[j].pass <= SPREAD
  {
    var e, n := t[i := Embryo(t[i], pid, stack)], Newborn(t, i, pid, stack);
    var j :| OtherUsed(t, i, j);
    assert OtherUsed(e, i, j);
    assert forall j :: OtherUsed(e, i, j) <==> OtherUsed(t, i, j);
    NewPassLeast(e, i);
    var v := NewPass(e, i);
    assert n[i := n[i].(state := RUNNABLE)] == t[i := n[i].(state := RUNNABLE)];
    JoinSpread(t, i, n[i].(state := RUNNABLE));
    forall k | Runnable(t, k)
      ensures v <= t[k].pass
    {
      assert OtherUsed(e, i, k);
    }
    var m :| OtherUsed(e, i, m) && e[m].pass == v;
    assert OtherUsed(t, i, m) && t[m].pass == v;
  }
}
