/** Threads that wait for one another while they allocate ids (be/schema/db/idalloc.go): a refill waits for the row
    of the sequence while it holds its server's lock, and a job that holds the row may want that lock. */
module IdDeadlock {
  import opened IdAlloc
  import opened IdProtocol
  import opened Prelude

  // Who waits for whom

  /** The thread is about to lock its server's allocator, which is locked. */
  predicate WaitsForLock(s: State, t: Thread) {
    t in s.phases && (s.phases[t].FoundLow? || s.phases[t].Asking?) && t.server in s.locked
  }

  /** The thread is about to read the row of the sequence, which another transaction holds. */
  predicate WaitsForRow(s: State, t: Thread) {
    t in s.phases && (s.phases[t].Filling? || s.phases[t].Falling?) && !CanLockRow(s, t)
  }

  predicate Waits(s: State, t: Thread) { WaitsForLock(s, t) || WaitsForRow(s, t) }

  predicate WaitsFor(s: State, t: Thread, u: Thread) {
    || (WaitsForLock(s, t) && u in s.phases && u.server == t.server && Holding(s.phases[u]))
    || (WaitsForRow(s, t) && u == s.row.value.holder)
  }

  /** Each waits for the next, and the last one for the first. */
  ghost predicate Cycle(s: State, c: seq<Thread>) {
    && c != []
    && (forall i :: 0 <= i < |c| - 1 ==> WaitsFor(s, c[i], c[i + 1]))
    && WaitsFor(s, c[|c| - 1], c[0])
  }

  /** A job that holds the row asks for another id while its own server refills. */
  predicate Embrace(s: State, t: Thread, u: Thread) {
    && t in s.phases && u in s.phases && t.server == u.server
    && s.phases[t].Asking? && s.phases[t].reserved != [] && s.phases[u].Filling?
  }

  ghost predicate Stuck(s: State, t: Thread) {
    exists u :: Embrace(s, t, u)
  }

  ghost predicate Deadlocked(s: State) {
    exists t :: Stuck(s, t)
  }

  // A thread that does not wait can go on

  /** A step that is not a failure of the database. */
  predicate Proceeds(step: Step) { !step.ReserveFails? && !step.FallbackFails? }

  lemma CanProceed(s: State, t: Thread) returns (step: Step)
    requires t in s.phases && t.server in s.caches && !Waits(s, t)
    ensures Enabled(s, t, step) && Proceeds(step)
  {
    step := match s.phases[t]
            case Idle => BeginJob
            case FoundLow => Enter(0, 0)
            case Filling(_) => ReserveRange
            case Reserved(_, _) => CommitRange(Acknowledged)
            case Filled(_, _) => CacheRange
            case Job(_) => Ask
            case Asking(_) => if s.caches[t.server] == [] then FindEmpty else TakeCached
            case Falling(_) => TakeFallback;
  }

  /** A thread that waits cannot, except by failing. */
  lemma CannotProceed(s: State, t: Thread, step: Step)
    requires Waits(s, t) && Enabled(s, t, step)
    ensures !Proceeds(step)
  {
  }

  // Only that one pair can be stuck

  /** Whoever waits for the lock waits for the one thread that holds it. */
  lemma LockHolder(s: State, t: Thread) returns (u: Thread)
    requires LockInv(s) && WaitsForLock(s, t)
    ensures u in s.phases && u.server == t.server && Holding(s.phases[u]) && WaitsFor(s, t, u)
  {
    u :| u in s.phases && u.server == t.server && Holding(s.phases[u]);
  }

  lemma RowHolder(s: State, t: Thread)
    requires RowInv(s) && WaitsForRow(s, t)
    ensures s.row.value.holder in s.phases && UsesRow(s.phases[s.row.value.holder])
    ensures WaitsFor(s, t, s.row.value.holder)
  {
  }

  /** The thread that holds the row waits only for the lock of its server, when it asks for another id. */
  lemma HolderAsks(s: State, h: Thread)
    requires RowInv(s) && s.row.Some? && h == s.row.value.holder && Waits(s, h)
    ensures WaitsForLock(s, h) && s.phases[h].Asking? && s.phases[h].reserved != []
  {
  }

  /** And a thread that holds a lock waits only for the row, in a refill. */
  lemma FillerWaits(s: State, u: Thread)
    requires u in s.phases && Holding(s.phases[u]) && Waits(s, u)
    ensures WaitsForRow(s, u) && s.phases[u].Filling?
  {
  }

  /** From the first thread on, each waits for the next. */
  ghost predicate Path(s: State, p: seq<Thread>) {
    p != [] && forall i :: 0 <= i < |p| - 1 ==> WaitsFor(s, p[i], p[i + 1])
  }

  /** Following a thread to the one it waits for, and on from there, three times at most, leads to one that does not
      wait, or to such a pair. */
  lemma WaitingEnds(s: State, t: Thread) returns (p: seq<Thread>)
    requires RowInv(s) && LockInv(s)
    ensures Path(s, p) && p[0] == t && |p| <= 4
    ensures !Waits(s, p[|p| - 1]) || Stuck(s, p[|p| - 1])
  {
    hide RowInv, LockInv, WaitsFor, WaitsForRow, WaitsForLock;
    p := [t];
    if WaitsForLock(s, t) {
      var v := LockHolder(s, t);
      p := [t, v];
      if Waits(s, v) {
        FillerWaits(s, v);
        var more := RowEnds(s, v);
        p := p + more;
      }
    } else if WaitsForRow(s, t) {
      var more := RowEnds(s, t);
      p := p + more;
    }
  }

  /** From a thread that waits for the row. */
  lemma RowEnds(s: State, t: Thread) returns (p: seq<Thread>)
    requires RowInv(s) && LockInv(s) && WaitsForRow(s, t)
    ensures 0 < |p| <= 2 && Path(s, p) && WaitsFor(s, t, p[0])
    ensures !Waits(s, p[|p| - 1]) || Stuck(s, p[|p| - 1])
  {
    hide RowInv, LockInv, WaitsFor, WaitsForLock;
    RowHolder(s, t);
    var h := s.row.value.holder;
    p := [h];
    if Waits(s, h) {
      HolderAsks(s, h);
      var w := LockHolder(s, h);
      if Waits(s, w) {
        FillerWaits(s, w);
        assert Embrace(s, h, w);
      } else {
        p := [h, w];
      }
    }
  }

  /** Nobody waits for two. */
  lemma OneWaitedFor(s: State, t: Thread, u: Thread, v: Thread)
    requires LockInv(s) && WaitsFor(s, t, u) && WaitsFor(s, t, v)
    ensures u == v
  {
  }

  lemma {:induction false} PathInCycle(s: State, c: seq<Thread>, p: seq<Thread>, i: nat)
    requires LockInv(s) && Cycle(s, c) && Path(s, p) && p[0] in c && i < |p|
    ensures p[i] in c && Waits(s, p[i])
  {
    hide WaitsFor, LockInv;
    if i > 0 {
      PathInCycle(s, c, p, i - 1);
      var k :| 0 <= k < |c| && c[k] == p[i - 1];
      OneWaitedFor(s, p[i - 1], p[i], if k == |c| - 1 then c[0] else c[k + 1]);
    }
    InCycleWaits(s, c, p[i]);
  }

  lemma InCycleWaits(s: State, c: seq<Thread>, t: Thread)
    requires Cycle(s, c) && t in c
    ensures Waits(s, t)
  {
    var k :| 0 <= k < |c| && c[k] == t;
    assert WaitsFor(s, t, if k == |c| - 1 then c[0] else c[k + 1]);
  }

  /** Threads wait for one another in a circle if and only if a job that holds the row asks for another id while its
      own server refills. */
  lemma CycleIsEmbrace(run: seq<State>)
    requires Behaviour(run)
    ensures var s := run[|run| - 1];
            (exists c :: Cycle(s, c)) <==> Deadlocked(s)
  {
    var place := RunKeepsInv(run);
    var s := run[|run| - 1];
    hide *;
    InvParts(s, place);
    if c :| Cycle(s, c) {
      FirstOfCycle(s, c);
      var p := WaitingEnds(s, c[0]);
      LastOfPath(s, p);
      PathInCycle(s, c, p, |p| - 1);
      StuckSomewhere(s, p[|p| - 1]);
    }
    if Deadlocked(s) {
      var t, u := PairOf(s);
      EmbraceIsCycle(s, t, u);
    }
  }

  lemma PairOf(s: State) returns (t: Thread, u: Thread)
    requires Deadlocked(s)
    ensures Embrace(s, t, u)
  {
    t :| Stuck(s, t);
    u :| Embrace(s, t, u);
  }

  lemma StuckSomewhere(s: State, t: Thread)
    ensures Stuck(s, t) ==> Deadlocked(s)
  {
  }

  lemma InvParts(s: State, place: map<int, Place>)
    requires Inv(s, place)
    ensures RowInv(s) && LockInv(s)
  {
  }

  lemma FirstOfCycle(s: State, c: seq<Thread>)
    requires Cycle(s, c)
    ensures c != []
  {
  }

  lemma LastOfPath(s: State, p: seq<Thread>)
    requires Path(s, p)
    ensures p != []
  {
  }

  lemma EmbraceIsCycle(s: State, t: Thread, u: Thread)
    requires RowInv(s) && LockInv(s) && Embrace(s, t, u)
    ensures Cycle(s, [t, u])
  {
    var c := [t, u];
    assert WaitsFor(s, t, u) && WaitsFor(s, u, t);
  }

  lemma {:induction false} ServersKnown(run: seq<State>, t: Thread)
    requires Behaviour(run) && t in run[|run| - 1].phases
    ensures t.server in run[|run| - 1].caches
  {
    var n := |run| - 1;
    if n > 0 {
      Earlier(run);
      assert run[..n][n - 1] == run[n - 1] && Next(run[n - 1], run[n]);
      KeepsServers(run[n - 1], run[n]);
      ServersKnown(run[..n], t);
    }
  }

  lemma KeepsServers(s: State, s': State)
    requires Next(s, s')
    ensures s'.phases.Keys == s.phases.Keys && s'.caches.Keys == s.caches.Keys
  {
    hide Enabled, Take;
    var t, step :| Enabled(s, t, step) && s' == Take(s, t, step);
    EnabledThread(s, t, step);
    TouchesOne(s, t, step);
    TouchesCaches(s, t, step);
  }

  lemma EnabledThread(s: State, t: Thread, step: Step)
    requires Enabled(s, t, step)
    ensures t in s.phases
  {
  }

  lemma TouchesCaches(s: State, t: Thread, step: Step)
    requires Enabled(s, t, step)
    ensures Take(s, t, step).caches.Keys == s.caches.Keys
  {
  }

  /** Without such a pair nobody waits for ever: whoever waits is led to a thread that can go on without a failure. */
  lemma SomebodyProceeds(run: seq<State>, t: Thread) returns (p: seq<Thread>, step: Step)
    requires Behaviour(run) && t in run[|run| - 1].phases
    requires !Deadlocked(run[|run| - 1])
    ensures var s := run[|run| - 1];
            && Path(s, p) && p != [] && p[0] == t && |p| <= 4
            && Enabled(s, p[|p| - 1], step) && Proceeds(step)
  {
    var place := RunKeepsInv(run);
    var s := run[|run| - 1];
    hide *;
    InvParts(s, place);
    p := WaitingEnds(s, t);
    LastOfPath(s, p);
    StuckSomewhere(s, p[|p| - 1]);
    PathInPhases(s, p, |p| - 1);
    ServersKnown(run, p[|p| - 1]);
    step := CanProceed(s, p[|p| - 1]);
  }

  lemma PathInPhases(s: State, p: seq<Thread>, i: nat)
    requires RowInv(s) && Path(s, p) && i < |p| && p[0] in s.phases
    ensures p[i] in s.phases
  {
    if i > 0 { assert WaitsFor(s, p[i - 1], p[i - 1 + 1]); }
  }

  // Such a pair stays

  /** Whatever other threads do, both go on waiting, until the refill gives up with an error. */
  lemma EmbraceStays(s: State, t: Thread, u: Thread, w: Thread, step: Step)
    requires RowInv(s) && LockInv(s) && Embrace(s, t, u) && Enabled(s, w, step) && !(w == u && step.ReserveFails?)
    ensures w != t && w != u && Embrace(Take(s, w, step), t, u)
  {
    EmbraceIsCycle(s, t, u);
    assert WaitsFor(s, t, u) && WaitsFor(s, u, t) by {
      assert [t, u][0] == t && [t, u][1] == u;
    }
    if w == t || w == u { CannotProceed(s, w, step); }
    hide RowInv, LockInv, WaitsFor;
    TouchesOne(s, w, step);
  }

  lemma TouchesOne(s: State, w: Thread, step: Step)
    requires Enabled(s, w, step)
    ensures w in Take(s, w, step).phases && Take(s, w, step).phases == s.phases[w := Take(s, w, step).phases[w]]
  {
  }

  /** The refill of u does not fail in this step. */
  ghost predicate NextWithout(s: State, s': State, u: Thread) {
    exists w, step :: Enabled(s, w, step) && s' == Take(s, w, step) && !(w == u && step.ReserveFails?)
  }

  lemma {:induction false} EmbraceForever(run: seq<State>, i: nat, t: Thread, u: Thread)
    requires Behaviour(run) && i < |run| && Embrace(run[i], t, u)
    requires forall k :: i <= k < |run| - 1 ==> NextWithout(run[k], run[k + 1], u)
    ensures Embrace(run[|run| - 1], t, u)
  {
    hide *;
    var n := |run| - 1;
    if i < n {
      Earlier(run);
      var front := run[..n];
      assert front[i] == run[i] && front[n - 1] == run[n - 1];
      forall k | i <= k < n - 1 ensures NextWithout(front[k], front[k + 1], u) {
        assert front[k] == run[k] && front[k + 1] == run[k + 1];
      }
      EmbraceForever(front, i, t, u);
      var place := RunKeepsInv(front);
      OneMore(run[n - 1], run[n], place, t, u);
    }
  }

  lemma Earlier(run: seq<State>)
    requires Behaviour(run) && |run| > 1
    ensures Behaviour(run[..|run| - 1])
  {
    hide Next, Init;
  }

  lemma OneMore(s: State, s': State, place: map<int, Place>, t: Thread, u: Thread)
    requires Inv(s, place) && Embrace(s, t, u) && NextWithout(s, s', u)
    ensures Embrace(s', t, u)
  {
    hide Embrace, Inv, Take, Enabled;
    InvParts(s, place);
    var w, step :| Enabled(s, w, step) && s' == Take(s, w, step) && !(w == u && step.ReserveFails?);
    EmbraceStays(s, t, u, w, step);
  }

  // It can happen

  const JOB := Thread(0, 0)
  const REFILL := Thread(0, 1)

  function After(caches: map<nat, seq<int>>, row: Option<RowLock>, locked: set<nat>, job: Phase, refill: Phase): State {
    State(1, row, caches, locked, map[JOB := job, REFILL := refill], [])
  }

  /** One server with an empty cache: a job reserves an id itself and asks for another, after a refill has begun. */
  ghost function StuckRun(): seq<State> {
    var empty, held := map[0 := []], Some(RowLock(JOB, 2));
    [After(empty, None, {}, Idle, Idle),
     After(empty, None, {}, Phase.Job([]), Idle),
     After(empty, None, {}, Asking([]), Idle),
     After(empty, None, {}, Falling([]), Idle),
     After(empty, held, {}, Phase.Job([1]), Idle),
     After(empty, held, {}, Phase.Job([1]), FoundLow),
     After(empty, held, {0}, Phase.Job([1]), Filling(2)),
     After(empty, held, {0}, Asking([1]), Filling(2))]
  }

  lemma DeadlockReachable()
    ensures |StuckRun()| == 8 && Behaviour(StuckRun()) && Embrace(StuckRun()[7], JOB, REFILL)
  {
    StuckStart();
    StuckSteps();
    hide Init, Next, After;
    var run := StuckRun();
    assert forall i :: 0 <= i < 7 ==> Next(run[i], run[i + 1]);
  }

  lemma StuckStart()
    ensures Init(StuckRun()[0]) && Embrace(StuckRun()[7], JOB, REFILL)
  {
  }

  lemma StuckSteps()
    ensures var r := StuckRun();
            && Next(r[0], r[1]) && Next(r[1], r[2]) && Next(r[2], r[3]) && Next(r[3], r[4]) && Next(r[4], r[5])
            && Next(r[5], r[6]) && Next(r[6], r[7])
  {
    hide Next, Enabled, Take, After;
    var held := Some(RowLock(JOB, 2));
    JobStep(None, {}, Idle, Phase.Job([]), Idle, BeginJob);
    JobStep(None, {}, Phase.Job([]), Asking([]), Idle, Ask);
    JobStep(None, {}, Asking([]), Falling([]), Idle, FindEmpty);
    FallbackStep();
    RefillStep(held, {}, {}, Phase.Job([1]), Idle, FoundLow, CheckLow(1));
    RefillStep(held, {}, {0}, Phase.Job([1]), FoundLow, Filling(2), Enter(1, 2));
    JobStep(held, {0}, Phase.Job([1]), Asking([1]), Filling(2), Ask);
  }

  lemma Phases(job: Phase, refill: Phase, p: Phase)
    ensures map[JOB := job, REFILL := refill][JOB := p] == map[JOB := p, REFILL := refill]
    ensures map[JOB := job, REFILL := refill][REFILL := p] == map[JOB := job, REFILL := p]
  {
  }

  lemma JobStep(row: Option<RowLock>, locked: set<nat>, p: Phase, p': Phase, refill: Phase, step: Step)
    requires || (step == BeginJob && p == Idle && p' == Phase.Job([]))
             || (step == Ask && p.Job? && p' == Asking(p.reserved))
             || (step == FindEmpty && p.Asking? && locked == {} && p' == Falling(p.reserved))
    ensures Next(After(map[0 := []], row, locked, p, refill), After(map[0 := []], row, locked, p', refill))
  {
    Phases(p, refill, p');
    Taken(After(map[0 := []], row, locked, p, refill), After(map[0 := []], row, locked, p', refill), JOB, step);
  }

  lemma FallbackStep()
    ensures Next(After(map[0 := []], None, {}, Falling([]), Idle),
                 After(map[0 := []], Some(RowLock(JOB, 2)), {}, Phase.Job([1]), Idle))
  {
    Phases(Falling([]), Idle, Phase.Job([1]));
    assert Reserve([1], 1) == Ok((1, [2])) && [] + [1] == [1];
    Taken(After(map[0 := []], None, {}, Falling([]), Idle),
          After(map[0 := []], Some(RowLock(JOB, 2)), {}, Phase.Job([1]), Idle), JOB, TakeFallback);
  }

  lemma RefillStep(row: Option<RowLock>, locked: set<nat>, locked': set<nat>, job: Phase, p: Phase, p': Phase,
                   step: Step)
    requires (step == CheckLow(1) && p == Idle && p' == FoundLow && locked == {} == locked')
             || (step == Enter(1, 2) && p == FoundLow && p' == Filling(2) && locked == {} && locked' == {0})
    ensures Next(After(map[0 := []], row, locked, job, p), After(map[0 := []], row, locked', job, p'))
  {
    Phases(job, p, p');
    Taken(After(map[0 := []], row, locked, job, p), After(map[0 := []], row, locked', job, p'), REFILL, step);
  }

  lemma Taken(s: State, s': State, t: Thread, step: Step)
    requires Enabled(s, t, step) && s' == Take(s, t, step)
    ensures Next(s, s')
  {
  }
}
