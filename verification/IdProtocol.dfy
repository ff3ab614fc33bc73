/** Servers and threads allocating ids from one sequence row, step by step
    (be/schema/db/idalloc.go). A step is what happens under one hold of the allocator's lock, or one
    request to the database; steps of different threads interleave freely. */
module IdProtocol {
  import opened Prelude
  import opened IdAlloc

  datatype Thread = Thread(server: nat, number: nat)

  /** Where a thread stands, in `preallocateIds` or in a job that may call `allocIdJob`. */
  datatype Phase =
    | Idle
    | FoundLow                          // the first check failed; the lock is released again
    | Filling(grab: nat)                // holds the lock, past the second check
    | Reserved(grab: nat, base: int)    // holds the lock; its transaction has updated the row
    | Filled(grab: nat, base: int)      // holds the lock; the commit was acknowledged
    | Job(reserved: seq<int>)           // a job's transaction, with the ids it reserved itself
    | Asking(reserved: seq<int>)        // the same, about to take the lock for another id
    | Falling(reserved: seq<int>)       // the same, having seen an empty cache; the lock is released again

  predicate InJob(p: Phase) { p.Job? || p.Asking? || p.Falling? }

  /** The row lock of the sequence, with the uncommitted value. */
  datatype RowLock = RowLock(holder: Thread, pending: int64)

  datatype State = State(
    sequence: int64,                    // the committed value of the row
    row: Option<RowLock>,
    caches: map<nat, seq<int>>,         // per server, the queue of IdAlloc.Contents
    locked: set<nat>,                   // the servers whose lock is held across steps
    phases: map<Thread, Phase>,
    given: seq<int>)                    // the ids that callers may keep, in order

  predicate Init(s: State) {
    && s.sequence == 1 && s.row == None && s.locked == {} && s.given == []
    && (forall v :: v in s.caches ==> s.caches[v] == [])
    && (forall t :: t in s.phases ==> s.phases[t] == Idle && t.server in s.caches)
  }

  datatype Step =
    | CheckLow(low: int)
    | Enter(low: int, high: int)
    | ReserveRange
    | ReserveFails
    | CommitRange(outcome: CommitOutcome)
    | CacheRange
    | BeginJob
    | Ask
    | TakeCached
    | FindEmpty
    | TakeFallback
    | FallbackFails
    | EndJob(outcome: CommitOutcome)    // Dropped stands for a rollback as well

  /** The value of the row that the transaction of t sees, if it can get the row lock. */
  predicate CanLockRow(s: State, t: Thread) {
    s.row == None || s.row.value.holder == t
  }

  function RowValue(s: State): int64 {
    if s.row == None then s.sequence else s.row.value.pending
  }

  /** The sequence after the transaction that holds the row ends. */
  function AfterEnd(s: State, outcome: CommitOutcome): int64 {
    if outcome == Dropped then s.sequence else RowValue(s)
  }

  /** Thread t can take the step. The watermarks are read at each check and may have been changed. */
  predicate Enabled(s: State, t: Thread, step: Step) {
    && t in s.phases && t.server in s.caches
    && var p, v := s.phases[t], t.server;
       match step
       case CheckLow(low) => p == Idle && v !in s.locked
       case Enter(low, high) => p == FoundLow && v !in s.locked && low <= high
       case ReserveRange => p.Filling? && CanLockRow(s, t)
       case ReserveFails => p.Filling?
       case CommitRange(_) => p.Reserved?
       case CacheRange => p.Filled?
       case BeginJob => p == Idle
       case Ask => p.Job?
       case TakeCached => p.Asking? && v !in s.locked && s.caches[v] != []
       case FindEmpty => p.Asking? && v !in s.locked && s.caches[v] == []
       case TakeFallback => p.Falling? && CanLockRow(s, t)
       case FallbackFails => p.Falling?
       case EndJob(_) => p.Job?
  }

  function Take(s: State, t: Thread, step: Step): State
    requires Enabled(s, t, step)
  {
    var p, v := s.phases[t], t.server;
    match step
    case CheckLow(low) => s.(phases := s.phases[t := if |s.caches[v]| >= low then Idle else FoundLow])
    case Enter(low, high) =>
      if |s.caches[v]| >= low then s.(phases := s.phases[t := Idle])
      else s.(phases := s.phases[t := Filling(high - |s.caches[v]|)], locked := s.locked + {v})
    case ReserveRange =>
      (match Reserve([RowValue(s)], p.grab)
       case Err(_) => s.(phases := s.phases[t := Idle], locked := s.locked - {v})
       case Ok((base, rows)) =>
         s.(phases := s.phases[t := Reserved(p.grab, base)], row := Some(RowLock(t, rows[0]))))
    case ReserveFails => s.(phases := s.phases[t := Idle], locked := s.locked - {v})
    case CommitRange(outcome) =>
      var u := s.(sequence := AfterEnd(s, outcome), row := None);
      if outcome == Acknowledged then u.(phases := s.phases[t := Filled(p.grab, p.base)])
      else u.(phases := s.phases[t := Idle], locked := s.locked - {v})
    case CacheRange =>
      s.(phases := s.phases[t := Idle], locked := s.locked - {v},
         caches := s.caches[v := s.caches[v] + Run(p.base, p.grab)])
    case BeginJob => s.(phases := s.phases[t := Job([])])
    case Ask => s.(phases := s.phases[t := Asking(p.reserved)])
    case TakeCached =>
      s.(phases := s.phases[t := Job(p.reserved)], caches := s.caches[v := s.caches[v][1..]],
         given := s.given + [s.caches[v][0]])
    case FindEmpty => s.(phases := s.phases[t := Falling(p.reserved)])
    case FallbackFails => s.(phases := s.phases[t := Job(p.reserved)])
    case TakeFallback =>
      (match Reserve([RowValue(s)], 1)
       case Err(_) => s.(phases := s.phases[t := Job(p.reserved)])
       case Ok((id, rows)) =>
         s.(phases := s.phases[t := Job(p.reserved + [id])], row := Some(RowLock(t, rows[0]))))
    case EndJob(outcome) =>
      if p.reserved == [] then s.(phases := s.phases[t := Idle])
      else s.(phases := s.phases[t := Idle], row := None, sequence := AfterEnd(s, outcome),
              given := if outcome == Dropped then s.given else s.given + p.reserved)
  }

  /** A run: each state comes from the one before by a step of some thread. */
  ghost predicate Behaviour(run: seq<State>) {
    && |run| > 0 && Init(run[0])
    && forall i :: 0 <= i < |run| - 1 ==> Next(run[i], run[i + 1])
  }

  ghost predicate Next(s: State, s': State) {
    exists t, step :: Enabled(s, t, step) && s' == Take(s, t, step)
  }

  // The invariant

  predicate Distinct(ids: seq<int>) {
    forall i, j :: 0 <= i < j < |ids| ==> ids[i] != ids[j]
  }

  predicate UsesRow(p: Phase) { p.Reserved? || (InJob(p) && p.reserved != []) }

  /** A transaction that has updated the row has counted up from the committed value, and holds the row. */
  ghost predicate RowFits(p: Phase, t: Thread, sequence: int64, row: Option<RowLock>) {
    && (p.Reserved? ==>
          && p.grab >= 1 && p.base == sequence && p.base + p.grab <= MAX_INT64
          && row == Some(RowLock(t, p.base + p.grab)))
    && (InJob(p) && p.reserved != [] ==>
          && sequence + |p.reserved| <= MAX_INT64 && p.reserved == Run(sequence, |p.reserved|)
          && row == Some(RowLock(t, sequence + |p.reserved|)))
  }

  /** The transaction that holds the row lock has counted up from the committed value; no other has. */
  ghost predicate RowInv(s: State) {
    && s.sequence >= 1 && RowValue(s) >= s.sequence
    && (forall t :: t in s.phases ==> RowFits(s.phases[t], t, s.sequence, s.row))
    && (s.row.Some? ==>
          var t := s.row.value.holder;
          t in s.phases && UsesRow(s.phases[t]))
  }

  predicate Holding(p: Phase) { p.Filling? || p.Reserved? || p.Filled? }

  /** A server's lock is held across steps by exactly one thread. */
  ghost predicate LockInv(s: State) {
    && (forall t :: t in s.phases && Holding(s.phases[t]) ==> t.server in s.locked)
    && (forall t, u ::
          t in s.phases && u in s.phases && t.server == u.server && Holding(s.phases[t]) && Holding(s.phases[u])
          ==> t == u)
    && (forall v :: v in s.locked ==> exists t :: t in s.phases && t.server == v && Holding(s.phases[t]))
  }

  datatype Place = InCache(server: nat) | InFlight(thread: Thread) | Out

  ghost predicate CachesPlaced(caches: map<nat, seq<int>>, place: map<int, Place>) {
    && (forall v, k :: v in caches && 0 <= k < |caches[v]| ==>
          caches[v][k] in place && place[caches[v][k]] == InCache(v))
    && (forall v :: v in caches ==> Distinct(caches[v]))
  }

  ghost predicate FlightPlaced(phases: map<Thread, Phase>, place: map<int, Place>) {
    forall t, id :: t in phases && phases[t].Filled? && id in Run(phases[t].base, phases[t].grab) ==>
      id in place && place[id] == InFlight(t)
  }

  ghost predicate GivenPlaced(given: seq<int>, place: map<int, Place>) {
    && (forall k :: 0 <= k < |given| ==> given[k] in place && place[given[k]] == Out)
    && Distinct(given)
  }

  ghost predicate Below(place: map<int, Place>, sequence: int) {
    forall id :: id in place ==> 1 <= id < sequence
  }

  /** Every id below the committed sequence has at most one place: a cache, a fill under way, or a caller. */
  ghost predicate Placed(s: State, place: map<int, Place>) {
    && CachesPlaced(s.caches, place) && FlightPlaced(s.phases, place)
    && GivenPlaced(s.given, place) && Below(place, s.sequence)
  }

  ghost predicate Inv(s: State, place: map<int, Place>) {
    RowInv(s) && LockInv(s) && Placed(s, place)
  }

  /** The places after a step: only ids that move or become committed change theirs. */
  function MovePlaces(s: State, t: Thread, step: Step, place: map<int, Place>): map<int, Place>
    requires Enabled(s, t, step)
  {
    var p, v := s.phases[t], t.server;
    match step
    case CommitRange(Acknowledged) => place + map id | id in Run(p.base, p.grab) :: InFlight(t)
    case CacheRange => place + map id | id in Run(p.base, p.grab) :: InCache(v)
    case TakeCached => place[s.caches[v][0] := Out]
    case EndJob(outcome) => if outcome == Dropped then place else place + map id | id in p.reserved :: Out
    case _ => place
  }

  /** A thread that does not use the row before or after does not disturb it. */
  lemma RowUntouched(s: State, t: Thread, p: Phase, s': State)
    requires RowInv(s) && t in s.phases && !UsesRow(s.phases[t]) && !UsesRow(p)
    requires s'.phases == s.phases[t := p] && s'.row == s.row && s'.sequence == s.sequence
    ensures RowInv(s')
  {
  }

  /** When the thread that uses the row ends its transaction, no thread uses it. */
  lemma RowReleased(s: State, t: Thread, p: Phase, s': State)
    requires RowInv(s) && t in s.phases && UsesRow(s.phases[t]) && !UsesRow(p)
    requires s'.phases == s.phases[t := p] && s'.row == None && s'.sequence >= s.sequence
    ensures RowInv(s')
  {
  }

  lemma FallbackKeepsRow(s: State, t: Thread)
    requires RowInv(s) && Enabled(s, t, TakeFallback)
    ensures RowInv(Take(s, t, TakeFallback))
  {
    var ids := s.phases[t].reserved;
    assert RowValue(s) == s.sequence + |ids|;
    assert ids + [RowValue(s)] == Run(s.sequence, |ids| + 1);
    if Reserve([RowValue(s)], 1).Err? {
      RowStays(s, t, Job(ids), Take(s, t, TakeFallback));
    }
  }

  lemma ReserveKeepsRow(s: State, t: Thread)
    requires RowInv(s) && Enabled(s, t, ReserveRange)
    ensures RowInv(Take(s, t, ReserveRange))
  {
    assert s.row == None && RowValue(s) == s.sequence;
  }

  /** A job that goes on with the ids it has reserved. */
  lemma RowStays(s: State, t: Thread, p: Phase, s': State)
    requires RowInv(s) && t in s.phases && InJob(s.phases[t]) && InJob(p) && p.reserved == s.phases[t].reserved
    requires s'.phases == s.phases[t := p] && s'.row == s.row && s'.sequence == s.sequence
    ensures RowInv(s')
  {
    assert RowFits(p, t, s.sequence, s.row);
    hide RowFits;
  }

  lemma StepKeepsRow(s: State, t: Thread, step: Step)
    requires RowInv(s) && Enabled(s, t, step)
    ensures RowInv(Take(s, t, step))
  {
    var s' := Take(s, t, step);
    hide RowInv;
    match step
    case TakeFallback => FallbackKeepsRow(s, t);
    case ReserveRange => ReserveKeepsRow(s, t);
    case CommitRange(_) => RowReleased(s, t, s'.phases[t], s');
    case EndJob(_) =>
      if s.phases[t].reserved == [] { RowUntouched(s, t, Idle, s'); } else { RowReleased(s, t, Idle, s'); }
    case Ask => RowStays(s, t, s'.phases[t], s');
    case TakeCached => RowStays(s, t, s'.phases[t], s');
    case FindEmpty => RowStays(s, t, s'.phases[t], s');
    case FallbackFails => RowStays(s, t, s'.phases[t], s');
    case _ => RowUntouched(s, t, s'.phases[t], s');
  }

  /** A thread that enters takes a free lock; one that holds it keeps it or lets it go. */
  lemma StepKeepsLocks(s: State, t: Thread, step: Step)
    requires LockInv(s) && Enabled(s, t, step)
    ensures LockInv(Take(s, t, step))
  {
    var s' := Take(s, t, step);
    assert s'.phases == s.phases[t := s'.phases[t]];
    hide LockInv;
    LockStep(s, t, s'.phases[t], s');
  }

  lemma LockStep(s: State, t: Thread, p: Phase, s': State)
    requires LockInv(s) && t in s.phases && s'.phases == s.phases[t := p]
    requires if !Holding(p) then s'.locked == s.locked - (if Holding(s.phases[t]) then {t.server} else {})
             else s'.locked == s.locked + {t.server} && (Holding(s.phases[t]) || t.server !in s.locked)
    ensures LockInv(s')
  {
    hide Holding;
    forall v | v in s'.locked ensures exists u :: u in s'.phases && u.server == v && Holding(s'.phases[u]) {
      if v in s.locked {
        var u :| u in s.phases && u.server == v && Holding(s.phases[u]);
        assert Holding(s'.phases[u]);
      } else {
        assert Holding(s'.phases[t]);
      }
    }
  }

  lemma StepKeepsPlaces(s: State, t: Thread, step: Step, place: map<int, Place>)
    requires Inv(s, place) && Enabled(s, t, step)
    ensures Placed(Take(s, t, step), MovePlaces(s, t, step, place))
  {
    match step
    case CommitRange(outcome) => CommitRangePlaces(s, t, outcome, place);
    case CacheRange => CacheRangePlaces(s, t, place);
    case TakeCached => TakeCachedPlaces(s, t, place);
    case EndJob(outcome) => EndJobPlaces(s, t, outcome, place);
    case _ => OtherPlaces(s, t, step, place);
  }

  lemma OtherPlaces(s: State, t: Thread, step: Step, place: map<int, Place>)
    requires Inv(s, place) && Enabled(s, t, step)
    requires !step.CommitRange? && !step.CacheRange? && !step.TakeCached? && !step.EndJob?
    ensures Placed(Take(s, t, step), MovePlaces(s, t, step, place))
  {
    OtherTake(s, t, step);
    var s' := Take(s, t, step);
    hide Take, RowInv, LockInv, CachesPlaced, GivenPlaced, Below;
    FlightKept(s, t, s'.phases[t], place, place);
  }

  lemma OtherTake(s: State, t: Thread, step: Step)
    requires Enabled(s, t, step)
    requires !step.CommitRange? && !step.CacheRange? && !step.TakeCached? && !step.EndJob?
    ensures var s' := Take(s, t, step);
            && s'.caches == s.caches && s'.given == s.given && s'.sequence == s.sequence
            && t in s'.phases && s'.phases == s.phases[t := s'.phases[t]] && !s'.phases[t].Filled?
  {
  }

  /** Only ids in flight with t may move. */
  ghost predicate KeptBut(place: map<int, Place>, moved: map<int, Place>, t: Thread) {
    forall id :: id in place && place[id] != InFlight(t) ==> id in moved && moved[id] == place[id]
  }

  lemma CachesKept(caches: map<nat, seq<int>>, place: map<int, Place>, moved: map<int, Place>, t: Thread)
    requires CachesPlaced(caches, place) && KeptBut(place, moved, t)
    ensures CachesPlaced(caches, moved)
  {
    forall v, k | v in caches && 0 <= k < |caches[v]|
      ensures caches[v][k] in moved && moved[caches[v][k]] == InCache(v)
    {
      var id := caches[v][k];
      assert id in place && place[id] == InCache(v);
    }
  }

  lemma FlightKept(s: State, t: Thread, p: Phase, place: map<int, Place>, moved: map<int, Place>)
    requires FlightPlaced(s.phases, place) && KeptBut(place, moved, t)
    requires p.Filled? ==> forall id :: id in Run(p.base, p.grab) ==> id in moved && moved[id] == InFlight(t)
    ensures FlightPlaced(s.phases[t := p], moved)
  {
    hide Run;
  }

  /** Ids that become a caller's have no place before. */
  lemma GivenMore(given: seq<int>, ids: seq<int>, place: map<int, Place>, moved: map<int, Place>, t: Thread)
    requires GivenPlaced(given, place) && KeptBut(place, moved, t) && Distinct(ids)
    requires forall id :: id in ids ==> id !in place && id in moved && moved[id] == Out
    ensures GivenPlaced(given + ids, moved)
  {
    var all := given + ids;
    forall k | 0 <= k < |all| ensures all[k] in moved && moved[all[k]] == Out {
      if k < |given| {
        assert all[k] == given[k] && place[given[k]] != InFlight(t);
      } else {
        assert all[k] == ids[k - |given|] && all[k] in ids;
      }
    }
    forall i, j | 0 <= i < j < |all| ensures all[i] != all[j] {
      if j >= |given| { assert all[j] == ids[j - |given|] && all[j] in ids; }
    }
  }

  lemma CommitRangePlaces(s: State, t: Thread, outcome: CommitOutcome, place: map<int, Place>)
    requires Inv(s, place) && Enabled(s, t, CommitRange(outcome))
    ensures Placed(Take(s, t, CommitRange(outcome)), MovePlaces(s, t, CommitRange(outcome), place))
  {
    var p := s.phases[t];
    var moved, s' := MovePlaces(s, t, CommitRange(outcome), place), Take(s, t, CommitRange(outcome));
    assert p.base == s.sequence && RowValue(s) == p.base + p.grab;
    hide RowInv, LockInv, CachesPlaced, GivenPlaced, FlightPlaced, Distinct;
    assert KeptBut(place, moved, t);
    CachesKept(s.caches, place, moved, t);
    FlightKept(s, t, s'.phases[t], place, moved);
    NoneTwice();
    GivenMore(s.given, [], place, moved, t);
    assert s.given + [] == s.given;
  }

  lemma NoneTwice()
    ensures Distinct([])
  {
  }

  lemma CacheRangePlaces(s: State, t: Thread, place: map<int, Place>)
    requires Inv(s, place) && Enabled(s, t, CacheRange)
    ensures Placed(Take(s, t, CacheRange), MovePlaces(s, t, CacheRange, place))
  {
    var p := s.phases[t];
    var ids, moved := Run(p.base, p.grab), MovePlaces(s, t, CacheRange, place);
    CacheRangeTake(s, t, place);
    FlightOf(s, t, place);
    hide Take, MovePlaces, RowInv, LockInv, CachesPlaced, GivenPlaced, FlightPlaced, Distinct, Run;
    assert KeptBut(place, moved, t);
    GrownCache(s.caches, t, ids, place, moved);
    FlightKept(s, t, Idle, place, moved);
    NoneTwice();
    GivenMore(s.given, [], place, moved, t);
    assert s.given + [] == s.given;
  }

  lemma CacheRangeTake(s: State, t: Thread, place: map<int, Place>)
    requires Enabled(s, t, CacheRange)
    ensures var p, s', v := s.phases[t], Take(s, t, CacheRange), t.server;
            && s'.caches == s.caches[v := s.caches[v] + Run(p.base, p.grab)] && s'.phases == s.phases[t := Idle]
            && s'.given == s.given && s'.sequence == s.sequence
            && MovePlaces(s, t, CacheRange, place) == place + map id | id in Run(p.base, p.grab) :: InCache(v)
  {
  }

  lemma FlightOf(s: State, t: Thread, place: map<int, Place>)
    requires FlightPlaced(s.phases, place) && t in s.phases && s.phases[t].Filled?
    ensures var ids := Run(s.phases[t].base, s.phases[t].grab);
            Distinct(ids) && forall id :: id in ids ==> id in place && place[id] == InFlight(t)
  {
  }

  lemma GrownCache(caches: map<nat, seq<int>>, t: Thread, ids: seq<int>, place: map<int, Place>, moved: map<int, Place>)
    requires CachesPlaced(caches, place) && t.server in caches && Distinct(ids)
    requires forall id :: id in ids ==> id in place && place[id] == InFlight(t)
    requires forall id :: id in ids ==> id in moved && moved[id] == InCache(t.server)
    requires forall id :: id in place && place[id] != InFlight(t) ==> id in moved && moved[id] == place[id]
    ensures CachesPlaced(caches[t.server := caches[t.server] + ids], moved)
  {
    var q := caches[t.server];
    var grown := caches[t.server := q + ids];
    forall v, k | v in grown && 0 <= k < |grown[v]|
      ensures grown[v][k] in moved && moved[grown[v][k]] == InCache(v)
    {
      if v != t.server || k < |q| {
        assert grown[v][k] == caches[v][k];
      } else {
        assert grown[v][k] == ids[k - |q|] && ids[k - |q|] in ids;
      }
    }
    forall i, j | 0 <= i < j < |q + ids| ensures (q + ids)[i] != (q + ids)[j] {
      if i < |q| <= j {
        assert place[q[i]] == InCache(t.server) && ids[j - |q|] in ids;
      }
    }
    assert Distinct(q + ids);
  }

  lemma TakeCachedPlaces(s: State, t: Thread, place: map<int, Place>)
    requires Inv(s, place) && Enabled(s, t, TakeCached)
    ensures Placed(Take(s, t, TakeCached), MovePlaces(s, t, TakeCached, place))
  {
    var q := s.caches[t.server];
    assert forall k :: 0 <= k < |q[1..]| ==> q[1..][k] == q[k + 1];
  }

  /** The ids that a job's commit makes the callers'. */
  function Earned(s: State, t: Thread, outcome: CommitOutcome): seq<int>
    requires Enabled(s, t, EndJob(outcome))
  {
    if outcome == Dropped then [] else s.phases[t].reserved
  }

  lemma EndJobTake(s: State, t: Thread, outcome: CommitOutcome, place: map<int, Place>)
    requires Enabled(s, t, EndJob(outcome))
    ensures var s', moved := Take(s, t, EndJob(outcome)), MovePlaces(s, t, EndJob(outcome), place);
            && s'.caches == s.caches && s'.phases == s.phases[t := Idle]
            && s'.given == s.given + Earned(s, t, outcome)
            && s'.sequence == (if s.phases[t].reserved == [] then s.sequence else AfterEnd(s, outcome))
            && moved == place + map id | id in Earned(s, t, outcome) :: Out
  {
    assert s.given + [] == s.given;
    var none: seq<int> := [];
    assert place + (map id | id in none :: Out) == place;
  }

  /** They are new, and below the sequence from now on. */
  lemma EarnedNew(s: State, t: Thread, outcome: CommitOutcome, place: map<int, Place>)
    requires RowInv(s) && Below(place, s.sequence) && Enabled(s, t, EndJob(outcome))
    ensures var ids := Earned(s, t, outcome);
            var next := if s.phases[t].reserved == [] then s.sequence else AfterEnd(s, outcome);
            && Distinct(ids) && (forall id :: id in ids ==> id !in place && 1 <= id < next) && s.sequence <= next
  {
    var ids := s.phases[t].reserved;
    assert ids != [] ==> ids == Run(s.sequence, |ids|) && RowValue(s) == s.sequence + |ids|;
  }

  lemma EndJobPlaces(s: State, t: Thread, outcome: CommitOutcome, place: map<int, Place>)
    requires Inv(s, place) && Enabled(s, t, EndJob(outcome))
    ensures Placed(Take(s, t, EndJob(outcome)), MovePlaces(s, t, EndJob(outcome), place))
  {
    EndJobTake(s, t, outcome, place);
    EarnedNew(s, t, outcome, place);
    var ids, moved := Earned(s, t, outcome), MovePlaces(s, t, EndJob(outcome), place);
    hide Take, MovePlaces, RowInv, LockInv, CachesPlaced, GivenPlaced, FlightPlaced, Distinct, Earned, AfterEnd;
    assert KeptBut(place, moved, t);
    CachesKept(s.caches, place, moved, t);
    FlightKept(s, t, Idle, place, moved);
    GivenMore(s.given, ids, place, moved, t);
  }

  lemma {:induction false} RunKeepsInv(run: seq<State>) returns (place: map<int, Place>)
    requires Behaviour(run)
    ensures Inv(run[|run| - 1], place)
  {
    var n := |run| - 1;
    if n == 0 {
      place := map[];
    } else {
      var before := RunKeepsInv(run[..n]);
      assert Next(run[n - 1], run[n]);
      var t, step :| Enabled(run[n - 1], t, step) && run[n] == Take(run[n - 1], t, step);
      place := MovePlaces(run[n - 1], t, step, before);
      StepKeepsRow(run[n - 1], t, step);
      StepKeepsLocks(run[n - 1], t, step);
      StepKeepsPlaces(run[n - 1], t, step, before);
    }
  }

  // The main results

  /** No id is given out twice, whatever the interleaving and whichever commits fail. */
  lemma NoIdTwice(run: seq<State>, i: nat, j: nat)
    requires Behaviour(run) && i < j < |run[|run| - 1].given|
    ensures run[|run| - 1].given[i] != run[|run| - 1].given[j]
  {
    var place := RunKeepsInv(run);
  }

  /** Cached ids are below the committed sequence, cached once, by one server, and not given out. */
  lemma CachesApart(run: seq<State>, v: nat, k: nat, w: nat, l: nat)
    requires Behaviour(run)
    requires v in run[|run| - 1].caches && k < |run[|run| - 1].caches[v]|
    requires w in run[|run| - 1].caches && l < |run[|run| - 1].caches[w]|
    ensures var s := run[|run| - 1];
            && s.caches[v][k] < s.sequence && s.caches[v][k] !in s.given
            && (s.caches[v][k] == s.caches[w][l] ==> v == w && k == l)
  {
    var place := RunKeepsInv(run);
  }

  /** Ids are positive, and the largest 64-bit number is never one. */
  lemma GivenInRange(run: seq<State>, id: int)
    requires Behaviour(run) && id in run[|run| - 1].given
    ensures 1 <= id < MAX_INT64
  {
    var place := RunKeepsInv(run);
  }

  /** An id once given out stays given out, at its position. */
  lemma {:induction false} GivenGrows(run: seq<State>, i: nat)
    requires Behaviour(run) && i < |run|
    ensures run[i].given <= run[|run| - 1].given
  {
    var n := |run| - 1;
    if i < n {
      GivenGrows(run[..n], i);
      assert Next(run[n - 1], run[n]);
    }
  }

  /** Undisturbed, the steps of a refill do to the cache and the sequence what `IdAlloc.Refill` does, and leave
      everything else alone. */
  lemma RefillSteps(s: State, t: Thread, low: int, high: int)
    requires t in s.phases && t.server in s.caches && s.phases[t] == FoundLow && t.server !in s.locked && s.row == None
    requires |s.caches[t.server]| < low <= high
    requires s.sequence >= 0 && high - |s.caches[t.server]| <= MAX_INT64 - s.sequence
    ensures var grab := high - |s.caches[t.server]|;
            && Enabled(s, t, Enter(low, high))
            && var s1 := Take(s, t, Enter(low, high));
            && Enabled(s1, t, ReserveRange)
            && var s2 := Take(s1, t, ReserveRange);
            && Enabled(s2, t, CommitRange(Acknowledged))
            && var s3 := Take(s2, t, CommitRange(Acknowledged));
            && Enabled(s3, t, CacheRange)
            && Take(s3, t, CacheRange)
            == s.(sequence := s.sequence + grab, phases := s.phases[t := Idle],
                  caches := s.caches[t.server := s.caches[t.server] + Run(s.sequence, grab)])
  {
    var s1 := Take(s, t, Enter(low, high));
    var s2 := Take(s1, t, ReserveRange);
    var s3 := Take(s2, t, CommitRange(Acknowledged));
    var s4 := Take(s3, t, CacheRange);
    assert s4.phases == s.phases[t := Idle] && s4.locked == s.locked;
  }
}
