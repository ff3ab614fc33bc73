/** The user events that comments, votes and uploads leave behind (be/tasks/add_pic_comment_task.go,
    be/tasks/add_pic_vote.go, be/tasks/upsert_pic_task.go): the author is told of what went out, others of what
    came in. */
module Notifications {
  import opened Indexes
  import opened Prelude

  const ANONYMOUS: int64 := 0

  datatype Note =
    | OutgoingVote(pic: int64)
    | IncomingVote(pic: int64, voter: int64)
    | OutgoingComment(pic: int64, comment: int64)
    | IncomingComment(pic: int64, comment: int64)
    | UpsertPic(pic: int64)

  /** What leaves events behind. */
  datatype Happening =
    | Voted(pic: int64, uploaders: seq<int64>)
    | Commented(pic: int64, comment: int64, parent: Option<int64>, uploaders: seq<int64>)
    | Upserted(pic: int64)
  {
    function Parent(): Option<int64> { if Commented? then parent else None }

    function Uploaders(): seq<int64> { if Upserted? then [] else uploaders }

    function Outgoing(): Note {
      match this
      case Voted(pic, _) => OutgoingVote(pic)
      case Commented(pic, comment, _, _) => OutgoingComment(pic, comment)
      case Upserted(pic) => UpsertPic(pic)
    }

    /** Nobody but the author hears of an upload. */
    function Incoming(author: int64): Note {
      match this
      case Voted(pic, _) => IncomingVote(pic, author)
      case Commented(pic, comment, _, _) => IncomingComment(pic, comment)
      case Upserted(pic) => UpsertPic(pic)
    }
  }

  /** The columns of an event row before its index. */
  datatype Stamp = Stamp(user: int64, at: int64)

  type EventTable = map<Key<Stamp>, Note>

  datatype Event = Event(key: Key<Stamp>, evt: Note)

  /** Who is to be told: the author, and the author of the parent or, without a parent, the uploaders; each once
      and no anonymous user. */
  function Recipients(author: int64, parent: Option<int64>, uploaders: seq<int64>): set<int64> {
    {author} + (if parent.Some? then {parent.value} else set u | u in uploaders) - {ANONYMOUS}
  }

  /** The table after each of the users has been told once. */
  ghost predicate Notified(events: EventTable, events': EventTable, at: int64, author: int64,
                              users: set<int64>, out: Note, inc: Note) {
    && (forall k :: k in events ==> k in events' && events'[k] == events[k])
    && (forall u :: u in users ==>
          && Fits(events, at, u)
          && NextKey(events, at, u) !in events && NextKey(events, at, u) in events'
          && events'[NextKey(events, at, u)] == if u == author then out else inc)
    && (forall k :: k in events' && k !in events ==>
          k.group.user in users && Fits(events, at, k.group.user) && k == NextKey(events, at, k.group.user))
  }

  function Audience(author: int64, h: Happening): set<int64> {
    Recipients(author, h.Parent(), h.Uploaders())
  }

  ghost predicate Told(events: EventTable, events': EventTable, at: int64, author: int64, h: Happening) {
    Notified(events, events', at, author, Audience(author, h), h.Outgoing(), h.Incoming(author))
  }

  /** A user has one event more, of this time and with this note. */
  ghost predicate Hears(events: EventTable, events': EventTable, at: int64, u: int64, note: Note) {
    && Fits(events, at, u) && NextKey(events, at, u) !in events
    && NextKey(events, at, u) in events' && events'[NextKey(events, at, u)] == note
  }

  /** The named users other than the author. */
  predicate OtherNamed(u: int64, author: int64) { u != ANONYMOUS && u != author }

  /** Who hears of what: a named author of what went out; of a vote the uploaders, of a comment the author of the
      parent or, without one, the uploaders, of what came in; and nobody else of anything. */
  ghost predicate ToldByKind(events: EventTable, events': EventTable, at: int64, author: int64, h: Happening) {
    && (forall k :: k in events ==> k in events' && events'[k] == events[k])
    && (forall k :: k in events' && k !in events ==> k.group.at == at && k.group.user != ANONYMOUS)
    && match h
       case Voted(pic, uploaders) =>
         && (author != ANONYMOUS ==> Hears(events, events', at, author, OutgoingVote(pic)))
         && (forall u :: u in uploaders && OtherNamed(u, author) ==>
               Hears(events, events', at, u, IncomingVote(pic, author)))
         && (forall k :: k in events' && k !in events ==> k.group.user == author || k.group.user in uploaders)
       case Commented(pic, comment, parent, uploaders) =>
         && (author != ANONYMOUS ==> Hears(events, events', at, author, OutgoingComment(pic, comment)))
         && (forall u :: OtherNamed(u, author) && (if parent.Some? then u == parent.value else u in uploaders) ==>
               Hears(events, events', at, u, IncomingComment(pic, comment)))
         && (forall k :: k in events' && k !in events ==>
               || k.group.user == author
               || if parent.Some? then k.group.user == parent.value else k.group.user in uploaders)
       case Upserted(pic) =>
         && (author != ANONYMOUS ==> Hears(events, events', at, author, UpsertPic(pic)))
         && (forall k :: k in events' && k !in events ==> k.group.user == author)
  }

  lemma ToldIsByKind(events: EventTable, events': EventTable, at: int64, author: int64, h: Happening)
    requires Told(events, events', at, author, h)
    ensures ToldByKind(events, events', at, author, h)
  {
    hide Fits;
  }

  /** Everybody to be told has a number left. */
  predicate AllFit(events: EventTable, at: int64, author: int64, h: Happening) {
    forall u :: u in Audience(author, h) ==> Fits(events, at, u)
  }

  predicate Fits(events: EventTable, at: int64, u: int64) {
    |Group(events.Keys, Stamp(u, at))| <= MAX_INT64
  }

  function NextKey(events: EventTable, at: int64, u: int64): Key<Stamp>
    requires Fits(events, at, u)
  {
    Key(Stamp(u, at), |Group(events.Keys, Stamp(u, at))|)
  }

  /** The events queued so far: one for each user told. */
  ghost predicate Queued(events: EventTable, queue: seq<Event>, told: set<int64>, at: int64, author: int64,
                            out: Note, inc: Note) {
    && ANONYMOUS !in told
    && (forall i :: 0 <= i < |queue| ==>
          && queue[i].key.group.user in told && Fits(events, at, queue[i].key.group.user)
          && queue[i].key == NextKey(events, at, queue[i].key.group.user)
          && queue[i].evt == if queue[i].key.group.user == author then out else inc)
    && (forall i, k :: 0 <= i < k < |queue| ==> queue[i].key.group.user != queue[k].key.group.user)
    && (forall u :: u in told ==> exists i :: 0 <= i < |queue| && queue[i].key.group.user == u)
  }

  /** Queues an event for a user who is named and has not been told. */
  method Tell(events: EventTable, queue: seq<Event>, told: set<int64>, at: int64, u: int64, evt: Note,
                 ghost author: int64, ghost out: Note, ghost inc: Note)
    returns (r: Option<seq<Event>>, told': set<int64>)
    requires AllDense(events.Keys) && Queued(events, queue, told, at, author, out, inc)
    requires evt == if u == author then out else inc
    ensures r.Some? ==> Queued(events, r.value, told', at, author, out, inc) && told' == told + {u} - {ANONYMOUS}
    ensures r == None ==> u != ANONYMOUS && u !in told && !Fits(events, at, u)
  {
    if u == ANONYMOUS || u in told {
      return Some(queue), told;
    }
    assert Dense(events.Keys, Stamp(u, at));
    var next := NextIndex(events.Keys, Stamp(u, at));
    if next == None {
      return None, told;
    }
    var more := queue + [Event(Key(Stamp(u, at), next.value), evt)];
    forall v | v in told + {u} ensures exists i :: 0 <= i < |more| && more[i].key.group.user == v {
      if v in told {
        var i :| 0 <= i < |queue| && queue[i].key.group.user == v;
        assert more[i].key.group.user == v;
      } else {
        assert more[|queue|].key.group.user == v;
      }
    }
    return Some(more), told + {u};
  }

  /** Tells everybody, or nobody when somebody's events of this time have used up the numbers. */
  method Notify(events: EventTable, at: int64, author: int64, h: Happening) returns (r: Option<EventTable>)
    requires AllDense(events.Keys)
    ensures r.Some? ==> AllDense(r.value.Keys) && Told(events, r.value, at, author, h)
    ensures r.Some? ==> ToldByKind(events, r.value, at, author, h)
    ensures r.Some? <==> AllFit(events, at, author, h)
  {
    hide Queued, Fits, Notified, AllDense, ToldByKind;
    var out, inc := h.Outgoing(), h.Incoming(author);
    var parent, uploaders := h.Parent(), h.Uploaders();
    ghost var all := Audience(author, h);
    NobodyTold(events, at, author, out, inc);
    var queue, told := Tell(events, [], {}, at, author, out, author, out, inc);
    if queue == None {
      assert author in all;
      return None;
    }
    if parent.Some? {
      queue, told := Tell(events, queue.value, told, at, parent.value, if parent.value == author then out else inc,
                          author, out, inc);
      if queue == None {
        assert parent.value in all;
        return None;
      }
    } else {
      for i := 0 to |uploaders|
        invariant queue.Some? && Queued(events, queue.value, told, at, author, out, inc)
        invariant told == {author} + (set u | u in uploaders[..i]) - {ANONYMOUS}
      {
        assert uploaders[..i + 1] == uploaders[..i] + [uploaders[i]];
        queue, told := Tell(events, queue.value, told, at, uploaders[i], if uploaders[i] == author then out else inc,
                            author, out, inc);
        if queue == None {
          assert uploaders[i] in all;
          return None;
        }
      }
      assert uploaders[..|uploaders|] == uploaders;
    }
    assert told == all;
    QueuedFits(events, queue.value, told, at, author, out, inc);
    var events' := InsertAll(events, queue.value);
    QueuedIsNotified(events, queue.value, told, at, author, out, inc);
    ToldIsByKind(events, events', at, author, h);
    return Some(events');
  }

  method InsertAll(events: EventTable, queue: seq<Event>) returns (events': EventTable)
    ensures events' == Inserted(events, queue)
  {
    events' := events;
    assert queue[..0] == [];
    for i := 0 to |queue|
      invariant events' == Inserted(events, queue[..i])
    {
      assert queue[..i + 1][..i] == queue[..i];
      events' := events'[queue[i].key := queue[i].evt];
    }
    assert queue[..|queue|] == queue;
  }

  function Inserted(events: EventTable, queue: seq<Event>): EventTable {
    if queue == [] then events
    else Inserted(events, queue[..|queue| - 1])[queue[|queue| - 1].key := queue[|queue| - 1].evt]
  }

  lemma NobodyTold(events: EventTable, at: int64, author: int64, out: Note, inc: Note)
    ensures Queued(events, [], {}, at, author, out, inc)
  {
  }

  lemma QueuedFits(events: EventTable, queue: seq<Event>, told: set<int64>, at: int64, author: int64,
                      out: Note, inc: Note)
    requires Queued(events, queue, told, at, author, out, inc)
    ensures forall u :: u in told ==> Fits(events, at, u)
  {
    forall u | u in told ensures Fits(events, at, u) {
      var i :| 0 <= i < |queue| && queue[i].key.group.user == u;
    }
  }

  ghost predicate DistinctKeys(queue: seq<Event>) {
    forall i, k :: 0 <= i < k < |queue| ==> queue[i].key != queue[k].key
  }

  lemma {:induction false} InsertedAt(events: EventTable, queue: seq<Event>, k: Key<Stamp>)
    requires DistinctKeys(queue)
    ensures k in Inserted(events, queue) <==> k in events || exists i :: 0 <= i < |queue| && queue[i].key == k
    ensures (forall i :: 0 <= i < |queue| ==> queue[i].key != k) && k in events ==> Inserted(events, queue)[k] == events[k]
    ensures forall i :: 0 <= i < |queue| && queue[i].key == k ==> Inserted(events, queue)[k] == queue[i].evt
  {
    if queue != [] {
      InsertedAt(events, queue[..|queue| - 1], k);
      assert forall i :: 0 <= i < |queue| - 1 ==> queue[..|queue| - 1][i] == queue[i];
    }
  }

  lemma QueuedIsNotified(events: EventTable, queue: seq<Event>, told: set<int64>, at: int64, author: int64,
                            out: Note, inc: Note)
    requires AllDense(events.Keys) && Queued(events, queue, told, at, author, out, inc)
    ensures AllDense(Inserted(events, queue).Keys)
    ensures Notified(events, Inserted(events, queue), at, author, told, out, inc)
  {
    hide Inserted, Group;
    var events' := Inserted(events, queue);
    forall i | 0 <= i < |queue| ensures queue[i].key !in events {
      assert Dense(events.Keys, queue[i].key.group);
    }
    forall k ensures k in events ==> k in events' && events'[k] == events[k] {
      InsertedAt(events, queue, k);
    }
    forall u | u in told
      ensures Fits(events, at, u) && NextKey(events, at, u) !in events && NextKey(events, at, u) in events'
              && events'[NextKey(events, at, u)] == if u == author then out else inc
    {
      var i :| 0 <= i < |queue| && queue[i].key.group.user == u;
      InsertedAt(events, queue, queue[i].key);
    }
    forall k | k in events' && k !in events
      ensures k.group.user in told && Fits(events, at, k.group.user) && k == NextKey(events, at, k.group.user)
    {
      InsertedAt(events, queue, k);
      var i :| 0 <= i < |queue| && queue[i].key == k;
    }
    NotifiedKeepsDense(events, events', at, author, told, out, inc);
  }

  // Every run

  datatype Step =
    | Happened(at: int64, author: int64, h: Happening)
    /** A transaction that fails, or that leaves events alone, as purges do. */
    | Quiet

  ghost predicate Next(t: EventTable, step: Step, t': EventTable) {
    match step
    case Happened(at, author, h) => Told(t, t', at, author, h)
    case Quiet => t' == t
  }

  /** Events are numbered without gaps, and an anonymous user has none. */
  ghost predicate NoGaps(t: EventTable) {
    AllDense(t.Keys) && forall k :: k in t ==> k.group.user != ANONYMOUS
  }

  ghost predicate Run(run: seq<EventTable>, steps: seq<Step>) {
    |run| == |steps| + 1 && forall i :: 0 <= i < |steps| ==> Next(run[i], steps[i], run[i + 1])
  }

  function NextKeys(t: EventTable, at: int64, users: set<int64>): set<Key<Stamp>>
    requires forall u :: u in users ==> Fits(t, at, u)
  {
    set u | u in users :: NextKey(t, at, u)
  }

  lemma NotifiedKeys(t: EventTable, t': EventTable, at: int64, author: int64, users: set<int64>, out: Note, inc: Note)
    requires Notified(t, t', at, author, users, out, inc)
    ensures t.Keys !! NextKeys(t, at, users) && t'.Keys == t.Keys + NextKeys(t, at, users)
  {
    hide NextKey, Fits;
  }

  lemma {:induction false} NextKeysCount(t: EventTable, at: int64, users: set<int64>)
    requires forall u :: u in users ==> Fits(t, at, u)
    ensures |NextKeys(t, at, users)| == |users|
  {
    hide Fits;
    if users != {} {
      var u :| u in users;
      NextKeysCount(t, at, users - {u});
      assert NextKeys(t, at, users) == NextKeys(t, at, users - {u}) + {NextKey(t, at, u)};
    }
  }

  lemma NotifiedKeepsDense(t: EventTable, t': EventTable, at: int64, author: int64, users: set<int64>, out: Note,
                           inc: Note)
    requires AllDense(t.Keys) && Notified(t, t', at, author, users, out, inc)
    ensures AllDense(t'.Keys)
  {
    NotifiedKeys(t, t', at, author, users, out, inc);
    forall g ensures Dense(t'.Keys, g) {
      assert Dense(t.Keys, g);
      if g.at == at && g.user in users {
        NextKeepsDense(t.Keys, g, g);
        SameGroupDense(t.Keys + {NextKey(t, at, g.user)}, t'.Keys, g);
      } else {
        SameGroupDense(t.Keys, t'.Keys, g);
      }
    }
  }

  lemma SameGroupDense(a: set<Key<Stamp>>, b: set<Key<Stamp>>, g: Stamp)
    requires Dense(a, g) && forall k: Key<Stamp> :: k.group == g ==> (k in a <==> k in b)
    ensures Dense(b, g)
  {
    assert Group(a, g) == Group(b, g);
  }

  lemma NextKeeps(t: EventTable, step: Step, t': EventTable)
    requires NoGaps(t) && Next(t, step, t')
    ensures NoGaps(t')
  {
    hide AllDense, Fits, NextKey;
    if step.Happened? {
      var h := step.h;
      NotifiedKeepsDense(t, t', step.at, step.author, Audience(step.author, h), h.Outgoing(), h.Incoming(step.author));
    }
  }

  /** Over every run of comments, votes and uploads in any order, events stay numbered without gaps. */
  lemma {:induction false} RunKeeps(run: seq<EventTable>, steps: seq<Step>, n: nat)
    requires Run(run, steps) && n < |run| && NoGaps(run[0])
    ensures NoGaps(run[n])
  {
    hide NoGaps, Next;
    if n > 0 {
      RunKeeps(run, steps, n - 1);
      NextKeeps(run[n - 1], steps[n - 1], run[n]);
    }
  }

  /** An event that has been written is never changed or removed. */
  lemma {:induction false} WrittenStays(run: seq<EventTable>, steps: seq<Step>, m: nat, n: nat, k: Key<Stamp>)
    requires Run(run, steps) && m <= n < |run| && k in run[m]
    ensures k in run[n] && run[n][k] == run[m][k]
  {
    hide Fits, NextKey;
    if m < n {
      WrittenStays(run, steps, m, n - 1, k);
      assert Next(run[n - 1], steps[n - 1], run[n]);
    }
  }

  /** How many users the first n steps have to tell. */
  function ToTell(steps: seq<Step>, n: nat): nat
    requires n <= |steps|
  {
    if n == 0 then 0
    else ToTell(steps, n - 1)
         + if steps[n - 1].Happened? then |Audience(steps[n - 1].author, steps[n - 1].h)| else 0
  }

  /** There is one event for each user told, no more and no fewer: none is lost to another of the same moment. */
  lemma {:induction false} OneForEach(run: seq<EventTable>, steps: seq<Step>, n: nat)
    requires Run(run, steps) && n < |run| && run[0] == map[]
    ensures |run[n]| == ToTell(steps, n)
  {
    hide Notified, Audience, NextKeys;
    if n > 0 {
      OneForEach(run, steps, n - 1);
      var t, t', step := run[n - 1], run[n], steps[n - 1];
      assert Next(t, step, t');
      if step.Happened? {
        NotifiedCount(t, t', step.at, step.author, Audience(step.author, step.h), step.h.Outgoing(),
                      step.h.Incoming(step.author));
      }
    }
  }

  lemma NotifiedCount(t: EventTable, t': EventTable, at: int64, author: int64, users: set<int64>, out: Note, inc: Note)
    requires Notified(t, t', at, author, users, out, inc)
    ensures |t'| == |t| + |users|
  {
    NotifiedKeys(t, t', at, author, users, out, inc);
    NextKeysCount(t, at, users);
    assert |t'.Keys| == |t.Keys| + |NextKeys(t, at, users)|;
  }

  /** What an event says: it is of a step that had to tell its user, at its time, and it is the note for the author
      or the one for the others. */
  ghost predicate Explains(step: Step, k: Key<Stamp>, note: Note) {
    && step.Happened? && k.group.at == step.at && k.group.user in Audience(step.author, step.h)
    && note == if k.group.user == step.author then step.h.Outgoing() else step.h.Incoming(step.author)
  }

  /** Every event in the table goes back to one of the steps. */
  lemma {:induction false} EventOrigin(run: seq<EventTable>, steps: seq<Step>, n: nat, k: Key<Stamp>) returns (i: nat)
    requires Run(run, steps) && n < |run| && run[0] == map[] && k in run[n]
    ensures i < n && k !in run[i] && k in run[i + 1] && Explains(steps[i], k, run[n][k])
  {
    hide Fits, Audience;
    assert n > 0;
    assert Next(run[n - 1], steps[n - 1], run[n]);
    if k in run[n - 1] {
      i := EventOrigin(run, steps, n - 1, k);
    } else {
      i := n - 1;
    }
  }
}
