/** Votes on pics and on comments (be/tasks/add_pic_vote.go, be/tasks/add_pic_comment_vote_task.go) and the
    counters kept in the rows voted on, over every run. `S` identifies what is voted on: a pic, or a pic and
    a comment. */
module Votes {
  import opened Indexes
  import opened Notifications
  import opened Prelude

  datatype Vote = Up | Down | Neutral

  /** The columns of a vote row before its index. */
  datatype Ballot<S> = Ballot(subject: S, user: int64)

  type VoteTable<S(==)> = map<Key<Ballot<S>>, Vote>

  /** The counters of a pic or a comment. */
  datatype Tally = Tally(up: int, down: int)

  datatype VoteError = BadVote | NoPic | PicDeleted | NoComment | DoubleVote | IndexOverflow | EventOverflow

  /** The stored votes of a kind. */
  function Cards<S(==)>(votes: VoteTable<S>, s: S, v: Vote): set<Key<Ballot<S>>> {
    set k | k in votes && k.group.subject == s && votes[k] == v
  }

  function Count<S(==)>(votes: VoteTable<S>, s: S, v: Vote): nat { |Cards(votes, s, v)| }

  function Counted(t: Tally, v: Vote): Tally {
    match v
    case Up => t.(up := t.up + 1)
    case Down => t.(down := t.down + 1)
    case Neutral => t
  }

  /** Counters are those of the stored votes; votes are numbered from 0 without gaps; a named user has one at most. */
  ghost predicate Sound<S(!new)>(items: map<S, Tally>, votes: VoteTable<S>) {
    && (forall s :: s in items ==> items[s] == Tally(Count(votes, s, Up), Count(votes, s, Down)))
    && AllDense(votes.Keys)
    && (forall k :: k in votes && k.group.user != ANONYMOUS ==> k.index == 0)
  }

  class Job<S(==)> {
    var items: map<S, Tally>
    var votes: VoteTable<S>

    constructor (items: map<S, Tally>, votes: VoteTable<S>)
      ensures this.items == items && this.votes == votes
    {
      this.items, this.votes := items, votes;
    }
  }

  /** The index that a vote gets: named users start and end at 0, anonymous ones go on counting. */
  ghost predicate Cast<S(!new)>(items: map<S, Tally>, votes: VoteTable<S>, items': map<S, Tally>, votes': VoteTable<S>,
                                s: S, user: int64, v: Vote) {
    var b := Ballot(s, user);
    var n := |Group(votes.Keys, b)|;
    && s in items && n <= MAX_INT64 && (user != ANONYMOUS ==> n == 0)
    && votes' == votes[Key(b, n) := v]
    && items' == items[s := Counted(items[s], v)]
  }

  /** A named user has one vote. */
  predicate HasVoted<S(==)>(votes: VoteTable<S>, s: S, user: int64) {
    user != ANONYMOUS && Key(Ballot(s, user), 0) in votes
  }

  /** The last number for anonymous votes is taken. */
  predicate UsedUp<S(==)>(votes: VoteTable<S>, s: S, user: int64) {
    user == ANONYMOUS && Key(Ballot(s, user), MAX_INT64) in votes
  }

  /** Both tasks from the lookup of the votes on: check, choose the index, insert, count. */
  method CastVote<S(==,!new)>(j: Job<S>, s: S, user: int64, v: Vote) returns (r: Result<int64, VoteError>)
    requires Sound(j.items, j.votes) && s in j.items
    modifies j
    ensures Sound(j.items, j.votes)
    ensures r.Ok? ==> Cast(old(j.items), old(j.votes), j.items, j.votes, s, user, v)
    ensures r.Ok? ==> r.value == |Group(old(j.votes).Keys, Ballot(s, user))|
    ensures r.Err? ==> j.items == old(j.items) && j.votes == old(j.votes)
    ensures r == Err(DoubleVote) <==> HasVoted(old(j.votes), s, user)
    ensures r.Err? ==> r.error in {DoubleVote, IndexOverflow}
    ensures r == Err(IndexOverflow) <==> UsedUp(old(j.votes), s, user)
  {
    hide Sound, Count, Dense, Group, AllDense;
    var b := Ballot(s, user);
    var found := Group(j.votes.Keys, b);
    var index: int64 := 0;
    SoundBallot(j.items, j.votes, b);
    if user != ANONYMOUS {
      if |found| != 0 {
        return Err(DoubleVote);
      }
    } else {
      var next := NextIndex(j.votes.Keys, b);
      if next == None {
        return Err(IndexOverflow);
      }
      index := next.value;
    }
    VotedIsSound(j.items, j.votes, s, user, v);
    j.votes := j.votes[Key(b, index) := v];
    match v {
      case Up => j.items := j.items[s := Tally(j.items[s].up + 1, j.items[s].down)];
      case Down => j.items := j.items[s := Tally(j.items[s].up, j.items[s].down + 1)];
      case Neutral => assert j.items == j.items[s := j.items[s]];
    }
    return Ok(index);
  }

  lemma SoundBallot<S(!new)>(items: map<S, Tally>, votes: VoteTable<S>, b: Ballot<S>)
    requires Sound(items, votes)
    ensures Dense(votes.Keys, b)
    ensures |Group(votes.Keys, b)| > 0 <==> Key(b, 0) in votes
    ensures |Group(votes.Keys, b)| > MAX_INT64 <==> Key(b, MAX_INT64) in votes
  {
    assert Dense(votes.Keys, b);
    assert Key(b, 0) in votes.Keys <==> 0 < |Group(votes.Keys, b)|;
    assert Key(b, MAX_INT64) in votes.Keys <==> MAX_INT64 < |Group(votes.Keys, b)|;
  }

  lemma CountCast<S(!new)>(votes: VoteTable<S>, k: Key<Ballot<S>>, v: Vote, s: S, w: Vote)
    requires k !in votes
    ensures Count(votes[k := v], s, w) == Count(votes, s, w) + if k.group.subject == s && v == w then 1 else 0
  {
    hide Cards;
    CardsCast(votes, k, v, s, w);
  }

  lemma CardsCast<S(!new)>(votes: VoteTable<S>, k: Key<Ballot<S>>, v: Vote, s: S, w: Vote)
    requires k !in votes
    ensures k !in Cards(votes, s, w)
    ensures Cards(votes[k := v], s, w) == Cards(votes, s, w) + if k.group.subject == s && v == w then {k} else {}
  {
    var was, now := Cards(votes, s, w), Cards(votes[k := v], s, w);
    forall q ensures q in now <==> q in was || (q == k && k.group.subject == s && v == w) {
      assert q in votes[k := v] <==> q in votes || q == k;
    }
  }

  /** A vote keeps the counters and the numbering right. */
  lemma VotedIsSound<S(!new)>(items: map<S, Tally>, votes: VoteTable<S>, s: S, user: int64, v: Vote)
    requires Sound(items, votes) && s in items
    requires |Group(votes.Keys, Ballot(s, user))| <= MAX_INT64
    requires user != ANONYMOUS ==> |Group(votes.Keys, Ballot(s, user))| == 0
    ensures Key(Ballot(s, user), |Group(votes.Keys, Ballot(s, user))|) !in votes
    ensures Sound(items[s := Counted(items[s], v)], votes[Key(Ballot(s, user), |Group(votes.Keys, Ballot(s, user))|) := v])
  {
    var b := Ballot(s, user);
    var k := Key(b, |Group(votes.Keys, b)|);
    var votes' := votes[k := v];
    assert k !in votes.Keys by { assert Dense(votes.Keys, b); }
    assert votes'.Keys == votes.Keys + {k};
    forall h ensures Dense(votes'.Keys, h) {
      assert Dense(votes.Keys, b) && Dense(votes.Keys, h);
      NextKeepsDense(votes.Keys, b, h);
    }
    hide Count, Dense, Group;
    forall t | t in items
      ensures items[s := Counted(items[s], v)][t] == Tally(Count(votes', t, Up), Count(votes', t, Down))
    {
      CountCast(votes, k, v, t, Up);
      CountCast(votes, k, v, t, Down);
    }
  }

  // Every run

  /** The tables, and the ids that rows have ever had: the allocator gives none of them again. */
  datatype Tables<S(==)> = Tables(items: map<S, Tally>, votes: VoteTable<S>, created: set<S>)

  ghost predicate Kept<S(!new)>(t: Tables<S>) {
    && Sound(t.items, t.votes) && t.items.Keys <= t.created
    && forall k :: k in t.votes ==> k.group.subject in t.created
  }

  datatype Step<S(==)> =
    | Create(s: S)
    | CastOne(s: S, user: int64, v: Vote)
    /** A purge deletes some rows; it takes the votes on a pic along, and leaves those on its comments. */
    | Purge(gone: set<S>, takesVotes: bool)
    /** A transaction that fails, or that touches neither votes nor counters. */
    | Other

  ghost predicate Next<S(!new)>(t: Tables<S>, step: Step<S>, t': Tables<S>) {
    match step
    case Create(s) =>
      s !in t.created && t' == Tables(t.items[s := Tally(0, 0)], t.votes, t.created + {s})
    case CastOne(s, user, v) =>
      Cast(t.items, t.votes, t'.items, t'.votes, s, user, v) && t'.created == t.created
    case Purge(gone, takesVotes) =>
      && t'.items == t.items - gone && t'.created == t.created
      && t'.votes == if takesVotes then (map k | k in t.votes && k.group.subject !in gone :: t.votes[k]) else t.votes
    case Other => t' == t
  }

  lemma NoVotesYet<S(!new)>(votes: VoteTable<S>, s: S, v: Vote)
    requires forall k :: k in votes ==> k.group.subject != s
    ensures Count(votes, s, v) == 0
  {
    assert Cards(votes, s, v) == {};
  }

  lemma PurgedVotes<S(!new)>(votes: VoteTable<S>, votes': VoteTable<S>, gone: set<S>, h: Ballot<S>, v: Vote)
    requires votes' == map k | k in votes && k.group.subject !in gone :: votes[k]
    requires Dense(votes.Keys, h)
    ensures h.subject !in gone ==> Count(votes', h.subject, v) == Count(votes, h.subject, v)
    ensures Dense(votes'.Keys, h)
  {
    if h.subject in gone {
      assert Group(votes'.Keys, h) == {};
    } else {
      assert Group(votes'.Keys, h) == Group(votes.Keys, h);
      assert Cards(votes, h.subject, v) == Cards(votes', h.subject, v);
    }
  }

  lemma PurgeKeeps<S(!new)>(t: Tables<S>, gone: set<S>, takesVotes: bool, t': Tables<S>)
    requires Kept(t) && Next(t, Purge(gone, takesVotes), t')
    ensures Kept(t')
  {
    hide Count, Dense, Group;
    if takesVotes {
      forall h ensures Dense(t'.votes.Keys, h) {
        assert Dense(t.votes.Keys, h);
        PurgedVotes(t.votes, t'.votes, gone, h, Up);
      }
      forall s | s in t'.items ensures t'.items[s] == Tally(Count(t'.votes, s, Up), Count(t'.votes, s, Down)) {
        assert Dense(t.votes.Keys, Ballot(s, ANONYMOUS));
        PurgedVotes(t.votes, t'.votes, gone, Ballot(s, ANONYMOUS), Up);
        PurgedVotes(t.votes, t'.votes, gone, Ballot(s, ANONYMOUS), Down);
      }
    }
  }

  lemma NextKeeps<S(!new)>(t: Tables<S>, step: Step<S>, t': Tables<S>)
    requires Kept(t) && Next(t, step, t')
    ensures Kept(t')
  {
    hide Count, Dense, Group;
    match step
    case Create(s) =>
      NoVotesYet(t.votes, s, Up);
      NoVotesYet(t.votes, s, Down);
    case CastOne(s, user, v) =>
      VotedIsSound(t.items, t.votes, s, user, v);
    case Purge(gone, takesVotes) =>
      PurgeKeeps(t, gone, takesVotes, t');
    case Other =>
  }

  /** Over every run of creating, voting and purging, the counters stay those of the stored votes, also when
      votes outlive what was voted on. */
  lemma {:induction false} RunKeeps<S(!new)>(run: seq<Tables<S>>, steps: seq<Step<S>>, n: nat)
    requires |run| == |steps| + 1 && n < |run| && Kept(run[0])
    requires forall i :: 0 <= i < |steps| ==> Next(run[i], steps[i], run[i + 1])
    ensures Kept(run[n])
  {
    if n > 0 {
      RunKeeps(run, steps, n - 1);
      NextKeeps(run[n - 1], steps[n - 1], run[n]);
    }
  }

  /** What the numbering means: a named user votes once, and anonymous votes are numbered 0 to k - 1. */
  lemma VotesNumbered<S(!new)>(t: Tables<S>, s: S, user: int64, i: int64)
    requires Kept(t)
    ensures Key(Ballot(s, user), i) in t.votes <==> 0 <= i < |Group(t.votes.Keys, Ballot(s, user))|
    ensures user != ANONYMOUS ==> |Group(t.votes.Keys, Ballot(s, user))| <= 1
  {
    var b := Ballot(s, user);
    assert Dense(t.votes.Keys, b);
    SizeInRange(t.votes.Keys, b);
    assert user != ANONYMOUS ==> Key(b, 1) !in t.votes.Keys;
  }

  // The two tasks up to the votes

  /** The rest of a pic's row that matters here. */
  datatype Pic = Pic(hardDeleted: bool, uploaders: seq<int64>)

  /** What both tasks ask of a pic. */
  predicate Open(pics: map<int64, Pic>, pic: int64, v: Option<Vote>) {
    v.Some? && pic in pics && !pics[pic].hardDeleted
  }

  /** `AddPicVoteTask.Run` up to the commit. Events are made only when a counter has changed. */
  method AddPicVote(pics: map<int64, Pic>, j: Job<int64>, events: EventTable, pic: int64, user: int64, v: Option<Vote>,
                    now: int64)
    returns (r: Result<int64, VoteError>, events': EventTable)
    requires Sound(j.items, j.votes) && j.items.Keys == pics.Keys && AllDense(events.Keys)
    modifies j
    ensures Sound(j.items, j.votes) && AllDense(events'.Keys)
    ensures r.Ok? <==>
              && Open(pics, pic, v) && !HasVoted(old(j.votes), pic, user) && !UsedUp(old(j.votes), pic, user)
              && (v == Some(Neutral) || AllFit(events, now, user, Voted(pic, pics[pic].uploaders)))
    ensures r.Ok? ==> Cast(old(j.items), old(j.votes), j.items, j.votes, pic, user, v.value)
    ensures r.Ok? ==> if v == Some(Neutral) then events' == events
                      else Told(events, events', now, user, Voted(pic, pics[pic].uploaders))
    ensures r.Err? ==> events' == events
    ensures r.Err? && r.error != EventOverflow ==> j.items == old(j.items) && j.votes == old(j.votes)
    ensures r == Err(BadVote) <==> v == None
    ensures r == Err(NoPic) <==> v.Some? && pic !in pics
    ensures r == Err(PicDeleted) <==> v.Some? && pic in pics && pics[pic].hardDeleted
    ensures r == Err(DoubleVote) <==> Open(pics, pic, v) && HasVoted(old(j.votes), pic, user)
    ensures r == Err(IndexOverflow) <==> Open(pics, pic, v) && UsedUp(old(j.votes), pic, user)
    ensures r.Err? ==> r.error in {BadVote, NoPic, PicDeleted, DoubleVote, IndexOverflow, EventOverflow}
  {
    hide Sound, Cast, Told, AllFit, HasVoted, UsedUp;
    events' := events;
    if v == None {
      return Err(BadVote), events;
    }
    if pic !in pics {
      return Err(NoPic), events;
    }
    if pics[pic].hardDeleted {
      return Err(PicDeleted), events;
    }
    r := CastVote(j, pic, user, v.value);
    if r.Ok? && v != Some(Neutral) {
      var told := Notify(events, now, user, Voted(pic, pics[pic].uploaders));
      if told == None {
        return Err(EventOverflow), events;
      }
      events' := told.value;
    }
  }

  datatype CommentKey = CommentKey(pic: int64, comment: int64)

  /** `AddPicCommentVoteTask.Run`. */
  method AddCommentVote(pics: map<int64, Pic>, j: Job<CommentKey>, pic: int64, comment: int64, user: int64,
                        v: Option<Vote>)
    returns (r: Result<int64, VoteError>)
    requires Sound(j.items, j.votes)
    modifies j
    ensures Sound(j.items, j.votes)
    ensures var c := CommentKey(pic, comment);
            && (r.Ok? <==> Open(pics, pic, v) && c in old(j.items)
                           && !HasVoted(old(j.votes), c, user) && !UsedUp(old(j.votes), c, user))
            && (r == Err(NoComment) <==> Open(pics, pic, v) && c !in old(j.items))
            && (r == Err(DoubleVote) <==> Open(pics, pic, v) && c in old(j.items) && HasVoted(old(j.votes), c, user))
            && (r == Err(IndexOverflow) <==> Open(pics, pic, v) && c in old(j.items) && UsedUp(old(j.votes), c, user))
    ensures r.Ok? ==> Cast(old(j.items), old(j.votes), j.items, j.votes, CommentKey(pic, comment), user, v.value)
    ensures r.Err? ==> j.items == old(j.items) && j.votes == old(j.votes)
    ensures r == Err(BadVote) <==> v == None
    ensures r == Err(NoPic) <==> v.Some? && pic !in pics
    ensures r == Err(PicDeleted) <==> v.Some? && pic in pics && pics[pic].hardDeleted
  {
    hide Sound, Cast, HasVoted, UsedUp;
    if v == None {
      return Err(BadVote);
    }
    if pic !in pics {
      return Err(NoPic);
    }
    if pics[pic].hardDeleted {
      return Err(PicDeleted);
    }
    if CommentKey(pic, comment) !in j.items {
      return Err(NoComment);
    }
    r := CastVote(j, CommentKey(pic, comment), user, v.value);
  }
}
