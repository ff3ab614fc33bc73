/** Starting a job for a user (be/tasks/auth.go): the loop that checks the token and, once a day, writes down
    that it was seen. */
module Auth {
  import opened Prelude
  import opened Users

  /** 24 hours. */
  const THRESHOLD := 86_400_000_000_000

  datatype AuthError =
    CannotBegin | CannotFind | NoUser | NoToken | CannotRollback | NotUpdated | CannotUpdate | CannotCommit

  // `validateAndUpdateUserAndToken`

  predicate Stale(t: Option<Time>, now: Time) {
    t.Some? && now.Nanos() - THRESHOLD > t.value.Nanos()
  }

  /** A time is stale when the same time of the next day is over. */
  lemma StaleIsDayOld(t: Time, now: Time)
    requires 0 <= t.nanos < 1_000_000_000 && 0 <= now.nanos < 1_000_000_000
    ensures Stale(Some(t), now) <==>
              now.seconds - t.seconds > 86_400 || (now.seconds - t.seconds == 86_400 && now.nanos > t.nanos)
    ensures !Stale(None, now)
  {
  }

  /** The first token with an id. */
  function TokenIndex(tokens: seq<Token>, id: int64): Option<nat>
    ensures TokenIndex(tokens, id).Some? ==> TokenIndex(tokens, id).value < |tokens|
  {
    if tokens == [] then None
    else if tokens[0].id == id then Some(0)
    else
      var i := TokenIndex(tokens[1..], id);
      if i == None then None else Some(i.value + 1)
  }

  lemma {:induction false} TokenIndexFirst(tokens: seq<Token>, id: int64)
    ensures match TokenIndex(tokens, id)
            case None => !HasToken(tokens, id)
            case Some(i) => tokens[i].id == id && forall k :: 0 <= k < i ==> tokens[k].id != id
  {
    if tokens != [] && tokens[0].id != id {
      TokenIndexFirst(tokens[1..], id);
      assert forall k :: 0 < k < |tokens| ==> tokens[k] == tokens[1..][k - 1];
    }
  }

  /** The user's row after the times that are more than a day old have been set to now. */
  function Refreshed(u: User, i: nat, now: Time): User
    requires i < |u.tokens|
  {
    var stale := Stale(u.tokens[i].lastSeen, now) || Stale(u.lastSeen, now);
    u.(tokens := if Stale(u.tokens[i].lastSeen, now) then u.tokens[i := u.tokens[i].(lastSeen := Some(now))] else u.tokens,
       lastSeen := if Stale(u.lastSeen, now) then Some(now) else u.lastSeen,
       modified := if stale then now else u.modified)
  }

  predicate NeedsRefresh(u: User, i: nat, now: Time)
    requires i < |u.tokens|
  {
    Stale(u.tokens[i].lastSeen, now) || Stale(u.lastSeen, now)
  }

  /** Right after a refresh no other is due: this is what ends the loop. */
  lemma RefreshedIsFresh(u: User, id: int64, now: Time)
    requires TokenIndex(u.tokens, id).Some?
    ensures var i := TokenIndex(u.tokens, id).value;
            && TokenIndex(Refreshed(u, i, now).tokens, id) == Some(i)
            && !NeedsRefresh(Refreshed(u, i, now), i, now)
            && Refreshed(Refreshed(u, i, now), i, now) == Refreshed(u, i, now)
  {
    var i := TokenIndex(u.tokens, id).value;
    SameIds(u.tokens, Refreshed(u, i, now).tokens, id);
  }

  lemma {:induction false} SameIds(a: seq<Token>, b: seq<Token>, id: int64)
    requires |a| == |b| && forall i :: 0 <= i < |a| ==> a[i].id == b[i].id
    ensures TokenIndex(a, id) == TokenIndex(b, id)
  {
    if a != [] {
      SameIds(a[1..], b[1..], id);
    }
  }

  /** A time that is known and more than a day old becomes now; any other stays. */
  ghost predicate TimeAfter(was: Option<Time>, after: Option<Time>, now: Time) {
    after == if was.Some? && now.Nanos() - was.value.Nanos() > 24 * 60 * 60 * 1_000_000_000 then Some(now) else was
  }

  /** Only the times of the user and of one token may change, and the row is marked as modified if one does. */
  ghost predicate TimesSet(u: User, u': User, i: nat, now: Time, updated: bool)
    requires i < |u.tokens|
  {
    && |u'.tokens| == |u.tokens| && u'.nextTokenId == u.nextTokenId
    && (forall k :: 0 <= k < |u.tokens| && k != i ==> u'.tokens[k] == u.tokens[k])
    && u'.tokens[i].id == u.tokens[i].id && TimeAfter(u.tokens[i].lastSeen, u'.tokens[i].lastSeen, now)
    && TimeAfter(u.lastSeen, u'.lastSeen, now)
    && (updated <==> u'.lastSeen != u.lastSeen || u'.tokens[i] != u.tokens[i])
    && u'.modified == if updated then now else u.modified
  }

  method ValidateAndUpdate(users: map<int64, User>, userId: int64, tokenId: int64, now: Time)
    returns (r: Result<(User, bool), AuthError>)
    ensures r.Ok? <==> userId in users && TokenIndex(users[userId].tokens, tokenId).Some?
    ensures r.Ok? ==> var i := TokenIndex(users[userId].tokens, tokenId).value;
                      && r.value == (Refreshed(users[userId], i, now), NeedsRefresh(users[userId], i, now))
                      && users[userId].tokens[i].id == tokenId && TimesSet(users[userId], r.value.0, i, now, r.value.1)
    ensures r.Err? ==> r.error == if userId !in users then NoUser else NoToken
  {
    if userId !in users {
      return Err(NoUser);
    }
    var u := users[userId];
    var tokenIdx := -1;
    for i := 0 to |u.tokens|
      invariant tokenIdx == -1 && forall k :: 0 <= k < i ==> u.tokens[k].id != tokenId
    {
      if u.tokens[i].id == tokenId {
        tokenIdx := i;
        break;
      }
    }
    TokenIndexFirst(u.tokens, tokenId);
    if tokenIdx == -1 {
      return Err(NoToken);
    }
    var ut := u.tokens[tokenIdx];
    var updated := false;
    if ut.lastSeen.Some? {
      if now.Nanos() - THRESHOLD > ut.lastSeen.value.Nanos() {
        u := u.(tokens := u.tokens[tokenIdx := ut.(lastSeen := Some(now))]);
        updated := true;
      }
    }
    if u.lastSeen.Some? {
      if now.Nanos() - THRESHOLD > u.lastSeen.value.Nanos() {
        u := u.(lastSeen := Some(now));
        updated := true;
      }
    }
    if updated {
      u := u.(modified := now);
    }
    return Ok((u, updated));
  }

  // The database, seen from here

  datatype Job = Job(n: nat, readonly: bool)

  /** Jobs that are open, and the users as last committed. Each call may fail, unless `reliable`. Other transactions
      may commit between steps: `others` are the users as each of them leaves them. */
  class Database {
    var users: map<int64, User>
    var others: seq<map<int64, User>>
    var open: set<Job>
    var begun: nat
    const reliable: bool

    constructor (users: map<int64, User>, others: seq<map<int64, User>>, reliable: bool)
      ensures this.users == users && this.others == others && open == {} && begun == 0
      ensures this.reliable == reliable && Valid()
    {
      this.users, this.others, this.open, this.begun, this.reliable := users, others, {}, 0, reliable;
    }

    /** Jobs are numbered as they are begun. */
    ghost predicate Valid()
      reads this
    {
      forall j :: j in open ==> j.n < begun
    }

    method Fails() returns (b: bool)
      ensures reliable ==> !b
    {
      b := *;
      b := b && !reliable;
    }

    /** Perhaps another transaction commits. */
    method Interfere()
      modifies this`users, this`others
      ensures (users == old(users) && others == old(others)) || |others| < |old(others)|
    {
      var b := *;
      if b && |others| > 0 {
        users, others := others[0], others[1..];
      }
    }

    method Begin(readonly: bool) returns (j: Option<Job>)
      requires Valid()
      modifies this`open, this`begun
      ensures Valid()
      ensures j == None ==> open == old(open) && begun == old(begun) && !reliable
      ensures j.Some? ==>
                && j.value == Job(old(begun), readonly) && begun == old(begun) + 1
                && j.value !in old(open) && open == old(open) + {j.value}
    {
      var fails := Fails();
      if fails {
        return None;
      }
      var job := Job(begun, readonly);
      open, begun := open + {job}, begun + 1;
      return Some(job);
    }

    /** A job that was rolled back is done with, even if the rollback reports an error. */
    method Rollback(j: Job) returns (ok: bool)
      modifies this`open
      ensures open == old(open) - {j} && (reliable ==> ok)
    {
      open := open - {j};
      var fails := Fails();
      return !fails;
    }

    /** After a commit that reports an error the write may or may not be there, and the job is still to be rolled back. */
    method Commit(j: Job, userId: int64, u: User) returns (ok: bool)
      requires !j.readonly && j in open
      modifies this`open, this`users
      ensures ok ==> open == old(open) - {j} && users == old(users)[userId := u]
      ensures !ok ==> open == old(open) && (users == old(users) || users == old(users)[userId := u])
      ensures reliable ==> ok
    {
      var fails := Fails();
      if !fails {
        open := open - {j};
        users := users[userId := u];
        return true;
      }
      var written := Fails();
      if written {
        users := users[userId := u];
      }
      return false;
    }
  }

  datatype TokenInfo = TokenInfo(userId: int64, tokenId: int64)

  datatype Start = Start(job: Job, user: Option<User>)

  predicate Authentic(users: map<int64, User>, tok: TokenInfo) {
    tok.userId in users && TokenIndex(users[tok.userId].tokens, tok.tokenId).Some?
  }

  function Row(users: map<int64, User>, tok: TokenInfo): User
    requires Authentic(users, tok)
  {
    users[tok.userId]
  }

  function Index(users: map<int64, User>, tok: TokenInfo): nat
    requires Authentic(users, tok)
    ensures Index(users, tok) < |Row(users, tok).tokens|
  {
    TokenIndex(users[tok.userId].tokens, tok.tokenId).value
  }

  /** The users with this one refreshed. */
  function AllRefreshed(users: map<int64, User>, tok: TokenInfo, now: Time): map<int64, User>
    requires Authentic(users, tok)
  {
    users[tok.userId := Refreshed(Row(users, tok), Index(users, tok), now)]
  }

  /** The times are to be written down. */
  predicate Due(users: map<int64, User>, tok: TokenInfo, now: Time) {
    Authentic(users, tok) && NeedsRefresh(Row(users, tok), Index(users, tok), now)
  }

  lemma AllRefreshedIsFresh(users: map<int64, User>, tok: TokenInfo, now: Time)
    requires Authentic(users, tok)
    ensures Authentic(AllRefreshed(users, tok, now), tok) && !Due(AllRefreshed(users, tok, now), tok, now)
    ensures !Due(users, tok, now) ==> AllRefreshed(users, tok, now) == users
  {
    RefreshedIsFresh(Row(users, tok), tok.tokenId, now);
  }

  /** `validateAndUpdateUserAndToken` on the database, whose find may fail. */
  method Check(db: Database, tok: TokenInfo, now: Time) returns (r: Result<(User, bool), AuthError>)
    ensures r.Ok? ==> Authentic(db.users, tok)
    ensures r.Ok? ==>
              && r.value.1 == Due(db.users, tok, now) && (!r.value.1 ==> r.value.0 == Row(db.users, tok))
              && db.users[tok.userId := r.value.0] == AllRefreshed(db.users, tok, now)
              && Authentic(AllRefreshed(db.users, tok, now), tok) && !Due(AllRefreshed(db.users, tok, now), tok, now)
              && (!r.value.1 ==> db.users == AllRefreshed(db.users, tok, now))
    ensures r.Err? ==> if r.error == CannotFind then !db.reliable
                       else r.error in {NoUser, NoToken} && !Authentic(db.users, tok)
  {
    hide Refreshed, NeedsRefresh;
    var fails := db.Fails();
    if fails {
      return Err(CannotFind);
    }
    r := ValidateAndUpdate(db.users, tok.userId, tok.tokenId, now);
    if r.Ok? {
      AllRefreshedIsFresh(db.users, tok, now);
      if !r.value.1 {
        SameRow(db.users, tok, now);
      }
    }
  }

  /** The end of a round: the row is written and committed, or the job is rolled back. */
  method WriteTimes(db: Database, j: Job, userId: int64, u: User) returns (e: Option<AuthError>)
    requires db.Valid() && !j.readonly && j in db.open
    modifies db`open, db`users
    ensures db.Valid() && db.open == old(db.open) - {j}
    ensures e == None ==> db.users == old(db.users)[userId := u]
    ensures e.Some? ==>
              && !db.reliable && e.value in {CannotUpdate, CannotCommit}
              && (db.users == old(db.users) || db.users == old(db.users)[userId := u])
  {
    var fails := db.Fails();
    if fails {
      var _ := db.Rollback(j);
      return Some(CannotUpdate);
    }
    var committed := db.Commit(j, userId, u);
    if !committed {
      var _ := db.Rollback(j);
      return Some(CannotCommit);
    }
    return None;
  }

  /** The second half of a round: the check once more, with the row locked, and the write. */
  method WriteRound(db: Database, j: Job, tok: TokenInfo, now: Time) returns (e: Option<AuthError>)
    requires db.Valid() && !j.readonly && j in db.open
    modifies db`open, db`users, db`others
    ensures db.Valid() && db.open == old(db.open) - {j}
    ensures e == None ==> Authentic(db.users, tok) && !Due(db.users, tok, now)
    ensures db.others == old(db.others) || |db.others| < |old(db.others)|
    ensures db.others == old(db.others) && e == None ==>
              Authentic(old(db.users), tok) && db.users == AllRefreshed(old(db.users), tok, now)
    ensures db.others == old(db.others) && e.Some? ==>
              || db.users == old(db.users)
              || (Authentic(old(db.users), tok) && db.users == AllRefreshed(old(db.users), tok, now))
    ensures db.others == old(db.others) && e.Some? && (db.reliable || e == Some(NotUpdated)) ==>
              !Authentic(old(db.users), tok) || !Due(old(db.users), tok, now)
  {
    hide AllRefreshed, Authentic, Due, Row;
    db.Interfere();
    var checked := Check(db, tok, now);
    if checked.Err? {
      var _ := db.Rollback(j);
      return Some(checked.error);
    }
    var (u, updated) := checked.value;
    if !updated {
      var _ := db.Rollback(j);
      return Some(NotUpdated);
    }
    e := WriteTimes(db, j, tok.userId, u);
  }

  /** `authedJobInternal`. Whatever fails and whoever interferes, it returns with one more open job, of the kind
      asked for, or with none; and the user it returns is as stored, and fresh. Left alone it ends in the second
      round at the latest, and all it may have changed is the times. */
  method AuthedJob(db: Database, tok: Option<TokenInfo>, now: Time, readonly: bool) returns (r: Result<Start, AuthError>)
    requires db.Valid()
    modifies db
    ensures db.Valid()
    ensures r.Ok? ==>
              && r.value.job !in old(db.open) && db.open == old(db.open) + {r.value.job} && r.value.job.readonly == readonly
    ensures r.Err? ==> db.open == old(db.open)
    ensures r.Ok? && tok == None ==> r.value.user == None
    ensures r.Ok? && tok.Some? ==>
              && Authentic(db.users, tok.value) && !Due(db.users, tok.value, now)
              && r.value.user == Some(Row(db.users, tok.value))
    ensures old(db.others) == [] ==> db.begun <= old(db.begun) + 3 && (r.Err? ==> r.error != NotUpdated)
    ensures old(db.others) == [] && r.Ok? ==>
              if tok == None then db.users == old(db.users)
              else Authentic(old(db.users), tok.value) && db.users == AllRefreshed(old(db.users), tok.value, now)
    ensures old(db.others) == [] && r.Err? ==>
              || db.users == old(db.users)
              || (tok.Some? && Authentic(old(db.users), tok.value)
                  && db.users == AllRefreshed(old(db.users), tok.value, now))
    ensures old(db.others) == [] && db.reliable ==> (r.Ok? <==> tok == None || Authentic(old(db.users), tok.value))
  {
    hide AllRefreshed, Authentic, Due, Row;
    ghost var users0, open0, alone := db.users, db.open, db.others == [];
    ghost var rounds := 0;
    while true
      invariant db.Valid() && db.open == open0
      invariant alone ==> db.others == [] && rounds <= 1 && db.begun <= old(db.begun) + 2 * rounds
      invariant rounds == 0 ==> db.users == users0
      invariant alone && rounds == 1 ==>
        && tok.Some? && Authentic(users0, tok.value) && db.users == AllRefreshed(users0, tok.value, now)
        && !Due(db.users, tok.value, now) && Authentic(db.users, tok.value)
      decreases |db.others|, if tok.Some? && Due(db.users, tok.value, now) then 1 else 0
    {
      db.Interfere();
      var begun := db.Begin(readonly);
      if begun == None {
        return Err(CannotBegin);
      }
      var j := begun.value;
      if tok == None {
        return Ok(Start(j, None));
      }
      var checked := Check(db, tok.value, now);
      if checked.Err? {
        var _ := db.Rollback(j);
        assert db.open == open0;
        return Err(checked.error);
      }
      var (u, updated) := checked.value;
      if !updated {
        return Ok(Start(j, Some(u)));
      }
      if readonly {
        var rolledBack := db.Rollback(j);
        assert db.open == open0;
        if !rolledBack {
          return Err(CannotRollback);
        }
        var again := db.Begin(false);
        if again == None {
          return Err(CannotBegin);
        }
        j := again.value;
      }
      var failed := WriteRound(db, j, tok.value, now);
      if failed.Some? {
        assert db.open == open0;
        return Err(failed.value);
      }
      assert db.open == open0;
      rounds := rounds + 1;
    }
  }

  /** A row that needs no refresh is returned as it is. */
  lemma SameRow(users: map<int64, User>, tok: TokenInfo, now: Time)
    requires Authentic(users, tok) && !Due(users, tok, now)
    ensures Refreshed(Row(users, tok), Index(users, tok), now) == Row(users, tok)
  {
  }
}
