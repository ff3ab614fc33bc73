/** The tokens of a user: signing in (be/tasks/auth_user_task.go) and out (be/tasks/unauth_user_task.go). */
module UserTokens {
  import opened Auth
  import opened Lists
  import opened Prelude
  import opened Users

  const MAX_USER_TOKENS := 10

  /** `userTokens.Less`: was `a` seen before `b`? A token without a time counts as seen last. */
  predicate Less(a: Token, b: Token) {
    if a.lastSeen == None then false
    else if b.lastSeen == None then true
    else if a.lastSeen.value.seconds < b.lastSeen.value.seconds then true
    else if a.lastSeen.value.seconds == b.lastSeen.value.seconds then a.lastSeen.value.nanos < b.lastSeen.value.nanos
    else false
  }

  /** As `sort.Reverse` leaves the tokens: none was seen before one further on. */
  predicate LatestFirst(s: seq<Token>) {
    forall i, k :: 0 <= i < k < |s| ==> !Less(s[i], s[k])
  }

  /** `Less` sorts: it is a strict weak order. */
  lemma LessOrders(a: Token, b: Token, c: Token)
    ensures !Less(a, a) && (Less(a, b) ==> !Less(b, a))
    ensures Less(a, b) && Less(b, c) ==> Less(a, c)
    ensures !Less(a, b) && !Less(b, c) ==> !Less(a, c)
  {
  }

  predicate ValidTime(t: Token) { t.lastSeen.Some? ==> 0 <= t.lastSeen.value.nanos < 1_000_000_000 }

  /** On times whose nanoseconds make less than a second it compares instants, a missing one being the last. */
  lemma LessIsEarlier(a: Token, b: Token)
    requires ValidTime(a) && ValidTime(b)
    ensures Less(a, b) <==>
              a.lastSeen.Some? && (b.lastSeen == None || a.lastSeen.value.Nanos() < b.lastSeen.value.Nanos())
  {
  }

  function NotBefore(): (Token, Token) -> bool { (a: Token, b: Token) => !Less(a, b) }

  /** `sort.Sort(sort.Reverse(...))`, in some order where times are equal. */
  method SortTokens(tokens: seq<Token>) returns (r: seq<Token>)
    ensures LatestFirst(r) && multiset(r) == multiset(tokens)
  {
    hide Sort, Less;
    r := Sort(tokens, NotBefore());
    forall a: Token, b: Token, c: Token
      ensures !Less(a, b) && !Less(b, c) ==> !Less(a, c)
      ensures !Less(a, b) || !Less(b, a)
    {
      LessOrders(a, b, c);
    }
    SortKeeps(tokens, NotBefore());
    SortAscending(tokens, NotBefore());
    assert forall i, k :: 0 <= i < k < |r| ==> NotBefore()(r[i], r[k]);
  }

  // Counting tokens by what holds of them

  function LaterThan(t: Token): Token -> bool { (x: Token) => Less(t, x) }

  function NotEarlierThan(t: Token): Token -> bool { (x: Token) => !Less(x, t) }

  function Later(tokens: seq<Token>, t: Token): nat { |Select(tokens, LaterThan(t))| }

  function NotEarlier(tokens: seq<Token>, t: Token): nat { |Select(tokens, NotEarlierThan(t))| }

  /** Another token than the one signed in with, seen after now, or at a time that is not known. */
  function SeenAfter(id: int64, now: Time): Token -> bool {
    (x: Token) =>
      x.id != id
      && (x.lastSeen == None || x.lastSeen.value.seconds > now.seconds
          || (x.lastSeen.value.seconds == now.seconds && x.lastSeen.value.nanos > now.nanos))
  }

  /** The same, or seen just now. */
  function SeenSince(id: int64, now: Time): Token -> bool {
    (x: Token) =>
      x.id != id
      && (x.lastSeen == None || x.lastSeen.value.seconds > now.seconds
          || (x.lastSeen.value.seconds == now.seconds && x.lastSeen.value.nanos >= now.nanos))
  }

  // `AuthUserTask.Run`, once the user has been looked up and the password compared

  datatype TokenError = CannotFindToken | NewTokenDropped | TokenNotFound

  /** The id of the next token; after the last int64 it wraps. */
  function NextId(id: int64): int64 {
    if id == MAX_INT64 then MIN_INT64 else id + 1
  }

  /** All tokens before they are cut down: with a new one, or with the time of one set. */
  ghost predicate WithNew(tokens: seq<Token>, login: bool, id: int64, now: Time, all: multiset<Token>) {
    if login then all == multiset(tokens) + multiset{Token(id, Some(now))}
    else exists i :: 0 <= i < |tokens| && tokens[i].id == id && all == multiset(tokens[i := Token(id, Some(now))])
  }

  /** One token was last seen no later than another; a time that is not known is the latest. */
  predicate SeenNoLater(a: Token, b: Token) {
    b.lastSeen.Some? ==>
      && a.lastSeen.Some? && a.lastSeen.value.seconds <= b.lastSeen.value.seconds
      && (a.lastSeen.value.seconds == b.lastSeen.value.seconds ==> a.lastSeen.value.nanos <= b.lastSeen.value.nanos)
  }

  /** What signing in leaves: of the user's tokens and the new one, or of the tokens with the time of one set, ten at
      most, latest first, the one signed in with among them. Some are dropped only when there are more than ten, and
      those were seen no later than any that are kept. */
  ghost predicate SignedIn(u: User, u': User, login: bool, newId: int64, dropped: seq<Token>, now: Time) {
    && u'.lastSeen == Some(now) && u'.modified == now
    && u'.nextTokenId == (if login then newId else u.nextTokenId)
    && WithNew(u.tokens, login, newId, now, multiset(u'.tokens + dropped))
    && |u'.tokens| <= MAX_USER_TOKENS && (dropped != [] ==> |u'.tokens| == MAX_USER_TOKENS)
    && (forall i, k :: 0 <= i < k < |u'.tokens| ==> SeenNoLater(u'.tokens[k], u'.tokens[i]))
    && (forall d, k :: 0 <= d < |dropped| && 0 <= k < |u'.tokens| ==> SeenNoLater(dropped[d], u'.tokens[k]))
    && Token(newId, Some(now)) in u'.tokens
  }

  method AuthUser(u: User, login: bool, tokenId: int64, now: Time)
    returns (r: Result<(User, int64), TokenError>, ghost dropped: seq<Token>)
    requires DistinctIds(u.tokens) && (login ==> !HasToken(u.tokens, NextId(u.nextTokenId)))
    ensures r == Err(CannotFindToken) <==> !login && (tokenId == 0 || !HasToken(u.tokens, tokenId))
    ensures r.Ok? && login ==>
              r.value.1 == if u.nextTokenId < MAX_INT64 then u.nextTokenId + 1 else -0x8000_0000_0000_0000
    ensures r.Ok? && !login ==> r.value.1 == tokenId
    ensures r.Ok? ==> SignedIn(u, r.value.0, login, r.value.1, dropped, now)
    ensures r.Err? ==> r.error in {CannotFindToken, NewTokenDropped}
    ensures var id := if login then NextId(u.nextTokenId) else tokenId;
            && (r == Err(NewTokenDropped) ==> |Select(u.tokens, SeenSince(id, now))| >= MAX_USER_TOKENS)
            && (r != Err(CannotFindToken) && |Select(u.tokens, SeenAfter(id, now))| >= MAX_USER_TOKENS ==>
                  r == Err(NewTokenDropped))
  {
    hide Less, Later, NotEarlier, LatestFirst, WithNew, SeenNoLater, SeenSince, SeenAfter, Select;
    var user := u;
    var newTokenId: int64 := 0;
    dropped := [];
    if login {
      user := user.(nextTokenId := NextId(user.nextTokenId));
      newTokenId := user.nextTokenId;
      user := user.(tokens := user.tokens + [Token(user.nextTokenId, Some(now))]);
      AddedToken(u.tokens, newTokenId, now);
    } else {
      for i := 0 to |user.tokens|
        invariant user == u && newTokenId == 0 && forall k :: 0 <= k < i ==> u.tokens[k].id != tokenId
      {
        if user.tokens[i].id == tokenId {
          user := user.(tokens := user.tokens[i := user.tokens[i].(lastSeen := Some(now))]);
          newTokenId := tokenId;
          RefreshedToken(u.tokens, i, now);
          break;
        }
      }
      if newTokenId == 0 {
        return Err(CannotFindToken), dropped;
      }
    }
    ghost var all := user.tokens;
    var sorted := SortTokens(user.tokens);
    SortedHasNew(all, sorted, newTokenId, now);
    user := user.(tokens := sorted);
    if |user.tokens| > MAX_USER_TOKENS {
      for i := MAX_USER_TOKENS to |user.tokens|
        invariant forall k :: MAX_USER_TOKENS <= k < i ==> user.tokens[k].id != newTokenId
      {
        if user.tokens[i].id == newTokenId {
          NewAt(all, sorted, newTokenId, now, i);
          return Err(NewTokenDropped), dropped;
        }
      }
      dropped := user.tokens[MAX_USER_TOKENS..];
      user := user.(tokens := user.tokens[..MAX_USER_TOKENS]);
    }
    Cut(all, sorted, user.tokens, dropped, newTokenId, now);
    user := user.(lastSeen := Some(now), modified := now);
    return Ok((user, newTokenId)), dropped;
  }

  /** The tokens with the one signed in with, and their counts by the counts of the others. */
  ghost predicate AllTokens(tokens: seq<Token>, login: bool, id: int64, now: Time, all: seq<Token>) {
    && WithNew(tokens, login, id, now, multiset(all)) && Token(id, Some(now)) in all && DistinctIds(all)
    && NotEarlier(all, Seen(now)) == |Select(tokens, SeenSince(id, now))| + 1
    && Later(all, Seen(now)) == |Select(tokens, SeenAfter(id, now))|
  }

  /** Any token seen now. */
  function Seen(now: Time): Token { Token(0, Some(now)) }

  lemma NoLater(a: Token, b: Token)
    ensures SeenNoLater(a, b) <==> !Less(b, a)
  {
  }

  lemma OtherCounts(all: seq<Token>, i: nat, rest: seq<Token>, id: int64, now: Time)
    requires i < |all| && all[i] == Token(id, Some(now)) && rest == all[..i] + all[i + 1..] && !HasToken(rest, id)
    ensures NotEarlier(all, Seen(now)) == |Select(rest, SeenSince(id, now))| + 1
    ensures Later(all, Seen(now)) == |Select(rest, SeenAfter(id, now))|
  {
    hide Select;
    CountRemove(all, i, NotEarlierThan(Seen(now)));
    CountRemove(all, i, LaterThan(Seen(now)));
    SelectSame(rest, NotEarlierThan(Seen(now)), SeenSince(id, now));
    SelectSame(rest, LaterThan(Seen(now)), SeenAfter(id, now));
  }

  lemma AddedToken(tokens: seq<Token>, id: int64, now: Time)
    requires DistinctIds(tokens) && !HasToken(tokens, id)
    ensures AllTokens(tokens, true, id, now, tokens + [Token(id, Some(now))])
  {
    hide Later, NotEarlier, SeenSince, SeenAfter, Select;
    var all, n := tokens + [Token(id, Some(now))], |tokens|;
    assert all[n] == Token(id, Some(now)) && all[..n] + all[n + 1..] == tokens;
    OtherCounts(all, n, tokens, id, now);
  }

  lemma RefreshedToken(tokens: seq<Token>, i: nat, now: Time)
    requires DistinctIds(tokens) && i < |tokens|
    ensures AllTokens(tokens, false, tokens[i].id, now, tokens[i := tokens[i].(lastSeen := Some(now))])
  {
    hide Later, NotEarlier, Select;
    var id := tokens[i].id;
    var all, rest := tokens[i := Token(id, Some(now))], tokens[..i] + tokens[i + 1..];
    assert all[i] == Token(id, Some(now)) && all[..i] + all[i + 1..] == rest;
    assert forall k :: 0 <= k < |rest| ==> rest[k] == tokens[if k < i then k else k + 1];
    OtherCounts(all, i, rest, id, now);
    CountRemove(tokens, i, SeenSince(id, now));
    CountRemove(tokens, i, SeenAfter(id, now));
  }

  lemma OneToken(all: seq<Token>, a: Token, b: Token)
    requires DistinctIds(all) && a in all && b in all && a.id == b.id
    ensures a == b
  {
  }

  lemma SortedHasNew(all: seq<Token>, sorted: seq<Token>, newId: int64, now: Time)
    requires multiset(sorted) == multiset(all) && Token(newId, Some(now)) in all && DistinctIds(all)
    ensures |sorted| == |all| && Token(newId, Some(now)) in sorted
    ensures forall k :: 0 <= k < |sorted| && sorted[k].id == newId ==> sorted[k] == Token(newId, Some(now))
  {
    var t := Token(newId, Some(now));
    assert |multiset(sorted)| == |multiset(all)|;
    assert t in multiset(sorted);
    forall k | 0 <= k < |sorted| && sorted[k].id == newId ensures sorted[k] == t {
      assert sorted[k] in multiset(all);
      OneToken(all, sorted[k], t);
    }
  }

  /** Up to a token in the sorted list none was seen earlier. */
  lemma NewAt(all: seq<Token>, sorted: seq<Token>, newId: int64, now: Time, k: nat)
    requires multiset(sorted) == multiset(all) && LatestFirst(sorted)
    requires k < |sorted| && sorted[k] == Token(newId, Some(now))
    ensures NotEarlier(all, Seen(now)) > k
  {
    var any := Seen(now);
    var upTo, rest := sorted[..k + 1], sorted[k + 1..];
    forall i | 0 <= i < |upTo| ensures !Less(upTo[i], any) {
      assert upTo[i] == sorted[i] && (i == k || !Less(sorted[i], sorted[k]));
    }
    hide Less, LatestFirst, Select;
    assert sorted == upTo + rest;
    CountPermute(sorted, all, NotEarlierThan(any));
    SelectConcat(upTo, rest, NotEarlierThan(any));
    SelectAll(upTo, NotEarlierThan(any));
  }

  /** From a token in the sorted list on none was seen later. */
  lemma NoneLaterFrom(all: seq<Token>, sorted: seq<Token>, newId: int64, now: Time, k: nat)
    requires multiset(sorted) == multiset(all) && LatestFirst(sorted)
    requires k < |sorted| && sorted[k] == Token(newId, Some(now))
    ensures Later(all, Seen(now)) <= k
  {
    var any := Seen(now);
    var front, back := sorted[..k], sorted[k..];
    forall i | 0 <= i < |back| ensures !Less(any, back[i]) {
      assert back[i] == sorted[k + i] && (i == 0 || !Less(sorted[k], sorted[k + i]));
    }
    hide Less, LatestFirst, Select;
    assert sorted == front + back;
    CountPermute(sorted, all, LaterThan(any));
    SelectConcat(front, back, LaterThan(any));
    SelectNone(back, LaterThan(any));
  }

  lemma Cut(all: seq<Token>, sorted: seq<Token>, kept: seq<Token>, dropped: seq<Token>, newId: int64, now: Time)
    requires multiset(sorted) == multiset(all) && LatestFirst(sorted) && sorted == kept + dropped
    requires Token(newId, Some(now)) in sorted && |kept| <= MAX_USER_TOKENS
    requires forall k :: |kept| <= k < |sorted| ==> sorted[k].id != newId
    ensures multiset(all) == multiset(kept + dropped)
    ensures forall i, k :: 0 <= i < k < |kept| ==> SeenNoLater(kept[k], kept[i])
    ensures forall d, k :: 0 <= d < |dropped| && 0 <= k < |kept| ==> SeenNoLater(dropped[d], kept[k])
    ensures Token(newId, Some(now)) in kept && Later(all, Seen(now)) < MAX_USER_TOKENS
  {
    var i :| 0 <= i < |sorted| && sorted[i] == Token(newId, Some(now));
    assert kept[i] == sorted[i];
    NoneLaterFrom(all, sorted, newId, now, i);
    hide Less, SeenNoLater;
    assert forall k :: 0 <= k < |kept| ==> kept[k] == sorted[k];
    forall i, k | 0 <= i < k < |kept| ensures SeenNoLater(kept[k], kept[i]) {
      NoLater(sorted[k], sorted[i]);
    }
    forall d, k | 0 <= d < |dropped| && 0 <= k < |kept| ensures SeenNoLater(dropped[d], kept[k]) {
      assert sorted[k] == kept[k] && sorted[|kept| + d] == dropped[d];
      NoLater(sorted[|kept| + d], sorted[k]);
    }
  }

  // `UnauthUserTask.Run`

  method UnauthUser(u: User, tokenId: int64, now: Time) returns (r: Result<User, TokenError>)
    requires DistinctIds(u.tokens)
    ensures r == Err(TokenNotFound) <==> !HasToken(u.tokens, tokenId)
    ensures r.Err? ==> r.error == TokenNotFound
    ensures r.Ok? ==> SignedOut(u, r.value, tokenId) && r.value.lastSeen == Some(now) && r.value.modified == now
  {
    var pos := -1;
    for i := 0 to |u.tokens|
      invariant pos == -1 && forall k :: 0 <= k < i ==> u.tokens[k].id != tokenId
    {
      if u.tokens[i].id == tokenId {
        pos := i;
        break;
      }
    }
    if pos == -1 {
      return Err(TokenNotFound);
    }
    var user := u.(tokens := u.tokens[..pos] + u.tokens[pos + 1..]);
    RemovedOne(u.tokens, pos);
    user := user.(lastSeen := Some(now), modified := now);
    return Ok(user);
  }

  /** One token is gone, the others are as they were, in the same order. */
  ghost predicate SignedOut(u: User, u': User, tokenId: int64) {
    && !HasToken(u'.tokens, tokenId) && u'.nextTokenId == u.nextTokenId
    && (exists t: Token :: t.id == tokenId && multiset(u.tokens) == multiset(u'.tokens) + multiset{t})
    && |u'.tokens| == |u.tokens| - 1
    && forall i, k :: 0 <= i < k < |u'.tokens| ==> Before(u.tokens, u'.tokens[i], u'.tokens[k])
  }

  predicate Before(tokens: seq<Token>, a: Token, b: Token) {
    exists i, k :: 0 <= i < k < |tokens| && tokens[i] == a && tokens[k] == b
  }

  lemma RemovedOne(tokens: seq<Token>, pos: nat)
    requires DistinctIds(tokens) && pos < |tokens|
    ensures var rest := tokens[..pos] + tokens[pos + 1..];
            && !HasToken(rest, tokens[pos].id)
            && multiset(tokens) == multiset(rest) + multiset{tokens[pos]}
            && forall i, k :: 0 <= i < k < |rest| ==> Before(tokens, rest[i], rest[k])
  {
    var rest := tokens[..pos] + tokens[pos + 1..];
    MultisetRemove(tokens, pos);
    forall i, k | 0 <= i < k < |rest| ensures Before(tokens, rest[i], rest[k]) {
      var a, b := if i < pos then i else i + 1, if k < pos then k else k + 1;
      assert tokens[a] == rest[i] && tokens[b] == rest[k];
    }
  }

  // Every run

  /** Tokens are at most ten, their ids differ, and all were given out before the next one. */
  ghost predicate Kept(u: User) {
    && DistinctIds(u.tokens) && |u.tokens| <= MAX_USER_TOKENS && u.nextTokenId >= 0
    && forall i :: 0 <= i < |u.tokens| ==> 1 <= u.tokens[i].id <= u.nextTokenId
  }

  /** A committed change to the row: signing in with a password or with a token, signing out, a refresh of the times
      by any other task, or none to what matters here. */
  ghost predicate Step(u: User, u': User) {
    || (exists login, newId, dropped, now ::
          && (if login then newId == NextId(u.nextTokenId) else newId != 0 && HasToken(u.tokens, newId))
          && SignedIn(u, u', login, newId, dropped, now))
    || (exists tokenId :: SignedOut(u, u', tokenId))
    || (exists tokenId, now ::
          TokenIndex(u.tokens, tokenId).Some? && u' == Refreshed(u, TokenIndex(u.tokens, tokenId).value, now))
    || (u'.tokens == u.tokens && u'.nextTokenId == u.nextTokenId)
  }

  /** A part of a list of different tokens holds different tokens. */
  lemma PartDistinct(all: seq<Token>, kept: seq<Token>, dropped: seq<Token>)
    requires DistinctIds(all) && multiset(all) == multiset(kept + dropped)
    ensures DistinctIds(kept) && forall k :: 0 <= k < |kept| ==> kept[k] in all
  {
    forall k | 0 <= k < |kept| ensures kept[k] in all {
      assert (kept + dropped)[k] == kept[k];
      assert kept[k] in multiset(all);
    }
    forall i, k | 0 <= i < k < |kept| ensures kept[i].id != kept[k].id {
      if kept[i].id == kept[k].id {
        OneToken(all, kept[i], kept[k]);
        TwiceInMultiset(kept + dropped, i, k);
        OnceInMultiset(all, kept[i]);
        assert false;
      }
    }
  }

  /** The tokens before they are cut down, as a list. */
  lemma AllKept(u: User, login: bool, newId: int64, now: Time, bag: multiset<Token>) returns (all: seq<Token>)
    requires Kept(u) && WithNew(u.tokens, login, newId, now, bag) && (login ==> newId == u.nextTokenId + 1)
    ensures multiset(all) == bag && KeptBelow(all, if login then newId else u.nextTokenId)
  {
    if login {
      all := u.tokens + [Token(newId, Some(now))];
      hide WithNew;
      MoreKept(u.tokens, u.nextTokenId, newId, now);
    } else {
      var i :| 0 <= i < |u.tokens| && u.tokens[i].id == newId && bag == multiset(u.tokens[i := Token(newId, Some(now))]);
      all := u.tokens[i := Token(newId, Some(now))];
      hide WithNew;
      SameKept(u.tokens, i, u.nextTokenId, now);
    }
  }

  ghost predicate KeptBelow(tokens: seq<Token>, last: int64) {
    DistinctIds(tokens) && forall i :: 0 <= i < |tokens| ==> 1 <= tokens[i].id <= last
  }

  lemma MoreKept(tokens: seq<Token>, last: int64, newId: int64, now: Time)
    requires KeptBelow(tokens, last) && newId == last + 1 && last >= 0
    ensures KeptBelow(tokens + [Token(newId, Some(now))], newId)
  {
  }

  lemma SameKept(tokens: seq<Token>, i: nat, last: int64, now: Time)
    requires KeptBelow(tokens, last) && i < |tokens|
    ensures KeptBelow(tokens[i := Token(tokens[i].id, Some(now))], last)
  {
    var all := tokens[i := Token(tokens[i].id, Some(now))];
    assert forall k :: 0 <= k < |all| ==> all[k].id == tokens[k].id;
  }

  lemma SignedInKeeps(u: User, u': User, login: bool, newId: int64, dropped: seq<Token>, now: Time)
    requires Kept(u) && u.nextTokenId < MAX_INT64 && (login ==> newId == NextId(u.nextTokenId))
    requires SignedIn(u, u', login, newId, dropped, now)
    ensures Kept(u') && u.nextTokenId <= u'.nextTokenId <= u.nextTokenId + 1
  {
    hide SeenNoLater, DistinctIds, WithNew;
    var all := AllKept(u, login, newId, now, multiset(u'.tokens + dropped));
    PartDistinct(all, u'.tokens, dropped);
    forall k | 0 <= k < |u'.tokens| ensures 1 <= u'.tokens[k].id <= u'.nextTokenId {
      assert u'.tokens[k] in all;
    }
  }

  lemma SignedOutKeeps(u: User, u': User, tokenId: int64)
    requires Kept(u) && SignedOut(u, u', tokenId)
    ensures Kept(u')
  {
    hide Before, DistinctIds;
    var t: Token :| t.id == tokenId && multiset(u.tokens) == multiset(u'.tokens) + multiset{t};
    assert multiset(u.tokens) == multiset(u'.tokens + [t]);
    PartDistinct(u.tokens, u'.tokens, [t]);
    forall k | 0 <= k < |u'.tokens| ensures 1 <= u'.tokens[k].id <= u'.nextTokenId {
      assert u'.tokens[k] in u.tokens;
    }
  }

  lemma RefreshedKeeps(u: User, i: nat, now: Time)
    requires Kept(u) && i < |u.tokens|
    ensures Kept(Refreshed(u, i, now)) && Refreshed(u, i, now).nextTokenId == u.nextTokenId
  {
  }

  lemma StepKeeps(u: User, u': User)
    requires Kept(u) && u.nextTokenId < MAX_INT64 && Step(u, u')
    ensures Kept(u') && u.nextTokenId <= u'.nextTokenId <= u.nextTokenId + 1
  {
    hide SignedIn, Refreshed, TokenIndex;
    if login, newId, dropped, now :|
      && (if login then newId == NextId(u.nextTokenId) else newId != 0 && HasToken(u.tokens, newId))
      && SignedIn(u, u', login, newId, dropped, now)
    {
      SignedInKeeps(u, u', login, newId, dropped, now);
    } else if tokenId :| SignedOut(u, u', tokenId) {
      SignedOutKeeps(u, u', tokenId);
    } else if tokenId, now :|
      TokenIndex(u.tokens, tokenId).Some? && u' == Refreshed(u, TokenIndex(u.tokens, tokenId).value, now)
    {
      RefreshedKeeps(u, TokenIndex(u.tokens, tokenId).value, now);
    }
  }

  /** Over every run from a new user on, through fewer than 2^63 steps: never more than ten tokens, all ids
      different and none above the last one given. */
  lemma {:induction false} RunKeeps(run: seq<User>, n: nat)
    requires n < |run| <= MAX_INT64 && run[0].tokens == [] && run[0].nextTokenId == 0
    requires forall i :: 0 <= i < |run| - 1 ==> Step(run[i], run[i + 1])
    ensures Kept(run[n]) && run[n].nextTokenId <= n
  {
    hide Step;
    if n > 0 {
      RunKeeps(run, n - 1);
      StepKeeps(run[n - 1], run[n]);
    }
  }
}
