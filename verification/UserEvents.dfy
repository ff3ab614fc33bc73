/** Listing a user's events through a filter, in batches (be/tasks/find_user_events_task.go). */
module UserEvents {
  import opened Lists
  import opened Prelude
  import Indexes
  import IndexPager
  import Notifications

  datatype Event = Event(userId: int64, createdTs: int64, index: int64, evt: Notifications.Note)

  datatype Key = Key(userId: int64, createdTs: int64, index: int64)

  function KeyOf(e: Event): Key { Key(e.userId, e.createdTs, e.index) }

  predicate Less(a: Key, b: Key) {
    a.userId < b.userId
    || (a.userId == b.userId && (a.createdTs < b.createdTs || (a.createdTs == b.createdTs && a.index < b.index)))
  }

  /** The rows of the table in key order. */
  ghost predicate Table(rows: seq<Event>) {
    forall i, j :: 0 <= i < j < |rows| ==> Less(KeyOf(rows[i]), KeyOf(rows[j]))
  }

  // The filter

  datatype Cap = ReadAll | ReadSelf | ReadPublic | ReadPicVote | ReadPicComment | ReadPics

  datatype Cred = Cred(subject: int64, caps: set<Cap>)

  /** The cases of `filterUserEvents`. */
  predicate Visible(e: Event, c: Cred) {
    || ReadAll in c.caps
    || (c.subject == e.userId && ReadSelf in c.caps)
    || match e.evt
       case OutgoingVote(_) => ReadPublic in c.caps && ReadPicVote in c.caps
       case OutgoingComment(_, _) => ReadPublic in c.caps && ReadPicComment in c.caps
       case UpsertPic(_) => ReadPublic in c.caps && ReadPics in c.caps
       case _ => false
  }

  function Seen(c: Cred): Event -> bool { e => Visible(e, c) }

  function Filter(es: seq<Event>, c: Cred): seq<Event> { Select(es, Seen(c)) }

  lemma FilterNothing(c: Cred)
    ensures Filter([], c) == []
  {
  }

  /** Who may see which kind of event: everybody's with the capability for all, one's own with the capability for
      those, and of others' the outgoing ones and uploads, each kind with a capability of its own. */
  ghost predicate ShownByKind(e: Event, c: Cred, shown: bool) {
    && (ReadAll in c.caps ==> shown)
    && (c.subject == e.userId && ReadSelf in c.caps ==> shown)
    && (ReadAll !in c.caps && (c.subject != e.userId || ReadSelf !in c.caps) ==>
          && (e.evt.OutgoingVote? ==> (shown <==> ReadPublic in c.caps && ReadPicVote in c.caps))
          && (e.evt.OutgoingComment? ==> (shown <==> ReadPublic in c.caps && ReadPicComment in c.caps))
          && (e.evt.UpsertPic? ==> (shown <==> ReadPublic in c.caps && ReadPics in c.caps))
          && (e.evt.IncomingVote? || e.evt.IncomingComment? ==> !shown))
  }

  lemma FilterByKind(es: seq<Event>, c: Cred)
    ensures forall e :: e in Filter(es, c) ==> e in es && ShownByKind(e, c, true)
    ensures forall e :: e in es ==> ShownByKind(e, c, e in Filter(es, c))
  {
    forall e ensures e in Filter(es, c) <==> e in es && Visible(e, c) {
      SelectMembers(es, Seen(c), e);
    }
  }

  method FilterUserEvents(ues: seq<Event>, c: Cred) returns (dst: seq<Event>)
    ensures dst == Filter(ues, c)
    ensures forall e :: e in dst ==> e in ues
    ensures forall e :: e in ues ==> ShownByKind(e, c, e in dst)
  {
    FilterByKind(ues, c);
    dst := [];
    for i := 0 to |ues|
      invariant dst == Filter(ues[..i], c)
    {
      assert ues[..i + 1][..i] == ues[..i];
      if Visible(ues[i], c) {
        dst := dst + [ues[i]];
      }
    }
    assert ues[..|ues|] == ues;
  }

  // The queries

  datatype Bound = Inc(key: Key) | Ex(key: Key)

  predicate AfterStart(k: Key, start: Bound) {
    match start case Inc(b) => !Less(k, b) case Ex(b) => Less(b, k)
  }

  predicate BeforeStop(k: Key, stop: Bound) {
    match stop case Inc(b) => !Less(b, k) case Ex(b) => Less(k, b)
  }

  function Within(start: Bound, stop: Bound): Event -> bool {
    e => AfterStart(KeyOf(e), start) && BeforeStop(KeyOf(e), stop)
  }

  /** The rows within the bounds, in key order. */
  function Between(rows: seq<Event>, start: Bound, stop: Bound): seq<Event> { Select(rows, Within(start, stop)) }

  /** The rows a scan without a limit would see, in scan order. */
  function Scan(rows: seq<Event>, start: Bound, stop: Bound, asc: bool): seq<Event> {
    var found := Between(rows, start, stop);
    if asc then found else Reverse(found)
  }

  function Find(rows: seq<Event>, start: Bound, stop: Bound, asc: bool, limit: nat): seq<Event> {
    Limited(Scan(rows, start, stop, asc), limit)
  }

  lemma BetweenMembers(rows: seq<Event>, start: Bound, stop: Bound)
    ensures forall e :: e in Between(rows, start, stop)
              <==> e in rows && AfterStart(KeyOf(e), start) && BeforeStop(KeyOf(e), stop)
  {
    hide Select, AfterStart, BeforeStop;
    forall e ensures e in Between(rows, start, stop)
                     <==> e in rows && AfterStart(KeyOf(e), start) && BeforeStop(KeyOf(e), stop)
    {
      SelectMembers(rows, Within(start, stop), e);
    }
  }

  lemma BetweenTable(rows: seq<Event>, start: Bound, stop: Bound)
    requires Table(rows)
    ensures Table(Between(rows, start, stop))
  {
    hide Select, AfterStart, BeforeStop;
    SelectAscending(rows, Within(start, stop), (a, b) => Less(KeyOf(a), KeyOf(b)));
  }

  /** A start that lets through the rows from the k-th on, and nothing outside the range, cuts it there. */
  lemma CutUp(rows: seq<Event>, start: Bound, stop: Bound, start': Bound, k: nat)
    requires Table(rows) && k <= |Between(rows, start, stop)|
    requires forall e :: e in rows && AfterStart(KeyOf(e), start') ==> AfterStart(KeyOf(e), start)
    requires forall i :: 0 <= i < |Between(rows, start, stop)| ==>
               (AfterStart(KeyOf(Between(rows, start, stop)[i]), start') <==> k <= i)
    ensures Between(rows, start', stop) == Between(rows, start, stop)[k..]
  {
    hide Select, AfterStart, BeforeStop;
    var all := Between(rows, start, stop);
    BetweenMembers(rows, start, stop);
    assert forall i :: 0 <= i < |rows| ==> rows[i] in rows;
    SelectNarrow(rows, Within(start, stop), Within(start', stop));
    assert forall i :: 0 <= i < |all| ==> all[i] in all;
    SelectSlice(all, Within(start', stop), k, |all|);
  }

  lemma CutDown(rows: seq<Event>, start: Bound, stop: Bound, stop': Bound, m: nat)
    requires Table(rows) && m <= |Between(rows, start, stop)|
    requires forall e :: e in rows && BeforeStop(KeyOf(e), stop') ==> BeforeStop(KeyOf(e), stop)
    requires forall i :: 0 <= i < |Between(rows, start, stop)| ==>
               (BeforeStop(KeyOf(Between(rows, start, stop)[i]), stop') <==> i < m)
    ensures Between(rows, start, stop') == Between(rows, start, stop)[..m]
  {
    hide Select, AfterStart, BeforeStop;
    var all := Between(rows, start, stop);
    BetweenMembers(rows, start, stop);
    assert forall i :: 0 <= i < |rows| ==> rows[i] in rows;
    SelectNarrow(rows, Within(start, stop), Within(start, stop'));
    assert forall i :: 0 <= i < |all| ==> all[i] in all;
    SelectSlice(all, Within(start, stop'), 0, m);
  }

  /** Moving the start to the j-th row, itself included or not, leaves the rows from it on, or after it. */
  lemma ResumeUp(rows: seq<Event>, start: Bound, stop: Bound, j: nat)
    requires Table(rows) && j < |Between(rows, start, stop)|
    ensures var all := Between(rows, start, stop);
            && Between(rows, Ex(KeyOf(all[j])), stop) == all[j + 1..]
            && Between(rows, Inc(KeyOf(all[j])), stop) == all[j..]
  {
    hide Between;
    var all := Between(rows, start, stop);
    BetweenTable(rows, start, stop);
    BetweenMembers(rows, start, stop);
    assert all[j] in all;
    forall i | 0 <= i < |all|
      ensures AfterStart(KeyOf(all[i]), Ex(KeyOf(all[j]))) <==> j + 1 <= i
      ensures AfterStart(KeyOf(all[i]), Inc(KeyOf(all[j]))) <==> j <= i
    {
      if i < j { assert Less(KeyOf(all[i]), KeyOf(all[j])); }
      if j < i { assert Less(KeyOf(all[j]), KeyOf(all[i])); }
    }
    CutUp(rows, start, stop, Ex(KeyOf(all[j])), j + 1);
    CutUp(rows, start, stop, Inc(KeyOf(all[j])), j);
  }

  lemma ResumeDown(rows: seq<Event>, start: Bound, stop: Bound, j: nat)
    requires Table(rows) && j < |Between(rows, start, stop)|
    ensures var all := Between(rows, start, stop);
            && Between(rows, start, Ex(KeyOf(all[j]))) == all[..j]
            && Between(rows, start, Inc(KeyOf(all[j]))) == all[..j + 1]
  {
    hide Between;
    var all := Between(rows, start, stop);
    BetweenTable(rows, start, stop);
    BetweenMembers(rows, start, stop);
    assert all[j] in all;
    forall i | 0 <= i < |all|
      ensures BeforeStop(KeyOf(all[i]), Ex(KeyOf(all[j]))) <==> i < j
      ensures BeforeStop(KeyOf(all[i]), Inc(KeyOf(all[j]))) <==> i < j + 1
    {
      if i < j { assert Less(KeyOf(all[i]), KeyOf(all[j])); }
      if j < i { assert Less(KeyOf(all[j]), KeyOf(all[i])); }
    }
    CutDown(rows, start, stop, Ex(KeyOf(all[j])), j);
    CutDown(rows, start, stop, Inc(KeyOf(all[j])), j + 1);
  }

  function Moved(b: Bound, to: Bound, move: bool): Bound {
    if move then to else b
  }

  /** In either direction: the bound on the side that the scan comes from is moved to a row it has seen. */
  lemma Resume(rows: seq<Event>, start: Bound, stop: Bound, asc: bool, j: nat)
    requires Table(rows) && j < |Scan(rows, start, stop, asc)|
    ensures var all := Scan(rows, start, stop, asc);
            var (ex, inc) := (Ex(KeyOf(all[j])), Inc(KeyOf(all[j])));
            && Scan(rows, Moved(start, ex, asc), Moved(stop, ex, !asc), asc) == all[j + 1..]
            && Scan(rows, Moved(start, inc, asc), Moved(stop, inc, !asc), asc) == all[j..]
  {
    hide Between, Reverse;
    var up := Between(rows, start, stop);
    if asc {
      ResumeUp(rows, start, stop, j);
    } else {
      ResumeDown(rows, start, stop, |up| - 1 - j);
      ReverseSlices(up, j + 1);
      ReverseSlices(up, j);
    }
  }

  // The batched loop on the list of rows that a scan without a limit would see

  /** The events found, the number of rows scanned, and whether the hard maximum ended the scan. */
  datatype Scanned = Scanned(ues: seq<Event>, rows: nat, cut: bool)

  function Loop(all: seq<Event>, c: Cred, overmax: nat, hardmax: int64, finds: nat): Scanned
    requires finds <= |all|
    decreases |all| - finds
  {
    var batch := |Limited(all[finds..], overmax)|;
    var ues := Filter(all[..finds + batch], c);
    if |ues| >= overmax || batch != overmax then Scanned(First(ues, overmax), finds + batch, false)
    else if finds + batch >= hardmax then Scanned(ues, finds + batch, true)
    else Loop(all, c, overmax, hardmax, finds + batch)
  }

  /** One batch more. */
  lemma LoopMore(all: seq<Event>, c: Cred, overmax: nat, hardmax: int64, finds: nat)
    requires finds <= |all|
    ensures var m := finds + |Limited(all[finds..], overmax)|;
            var ues, more := Filter(all[..m], c), m == finds + overmax;
            && m <= |all|
            && Loop(all, c, overmax, hardmax, finds) == (
                 if |ues| >= overmax || !more then Scanned(First(ues, overmax), m, false)
                 else if m >= hardmax then Scanned(ues, m, true)
                 else Loop(all, c, overmax, hardmax, m))
  {
    hide Filter;
  }

  lemma FilterMore(all: seq<Event>, c: Cred, from: nat, m: nat)
    requires from <= m <= |all|
    ensures Filter(all[..from], c) + Filter(all[from..m], c) == Filter(all[..m], c)
  {
    assert all[..from] + all[from..m] == all[..m];
    SelectConcat(all[..from], all[from..m], Seen(c));
  }

  /** The scanning loop of `Run`: restarting each query behind the last row goes through the rows batch by
      batch, so none is scanned twice. */
  method ScanVisible(rows: seq<Event>, c: Cred, start: Bound, stop: Bound, asc: bool, overmax: nat, hardmax: int64)
    returns (ues: seq<Event>, scanned: nat, cut: bool)
    requires Table(rows)
    ensures Scanned(ues, scanned, cut) == Loop(Scan(rows, start, stop, asc), c, overmax, hardmax, 0)
  {
    hide Scan, Filter, Loop;
    var from, to := start, stop;
    ghost var all := Scan(rows, start, stop, asc);
    ues, scanned, cut := [], 0, false;
    var finds := 0;
    assert all[..0] == [];
    FilterNothing(c);
    while true
      invariant scanned == finds <= |all|
      invariant Scan(rows, from, to, asc) == all[scanned..]
      invariant ues == Filter(all[..scanned], c)
      invariant Loop(all, c, overmax, hardmax, scanned) == Loop(all, c, overmax, hardmax, 0)
      decreases |all| - scanned
    {
      var events := Find(rows, from, to, asc, overmax);
      var visible := FilterUserEvents(events, c);
      LoopMore(all, c, overmax, hardmax, scanned);
      FilterMore(all, c, scanned, scanned + |events|);
      assert events == all[scanned..scanned + |events|];
      ues := ues + visible;
      scanned := scanned + |events|;
      if |ues| >= overmax {
        break;
      }
      if |events| != overmax {
        break;
      }
      finds := finds + |events|;
      if finds >= hardmax {
        cut := true;
        break;
      }
      var last := events[|events| - 1];
      Resume(rows, from, to, asc, |events| - 1);
      if asc {
        from := Ex(KeyOf(last));
      } else {
        to := Ex(KeyOf(last));
      }
    }
    if |ues| > overmax {
      ues := ues[..overmax];
    }
  }

  /** The number of rows after which the hard maximum ends the scan: a whole number of batches. */
  function CutPoint(overmax: nat, hardmax: int64, finds: nat): (n: nat)
    requires overmax >= 1
    ensures n >= finds + overmax && n >= hardmax
    ensures finds < hardmax || finds == 0 ==> n < hardmax + overmax || n == overmax
    decreases hardmax - finds
  {
    if finds + overmax >= hardmax then finds + overmax else CutPoint(overmax, hardmax, finds + overmax)
  }

  lemma FilterPrefix(all: seq<Event>, c: Cred, k: nat)
    requires k <= |all|
    ensures Filter(all[..k], c) <= Filter(all, c)
  {
    hide Select;
    SelectSplit(all, Seen(c), k);
  }

  /** The hard maximum ends the scan exactly when there are that many rows and too few of them are visible;
      then it ends right there. */
  lemma {:induction false} LoopCut(all: seq<Event>, c: Cred, overmax: nat, hardmax: int64, finds: nat)
    requires overmax >= 1 && finds <= |all|
    ensures var r, n := Loop(all, c, overmax, hardmax, finds), CutPoint(overmax, hardmax, finds);
            && (r.cut <==> n <= |all| && |Filter(all[..n], c)| < overmax)
            && (r.cut ==> r.rows == n)
    decreases |all| - finds
  {
    hide Filter;
    var n, m := CutPoint(overmax, hardmax, finds), finds + |Limited(all[finds..], overmax)|;
    if n <= |all| {
      assert all[..n][..finds + overmax] == all[..finds + overmax];
      FilterPrefix(all[..n], c, finds + overmax);
    }
    if m == finds + overmax && |Filter(all[..m], c)| < overmax && m < hardmax {
      LoopCut(all, c, overmax, hardmax, m);
    }
  }

  /** What the loop finds. Without a cut it is the beginning of the filtered list; with one, what is visible
      among the rows scanned. Either way fewer than hardmax + overmax rows are scanned. */
  lemma {:induction false} LoopResult(all: seq<Event>, c: Cred, overmax: nat, hardmax: int64, finds: nat)
    requires finds <= |all| && (finds == 0 || finds < hardmax)
    ensures var r := Loop(all, c, overmax, hardmax, finds);
            && r.rows <= |all|
            && (!r.cut ==> r.ues == First(Filter(all, c), overmax))
            && (r.cut ==> overmax >= 1 && r.rows == CutPoint(overmax, hardmax, finds) >= hardmax
                          && r.ues == Filter(all[..r.rows], c) && |r.ues| < overmax)
            && (overmax >= 1 && hardmax >= 1 ==> r.rows < hardmax + overmax)
    decreases |all| - finds
  {
    hide Filter;
    var m := finds + |Limited(all[finds..], overmax)|;
    FilterPrefix(all, c, m);
    assert m == |all| ==> all[..m] == all;
    if |Filter(all[..m], c)| < overmax && m == finds + overmax && m < hardmax {
      LoopResult(all, c, overmax, hardmax, m);
    }
  }

  /** The scan is cut while too few of its rows are visible, and something visible lies behind the cut. */
  predicate Lost(all: seq<Event>, c: Cred, overmax: nat, hardmax: int64) {
    overmax >= 1
    && var n := CutPoint(overmax, hardmax, 0);
       n <= |all| && |Filter(all[..n], c)| < overmax && Filter(all[n..], c) != []
  }

  /** So the loop finds what it is meant to find if and only if nothing is lost behind the cut. */
  lemma LoopExact(all: seq<Event>, c: Cred, overmax: nat, hardmax: int64)
    ensures var ues := Loop(all, c, overmax, hardmax, 0).ues;
            && (ues == First(Filter(all, c), overmax) <==> !Lost(all, c, overmax, hardmax))
            && (Lost(all, c, overmax, hardmax) ==>
                  ues == Filter(all[..CutPoint(overmax, hardmax, 0)], c) && |ues| < overmax
                  && ues < Filter(all, c))
  {
    hide Select, Loop, CutPoint;
    LoopResult(all, c, overmax, hardmax, 0);
    if overmax >= 1 {
      LoopCut(all, c, overmax, hardmax, 0);
      var n := CutPoint(overmax, hardmax, 0);
      if n <= |all| { SelectSplit(all, Seen(c), n); }
    }
  }

  // The task

  const NO_KEY := Key(0, 0, 0)

  datatype FindError = PermissionDenied | NegativeMax | NegativeLimit

  /** The bounds of the scan for a user, from a start key or from the end of the range that comes first. */
  function FirstStart(user: int64, from: Key, asc: bool): Bound {
    if asc && from != NO_KEY then Inc(Key(user, from.createdTs, from.index)) else Inc(Key(user, MIN_INT64, 0))
  }

  function FirstStop(user: int64, from: Key, asc: bool): Bound {
    if !asc && from != NO_KEY then Inc(Key(user, from.createdTs, from.index)) else Inc(Key(user, MAX_INT64, MAX_INT64))
  }

  /** The rows that a request scans if nothing ends it early. */
  function Requested(rows: seq<Event>, user: int64, from: Key, asc: bool): seq<Event> {
    Scan(rows, FirstStart(user, from, asc), FirstStop(user, from, asc), asc)
  }

  /** The row just before the range of the request, whether visible or not. */
  function Preceding(rows: seq<Event>, user: int64, from: Key, asc: bool): seq<Event> {
    if asc then
      var to := FirstStart(user, from, asc).key;
      Find(rows, Inc(Key(user, MIN_INT64, 0)), Ex(to), false, 1)
    else
      var to := FirstStop(user, from, asc).key;
      Find(rows, Ex(to), Inc(Key(user, MAX_INT64, MAX_INT64)), true, 1)
  }

  datatype Page = Page(events: seq<Event>, next: Key, prev: Key)

  function PageOf(r: Scanned, before: seq<Event>, overmax: nat): Page {
    var n := |r.ues|;
    var full := n > 0 && n == overmax;
    Page(if full then r.ues[..n - 1] else r.ues,
         if full then KeyOf(r.ues[n - 1]) else NO_KEY,
         if |before| > 0 then KeyOf(before[0]) else NO_KEY)
  }

  /** The page for a request. */
  function PageFor(rows: seq<Event>, user: int64, c: Cred, asc: bool, from: Key, overmax: nat, hardmax: int64): Page {
    PageOf(Loop(Requested(rows, user, from, asc), c, overmax, hardmax, 0), Preceding(rows, user, from, asc), overmax)
  }

  /** The events on a page are rows that may be seen, and a row before one of them, or before the next one, is
      among them exactly when it may be seen. With a page to follow no row is left out, and without one neither,
      if there are fewer rows than the hard maximum. */
  ghost predicate PageByKind(all: seq<Event>, c: Cred, page: seq<Event>, next: Key, overmax: nat, hardmax: int64) {
    && (forall e :: e in page ==> e in all && ShownByKind(e, c, true))
    && (forall i, j :: 0 <= i < j < |all| && (all[j] in page || (next != NO_KEY && KeyOf(all[j]) == next)) ==>
          ShownByKind(all[i], c, all[i] in page))
    && (|page| < overmax && next == NO_KEY && |all| < hardmax && NO_KEY !in Keys(all) ==>
          forall i :: 0 <= i < |all| ==> ShownByKind(all[i], c, all[i] in page))
  }

  function Keys(es: seq<Event>): seq<Key> { seq(|es|, i requires 0 <= i < |es| => KeyOf(es[i])) }

  ghost predicate DistinctKeys(es: seq<Event>) {
    forall i, j :: 0 <= i < j < |es| ==> KeyOf(es[i]) != KeyOf(es[j])
  }

  lemma InSeen(all: seq<Event>, n: nat, j: nat, e: Event)
    requires DistinctKeys(all) && n <= |all| && j < |all| && e in all[..n] && KeyOf(e) == KeyOf(all[j])
    ensures j < n && e == all[j]
  {
    var k :| 0 <= k < n && all[..n][k] == e;
    assert all[k] == e;
  }

  /** Up to an event that is among the first ones visible, these are the visible ones. */
  lemma {:induction false} FilterFront(all: seq<Event>, c: Cred, m: nat, i: nat, j: nat)
    requires DistinctKeys(all) && m <= |Filter(all, c)| && i < j < |all| && all[j] in Filter(all, c)[..m]
    ensures ShownByKind(all[i], c, all[i] in Filter(all, c)[..m])
  {
    FilterByKind(all, c);
    var shown := Filter(all, c);
    if m == |shown| {
      assert shown[..m] == shown;
      assert all[i] in all;
    } else {
      var n := |all| - 1;
      SelectSplit(all, Seen(c), n);
      SelectOne(all[n], Seen(c));
      assert all[n..] == [all[n]];
      FilterByKind(all[..n], c);
      assert shown[..m] == Filter(all[..n], c)[..m];
      InSeen(all, n, j, all[j]);
      FilterFront(all[..n], c, m, i, j);
    }
  }

  /** What the loop finds are the first ones visible of the rows scanned, and of all rows unless it is cut. */
  lemma FoundFront(all: seq<Event>, c: Cred, overmax: nat, hardmax: int64) returns (n: nat)
    ensures n <= |all| && Loop(all, c, overmax, hardmax, 0).ues == First(Filter(all[..n], c), overmax)
    ensures |all| < hardmax ==> n == |all|
  {
    hide Filter, CutPoint;
    LoopResult(all, c, overmax, hardmax, 0);
    var r := Loop(all, c, overmax, hardmax, 0);
    n := if r.cut then r.rows else |all|;
    assert all[..|all|] == all;
  }

  lemma RequestedApart(rows: seq<Event>, user: int64, asc: bool, from: Key)
    requires Table(rows)
    ensures DistinctKeys(Requested(rows, user, from, asc))
  {
    hide Between;
    BetweenTable(rows, FirstStart(user, from, asc), FirstStop(user, from, asc));
  }

  lemma ShownBefore(all: seq<Event>, c: Cred, n: nat, m: nat)
    requires DistinctKeys(all) && n <= |all| && m <= |Filter(all[..n], c)|
    ensures var page := Filter(all[..n], c)[..m];
            forall i, j :: 0 <= i < j < |all| && all[j] in page ==> ShownByKind(all[i], c, all[i] in page)
  {
    var seen, page := all[..n], Filter(all[..n], c)[..m];
    FilterByKind(seen, c);
    hide Filter, ShownByKind;
    forall i, j | 0 <= i < j < |all| && all[j] in page ensures ShownByKind(all[i], c, all[i] in page) {
      assert all[j] in Filter(seen, c);
      InSeen(all, n, j, all[j]);
      FilterFront(seen, c, m, i, j);
    }
  }

  lemma ShownBeforeNext(all: seq<Event>, c: Cred, n: nat, m: nat)
    requires DistinctKeys(all) && n <= |all| && m < |Filter(all[..n], c)|
    ensures var (page, next) := (Filter(all[..n], c)[..m], Filter(all[..n], c)[m]);
            forall i, j :: 0 <= i < j < |all| && KeyOf(all[j]) == KeyOf(next) ==>
              ShownByKind(all[i], c, all[i] in page)
  {
    var seen, shown := all[..n], Filter(all[..n], c);
    FilterByKind(seen, c);
    hide Filter, ShownByKind;
    forall i, j | 0 <= i < j < |all| && KeyOf(all[j]) == KeyOf(shown[m])
      ensures ShownByKind(all[i], c, all[i] in shown[..m])
    {
      assert shown[m] in shown;
      InSeen(all, n, j, shown[m]);
      assert shown[..m + 1] == shown[..m] + [shown[m]];
      FilterFront(seen, c, m + 1, i, j);
    }
  }

  lemma ShownAll(all: seq<Event>, c: Cred, n: nat, page: Page, overmax: nat)
    requires n == |all| && page.next == NO_KEY && NO_KEY !in Keys(all) && |page.events| < overmax
    requires page == PageOf(Scanned(First(Filter(all[..n], c), overmax), n, false), [], overmax)
    ensures forall i :: 0 <= i < |all| ==> ShownByKind(all[i], c, all[i] in page.events)
  {
    assert all[..n] == all;
    FilterByKind(all, c);
    hide Filter, ShownByKind;
    var shown := Filter(all, c);
    forall e | e in shown ensures KeyOf(e) != NO_KEY {
      var k :| 0 <= k < |all| && all[k] == e;
      assert Keys(all)[k] == KeyOf(e);
    }
    assert page.events == shown;
  }

  /** A page shows the first ones of what is visible, and the next one keeps its key. */
  lemma PageShape(r: Scanned, shown: seq<Event>, before: seq<Event>, overmax: nat)
    requires r.ues == First(shown, overmax)
    ensures var (page, m) := (PageOf(r, before, overmax), |PageOf(r, before, overmax).events|);
            && m <= |shown| && page.events == shown[..m]
            && (page.next != NO_KEY ==> m < |shown| && page.next == KeyOf(shown[m]))
  {
  }

  /** The page of what the loop finds. */
  lemma PageIsByKind(all: seq<Event>, c: Cred, before: seq<Event>, overmax: nat, hardmax: int64)
    requires DistinctKeys(all)
    ensures var page := PageOf(Loop(all, c, overmax, hardmax, 0), before, overmax);
            PageByKind(all, c, page.events, page.next, overmax, hardmax)
  {
    hide Filter, Loop, ShownByKind, Keys, DistinctKeys, PageOf, First, KeyOf;
    var r := Loop(all, c, overmax, hardmax, 0);
    var page := PageOf(r, before, overmax);
    var n := FoundFront(all, c, overmax, hardmax);
    var shown := Filter(all[..n], c);
    PageShape(r, shown, before, overmax);
    ShownInAll(all, c, n, |page.events|);
    ShownBefore(all, c, n, |page.events|);
    if page.next != NO_KEY {
      ShownBeforeNext(all, c, n, |page.events|);
    }
    if |all| < hardmax && |page.events| < overmax && page.next == NO_KEY && NO_KEY !in Keys(all) {
      SamePage(r, before, n, overmax);
      ShownAll(all, c, n, page.(prev := NO_KEY), overmax);
    }
  }

  lemma SamePage(r: Scanned, before: seq<Event>, n: nat, overmax: nat)
    ensures PageOf(r, before, overmax).(prev := NO_KEY) == PageOf(Scanned(r.ues, n, false), [], overmax)
  {
  }

  lemma ShownInAll(all: seq<Event>, c: Cred, n: nat, m: nat)
    requires n <= |all| && m <= |Filter(all[..n], c)|
    ensures forall e :: e in Filter(all[..n], c)[..m] ==> e in all && ShownByKind(e, c, true)
  {
    FilterByKind(all[..n], c);
    hide Filter, ShownByKind;
    forall e | e in Filter(all[..n], c)[..m] ensures e in all && ShownByKind(e, c, true) {
      assert e in Filter(all[..n], c);
    }
  }

  /** The page for a request shows what may be seen, and no more than was asked for. */
  lemma RequestShows(rows: seq<Event>, user: int64, c: Cred, asc: bool, from: Key, requested: int64,
                     confDefault: Option<int64>, hardmax: int64)
    requires Table(rows) && requested >= 0 && IndexPager.OverMax(requested, confDefault, Some(hardmax)) >= 0
    ensures var overmax: nat := IndexPager.OverMax(requested, confDefault, Some(hardmax));
            var page := PageFor(rows, user, c, asc, from, overmax, hardmax);
            && PageByKind(Requested(rows, user, from, asc), c, page.events, page.next, overmax, hardmax)
            && IndexPager.PageFits(|page.events|, page.next != NO_KEY, requested, confDefault, Some(hardmax))
  {
    hide IndexPager.OverMax, Requested, Filter, Loop, PageByKind, IndexPager.PageFits, Preceding, Table;
    var overmax: nat := IndexPager.OverMax(requested, confDefault, Some(hardmax));
    var all := Requested(rows, user, from, asc);
    RequestedApart(rows, user, asc, from);
    PageIsByKind(all, c, Preceding(rows, user, from, asc), overmax, hardmax);
    var _ := FoundFront(all, c, overmax, hardmax);
    IndexPager.CutFits(|Loop(all, c, overmax, hardmax, 0).ues|, requested, confDefault, Some(hardmax));
  }

  class FindUserEventsTask {
    const maxUserEvents: int64
    const start: Key
    const ascending: bool
    var userEvents: seq<Event>
    var next: Key
    var prev: Key

    constructor (maxUserEvents: int64, start: Key, ascending: bool)
      ensures this.maxUserEvents == maxUserEvents && this.start == start && this.ascending == ascending
      ensures userEvents == [] && next == NO_KEY && prev == NO_KEY
    {
      this.maxUserEvents, this.start, this.ascending := maxUserEvents, start, ascending;
      userEvents, next, prev := [], NO_KEY, NO_KEY;
    }

    /** `Run` for the events of one user, as seen by somebody. The configuration has a hard maximum. */
    method Run(rows: seq<Event>, user: int64, c: Cred, confDefault: Option<int64>, hardmax: int64)
      returns (e: Option<FindError>)
      requires Table(rows) && next == NO_KEY && prev == NO_KEY
      modifies this
      ensures e == if start != NO_KEY && user != start.userId then Some(PermissionDenied)
                   else if maxUserEvents < 0 then Some(NegativeMax)
                   else if IndexPager.OverMax(maxUserEvents, confDefault, Some(hardmax)) < 0 then Some(NegativeLimit)
                   else None
      ensures e == None ==>
                var overmax: nat := IndexPager.OverMax(maxUserEvents, confDefault, Some(hardmax));
                && Page(userEvents, next, prev) == PageFor(rows, user, c, ascending, start, overmax, hardmax)
                && PageByKind(Requested(rows, user, start, ascending), c, userEvents, next, overmax, hardmax)
      ensures e == None ==>
                IndexPager.PageFits(|userEvents|, next != NO_KEY, maxUserEvents, confDefault, Some(hardmax))
    {
      hide Scan, Loop, Filter, IndexPager.OverMax, IndexPager.PageFits, Less, PageByKind;
      var minTs, minIndex, maxTs, maxIndex: int64 := MIN_INT64, 0, MAX_INT64, MAX_INT64;
      if start.userId != 0 || start.createdTs != 0 || start.index != 0 {
        if user != start.userId {
          return Some(PermissionDenied);
        }
        if ascending {
          minTs, minIndex := start.createdTs, start.index;
        } else {
          maxTs, maxIndex := start.createdTs, start.index;
        }
      }
      if maxUserEvents < 0 {
        return Some(NegativeMax);
      }
      var overmax := IndexPager.OverMax(maxUserEvents, confDefault, Some(hardmax));
      if overmax < 0 {
        return Some(NegativeLimit);
      }
      var ues, scanned, cut :=
        ScanVisible(rows, c, Inc(Key(user, minTs, minIndex)), Inc(Key(user, maxTs, maxIndex)), ascending, overmax,
                    hardmax);
      var prevUes;
      if ascending {
        prevUes := Find(rows, Inc(Key(user, MIN_INT64, 0)), Ex(Key(user, minTs, minIndex)), false, 1);
      } else {
        prevUes := Find(rows, Ex(Key(user, maxTs, maxIndex)), Inc(Key(user, MAX_INT64, MAX_INT64)), true, 1);
      }
      var n := |ues|;
      if n > 0 && n == overmax {
        userEvents := ues[..n - 1];
        next := KeyOf(ues[n - 1]);
      } else {
        userEvents := ues;
      }
      if |prevUes| > 0 {
        prev := KeyOf(prevUes[0]);
      }
      RequestShows(rows, user, c, ascending, start, maxUserEvents, confDefault, hardmax);
      return None;
    }
  }

  // Following the pages

  /** The rows of one user, in scan order. */
  function UserRows(rows: seq<Event>, user: int64, asc: bool): seq<Event> {
    Requested(rows, user, NO_KEY, asc)
  }

  /** A key of the user, but for some that nothing writes: of the first moment there is, with a negative index. */
  predicate OfUser(k: Key, user: int64) {
    k.userId == user && !(k.createdTs == MIN_INT64 && k.index < 0)
  }

  /** They are all of the user's rows. */
  lemma UserRowsComplete(rows: seq<Event>, user: int64, asc: bool, e: Event)
    ensures e in UserRows(rows, user, asc) <==> e in rows && OfUser(KeyOf(e), user)
  {
    hide Between;
    BetweenMembers(rows, FirstStart(user, NO_KEY, asc), FirstStop(user, NO_KEY, asc));
    ReverseMembers(Between(rows, FirstStart(user, NO_KEY, asc), FirstStop(user, NO_KEY, asc)), e);
  }

  /** The same rows, from the other end. */
  lemma OtherRows(rows: seq<Event>, user: int64, asc: bool)
    ensures UserRows(rows, user, !asc) == Reverse(UserRows(rows, user, asc))
  {
    hide Between;
    ReverseTwice(Between(rows, FirstStart(user, NO_KEY, asc), FirstStop(user, NO_KEY, asc)));
  }

  lemma RowIsOfUser(rows: seq<Event>, user: int64, asc: bool, j: nat)
    requires j < |UserRows(rows, user, asc)|
    ensures OfUser(KeyOf(UserRows(rows, user, asc)[j]), user)
  {
    hide UserRows, OfUser;
    UserRowsComplete(rows, user, asc, UserRows(rows, user, asc)[j]);
  }

  /** The rows of a table of events, as a find over all of it returns them. */
  ghost predicate RowsOf(rows: seq<Event>, events: Notifications.EventTable) {
    && (forall e :: e in rows ==> TableKey(e) in events && events[TableKey(e)] == e.evt)
    && (forall k :: k in events ==> Event(k.group.user, k.group.at, k.index, events[k]) in rows)
  }

  function TableKey(e: Event): Indexes.Key<Notifications.Stamp> {
    Indexes.Key(Notifications.Stamp(e.userId, e.createdTs), e.index)
  }

  /** Of events that votes, comments and uploads have written, all of the user's are there, in either direction. */
  lemma WrittenRowsComplete(run: seq<Notifications.EventTable>, steps: seq<Notifications.Step>, n: nat,
                            rows: seq<Event>, user: int64, asc: bool, e: Event)
    requires Notifications.Run(run, steps) && n < |run| && run[0] == map[] && RowsOf(rows, run[n])
    ensures e in UserRows(rows, user, asc) <==> e.userId == user && TableKey(e) in run[n] && run[n][TableKey(e)] == e.evt
    ensures UserRows(rows, 0, asc) == []
  {
    hide UserRows, Notifications.Run;
    NoGapsAtFirst();
    Notifications.RunKeeps(run, steps, n);
    UserRowsComplete(rows, user, asc, e);
    if TableKey(e) in run[n] {
      assert Indexes.Dense(run[n].Keys, TableKey(e).group);
      assert TableKey(e) in run[n].Keys;
    }
    if UserRows(rows, 0, asc) != [] {
      UserRowsComplete(rows, 0, asc, UserRows(rows, 0, asc)[0]);
      assert false;
    }
  }

  lemma NoGapsAtFirst()
    ensures Notifications.NoGaps(map[])
  {
    forall g: Notifications.Stamp ensures Indexes.Dense({}, g) {
      assert Indexes.Group({}, g) == {};
    }
  }

  // The place of a key among the rows of its user

  predicate Ahead(k: Key, from: Key, asc: bool) {
    if asc then Less(k, from) else Less(from, k)
  }

  function AheadOf(from: Key, asc: bool): Event -> bool { e => Ahead(KeyOf(e), from, asc) }

  /** The number of rows that come before a key in scan order; none for the first request. */
  function Place(all: seq<Event>, from: Key, asc: bool): nat {
    if from == NO_KEY then 0 else |Select(all, AheadOf(from, asc))|
  }

  lemma RowsOrdered(rows: seq<Event>, user: int64, asc: bool)
    requires Table(rows)
    ensures var all := UserRows(rows, user, asc);
            forall i, j :: 0 <= i < j < |all| ==> Ahead(KeyOf(all[i]), KeyOf(all[j]), asc)
  {
    hide Between;
    BetweenTable(rows, FirstStart(user, NO_KEY, asc), FirstStop(user, NO_KEY, asc));
  }

  lemma PlaceSplits(rows: seq<Event>, user: int64, asc: bool, from: Key)
    requires Table(rows) && from != NO_KEY
    ensures var all := UserRows(rows, user, asc);
            && Place(all, from, asc) <= |all|
            && forall i :: 0 <= i < |all| ==> (Ahead(KeyOf(all[i]), from, asc) <==> i < Place(all, from, asc))
  {
    hide Select, UserRows;
    var all := UserRows(rows, user, asc);
    RowsOrdered(rows, user, asc);
    SelectFront(all, AheadOf(from, asc));
  }

  /** The key of a row has the place of the row. */
  lemma PlaceOfRow(rows: seq<Event>, user: int64, asc: bool, j: nat)
    requires Table(rows) && j < |UserRows(rows, user, asc)| && KeyOf(UserRows(rows, user, asc)[j]) != NO_KEY
    ensures Place(UserRows(rows, user, asc), KeyOf(UserRows(rows, user, asc)[j]), asc) == j
  {
    hide UserRows, Place;
    var all := UserRows(rows, user, asc);
    var k := Place(all, KeyOf(all[j]), asc);
    RowsOrdered(rows, user, asc);
    PlaceSplits(rows, user, asc, KeyOf(all[j]));
    assert !Ahead(KeyOf(all[j]), KeyOf(all[j]), asc);
    assert !Ahead(KeyOf(all[k]), KeyOf(all[j]), asc);
  }

  lemma NothingBetween(rows: seq<Event>, k: Key)
    ensures Between(rows, Inc(k), Ex(k)) == [] && Between(rows, Ex(k), Inc(k)) == []
  {
    hide Select;
    SelectNone(rows, Within(Inc(k), Ex(k)));
    SelectNone(rows, Within(Ex(k), Inc(k)));
  }

  /** A request scans the rows of the user from the place of its key on, and looks for the row just before. */
  lemma RequestFrom(rows: seq<Event>, user: int64, asc: bool, from: Key)
    requires Table(rows) && (from == NO_KEY || OfUser(from, user))
    ensures var all := UserRows(rows, user, asc);
            var j := Place(all, from, asc);
            && j <= |all| && Requested(rows, user, from, asc) == all[j..]
            && Preceding(rows, user, from, asc) == if j > 0 then [all[j - 1]] else []
  {
    if from == NO_KEY {
      hide Between;
      NothingBetween(rows, FirstStart(user, from, asc).key);
      NothingBetween(rows, FirstStop(user, from, asc).key);
      assert UserRows(rows, user, asc)[0..] == UserRows(rows, user, asc);
    } else if asc {
      RequestUp(rows, user, from);
    } else {
      RequestDown(rows, user, from);
    }
  }

  lemma RequestUp(rows: seq<Event>, user: int64, from: Key)
    requires Table(rows) && from != NO_KEY && OfUser(from, user)
    ensures var all := UserRows(rows, user, true);
            var j := Place(all, from, true);
            && j <= |all| && Requested(rows, user, from, true) == all[j..]
            && Preceding(rows, user, from, true) == if j > 0 then [all[j - 1]] else []
  {
    hide Between, Place;
    var (start, stop) := (FirstStart(user, NO_KEY, true), FirstStop(user, NO_KEY, true));
    var all := Between(rows, start, stop);
    PlaceSplits(rows, user, true, from);
    var j := Place(all, from, true);
    CutUp(rows, start, stop, Inc(from), j);
    CutDown(rows, start, stop, Ex(from), j);
    if j > 0 { assert Reverse(all[..j])[0] == all[j - 1]; }
  }

  lemma RequestDown(rows: seq<Event>, user: int64, from: Key)
    requires Table(rows) && from != NO_KEY && OfUser(from, user)
    ensures var all := UserRows(rows, user, false);
            var j := Place(all, from, false);
            && j <= |all| && Requested(rows, user, from, false) == all[j..]
            && Preceding(rows, user, from, false) == if j > 0 then [all[j - 1]] else []
  {
    hide Between, Place;
    var (start, stop) := (FirstStart(user, NO_KEY, false), FirstStop(user, NO_KEY, false));
    var up := Between(rows, start, stop);
    PlaceSplits(rows, user, false, from);
    var j := Place(Reverse(up), from, false);
    var m := |up| - j;
    forall i | 0 <= i < |up| ensures Less(from, KeyOf(up[i])) <==> m <= i {
      assert up[i] == Reverse(up)[|up| - 1 - i];
    }
    CutDown(rows, start, stop, Inc(from), m);
    CutUp(rows, start, stop, Ex(from), m);
    ReverseSlices(up, j);
  }

  /** The page and the token that a list of visible events should give. */
  function Wanted(visible: seq<Event>, max: nat): (seq<Event>, Key) {
    (First(visible, max), if max < |visible| then KeyOf(visible[max]) else NO_KEY)
  }

  /** A page is what it should be if and only if nothing is lost; otherwise it is short, and without a token. */
  lemma PageExact(asked: seq<Event>, before: seq<Event>, c: Cred, max: nat, hardmax: int64)
    requires forall e :: e in Filter(asked, c) ==> KeyOf(e) != NO_KEY
    ensures var page, visible := PageOf(Loop(asked, c, max + 1, hardmax, 0), before, max + 1), Filter(asked, c);
            && ((page.events, page.next) == Wanted(visible, max) <==> !Lost(asked, c, max + 1, hardmax))
            && (Lost(asked, c, max + 1, hardmax) ==> page.next == NO_KEY && page.events < visible)
            && |page.events| <= max
            && page.prev == (if before != [] then KeyOf(before[0]) else NO_KEY)
  {
    hide Filter, Loop, Lost;
    LoopExact(asked, c, max + 1, hardmax);
    var visible := Filter(asked, c);
    if max < |visible| {
      assert visible[max] in visible && First(visible, max + 1)[..max] == First(visible, max);
    }
  }

  /** What a page that starts at the j-th row is: `m` visible events come before it. It is the list of visible events
      from there, with the key of the one after it, exactly when nothing is lost, and otherwise short and without a
      token; the previous key is that of the row before, visible or not. */
  ghost predicate StartsAt(page: Page, all: seq<Event>, c: Cred, j: nat, max: nat, hardmax: int64) {
    j <= |all|
    && var visible, m := Filter(all, c), |Filter(all[..j], c)|;
    && m <= |visible| && visible[m..] == Filter(all[j..], c)
    && page.prev == (if j > 0 then KeyOf(all[j - 1]) else NO_KEY)
    && ((page.events, page.next) == Wanted(visible[m..], max) <==> !Lost(all[j..], c, max + 1, hardmax))
    && (Lost(all[j..], c, max + 1, hardmax) ==> page.next == NO_KEY && page.events < visible[m..])
    && |page.events| <= max
  }

  /** For any key of the user, the page starts at the place of the key. */
  lemma PageAtKey(rows: seq<Event>, user: int64, c: Cred, asc: bool, from: Key, max: nat, hardmax: int64)
    requires Table(rows) && user != 0 && (from == NO_KEY || OfUser(from, user))
    ensures var all := UserRows(rows, user, asc);
            StartsAt(PageFor(rows, user, c, asc, from, max + 1, hardmax), all, c, Place(all, from, asc), max, hardmax)
  {
    hide Requested, Preceding, Loop, Select, UserRows, Lost, Wanted, Place, PageOf;
    var all := UserRows(rows, user, asc);
    var j := Place(all, from, asc);
    RequestFrom(rows, user, asc, from);
    SelectSplit(all, Seen(c), j);
    VisibleHaveKeys(rows, user, c, asc, j);
    PageExact(all[j..], Preceding(rows, user, from, asc), c, max, hardmax);
  }

  lemma VisibleHaveKeys(rows: seq<Event>, user: int64, c: Cred, asc: bool, j: nat)
    requires user != 0 && j <= |UserRows(rows, user, asc)|
    ensures forall e :: e in Filter(UserRows(rows, user, asc)[j..], c) ==> KeyOf(e) != NO_KEY
  {
    hide Select, UserRows, Visible;
    var asked := UserRows(rows, user, asc)[j..];
    forall e | e in Filter(asked, c) ensures KeyOf(e) != NO_KEY {
      SelectMembers(asked, Seen(c), e);
      UserRowsComplete(rows, user, asc, e);
    }
  }

  /** The row of the m-th visible event. */
  function Position(all: seq<Event>, c: Cred, m: nat): nat
    requires m < |Filter(all, c)|
  {
    var n := |all| - 1;
    if m < |Filter(all[..n], c)| then Position(all[..n], c, m) else n
  }

  lemma {:induction false} PositionIs(all: seq<Event>, c: Cred, m: nat)
    requires m < |Filter(all, c)|
    ensures var j := Position(all, c, m);
            j < |all| && all[j] == Filter(all, c)[m] && |Filter(all[..j], c)| == m
  {
    var n := |all| - 1;
    if m < |Filter(all[..n], c)| {
      PositionIs(all[..n], c, m);
      var j := Position(all[..n], c, m);
      assert all[..n][..j] == all[..j];
    }
  }

  /** The rows scanned for the page that starts at the m-th visible event; the first page starts at the first row. */
  function From(all: seq<Event>, c: Cred, m: nat): seq<Event>
    requires m == 0 || m < |Filter(all, c)|
  {
    if m == 0 then all else PositionIs(all, c, m); all[Position(all, c, m)..]
  }

  lemma PageAtVisible(rows: seq<Event>, user: int64, c: Cred, asc: bool, from: Key, m: nat, max: nat, hardmax: int64)
    requires Table(rows) && user != 0 && (m == 0 || m < |Filter(UserRows(rows, user, asc), c)|)
    requires from == if m == 0 then NO_KEY else KeyOf(Filter(UserRows(rows, user, asc), c)[m])
    ensures var all := UserRows(rows, user, asc);
            var page, visible, lost := PageFor(rows, user, c, asc, from, max + 1, hardmax), Filter(all, c),
                Lost(From(all, c, m), c, max + 1, hardmax);
            && ((page.events, page.next) == Wanted(visible[m..], max) <==> !lost)
            && (lost ==> page.next == NO_KEY && page.events < visible[m..])
            && |page.events| <= max
  {
    hide PageFor, Select, UserRows, Lost, Wanted, Position, Place, OfUser;
    var all := UserRows(rows, user, asc);
    if m == 0 {
      FirstPlace(all, c, asc);
    } else {
      PositionIs(all, c, m);
      RowIsOfUser(rows, user, asc, Position(all, c, m));
      NoKeyOfUser(from, user);
      PlaceOfRow(rows, user, asc, Position(all, c, m));
    }
    PageAtKey(rows, user, c, asc, from, max, hardmax);
  }

  lemma FirstPlace(all: seq<Event>, c: Cred, asc: bool)
    ensures Place(all, NO_KEY, asc) == 0 && all[0..] == all && |Filter(all[..0], c)| == 0
    ensures Filter(all, c)[0..] == Filter(all, c)
  {
  }

  lemma NoKeyOfUser(k: Key, user: int64)
    requires user != 0 && OfUser(k, user)
    ensures k != NO_KEY
  {
  }

  /** The events of the first n pages, each asked for with the key of the one before. */
  function Walk(rows: seq<Event>, user: int64, c: Cred, asc: bool, overmax: nat, hardmax: int64, from: Key, n: nat)
    : (seq<Event>, Key)
    decreases n
  {
    if n == 0 then ([], from)
    else
      var page := PageFor(rows, user, c, asc, from, overmax, hardmax);
      if page.next == NO_KEY then (page.events, NO_KEY)
      else
        var (rest, last) := Walk(rows, user, c, asc, overmax, hardmax, page.next, n - 1);
        (page.events + rest, last)
  }

  /** Nothing is lost on the pages that start at the m-th visible event and every `max` events on. */
  predicate NothingLost(all: seq<Event>, c: Cred, max: nat, hardmax: int64, m: nat)
    requires max >= 1
    decreases |Filter(all, c)| - m
  {
    m < |Filter(all, c)| ==> !Lost(From(all, c, m), c, max + 1, hardmax) && NothingLost(all, c, max, hardmax, m + max)
  }

  lemma {:induction false} NothingLostIs(all: seq<Event>, c: Cred, max: nat, hardmax: int64, m: nat)
    requires max >= 1 && m % max == 0
    ensures NothingLost(all, c, max, hardmax, m)
            <==> forall i :: m <= i < |Filter(all, c)| && i % max == 0 ==> !Lost(From(all, c, i), c, max + 1, hardmax)
    decreases |Filter(all, c)| - m
  {
    hide Filter, Lost, From;
    if m < |Filter(all, c)| {
      NextMultiple(m, m + max, max);
      NothingLostIs(all, c, max, hardmax, m + max);
      forall i | m < i < |Filter(all, c)| && i % max == 0 ensures m + max <= i {
        NextMultiple(m, i, max);
      }
    }
  }

  /** Between a multiple and the next one there is none. */
  lemma NextMultiple(m: nat, i: nat, max: nat)
    requires max >= 1 && m % max == 0 && m < i
    ensures i == m + max ==> i % max == 0
    ensures i % max == 0 ==> m + max <= i
  {
    var p, q := m / max, i / max;
    assert m == max * p;
    if i == m + max {
      assert i == max * (p + 1);
      NoRemainder(i, max, p + 1);
    }
    if i % max == 0 {
      assert i == max * q;
      if q > p { MulGrows(max, p + 1, q); } else { MulGrows(max, q, p); }
    }
  }

  lemma MulGrows(max: nat, a: nat, b: nat)
    requires a <= b
    ensures max * a <= max * b
  {
    assert max * b - max * a == max * (b - a);
  }

  lemma NoRemainder(x: nat, max: nat, q: nat)
    requires max >= 1 && x == max * q
    ensures x % max == 0
  {
    var p, r := x / max, x % max;
    assert x == max * p + r;
    if p < q { MulGrows(max, p + 1, q); } else { MulGrows(max, q, p); }
  }

  /** What a page leads to: the end, if it is lost or the last one, or else the page `max` events on. */
  lemma PageLeadsOn(rows: seq<Event>, user: int64, c: Cred, asc: bool, from: Key, m: nat, max: nat, hardmax: int64)
    requires Table(rows) && user != 0 && max >= 1 && (m == 0 || m < |Filter(UserRows(rows, user, asc), c)|)
    requires from == if m == 0 then NO_KEY else KeyOf(Filter(UserRows(rows, user, asc), c)[m])
    ensures var all := UserRows(rows, user, asc);
            var page, visible, lost := PageFor(rows, user, c, asc, from, max + 1, hardmax), Filter(all, c),
                Lost(From(all, c, m), c, max + 1, hardmax);
            && (lost ==> m < |visible| && page.next == NO_KEY && page.events < visible[m..])
            && (!lost && m + max >= |visible| ==> page.next == NO_KEY && page.events == visible[m..])
            && (!lost && m + max < |visible| ==>
                  page.events == visible[m..m + max] && page.next == KeyOf(visible[m + max]) && page.next != NO_KEY)
  {
    hide PageFor, Filter, UserRows, Lost, From;
    var all := UserRows(rows, user, asc);
    var visible := Filter(all, c);
    PageAtVisible(rows, user, c, asc, from, m, max, hardmax);
    if m == |visible| {
      NoneLeft(all, c, max, hardmax);
    } else if m + max < |visible| {
      VisibleIsOfUser(rows, user, c, asc, m + max);
      SliceFrom(visible, m, max + 1, max);
      assert First(visible[m..], max) == visible[m..][..max] == visible[m..m + max];
    }
  }

  lemma {:induction false} WalkFrom(rows: seq<Event>, user: int64, c: Cred, asc: bool, max: nat, hardmax: int64,
                                    from: Key, m: nat, n: nat)
    requires Table(rows) && user != 0 && max >= 1 && (m == 0 || m < |Filter(UserRows(rows, user, asc), c)|)
    requires from == if m == 0 then NO_KEY else KeyOf(Filter(UserRows(rows, user, asc), c)[m])
    requires n > 0 && m + n > |Filter(UserRows(rows, user, asc), c)|
    ensures var all := UserRows(rows, user, asc);
            var (found, last) := Walk(rows, user, c, asc, max + 1, hardmax, from, n);
            && last == NO_KEY && found <= Filter(all, c)[m..]
            && (found == Filter(all, c)[m..] <==> NothingLost(all, c, max, hardmax, m))
    decreases n
  {
    hide PageFor, Filter, UserRows, Lost, From, Table;
    var all := UserRows(rows, user, asc);
    var visible, page := Filter(all, c), PageFor(rows, user, c, asc, from, max + 1, hardmax);
    PageLeadsOn(rows, user, c, asc, from, m, max, hardmax);
    if page.next != NO_KEY {
      WalkFrom(rows, user, c, asc, max, hardmax, page.next, m + max, n - 1);
      var (rest, _) := Walk(rows, user, c, asc, max + 1, hardmax, page.next, n - 1);
      Joined(visible, m, m + max, rest);
    }
  }

  lemma Joined(s: seq<Event>, i: nat, j: nat, rest: seq<Event>)
    requires i <= j <= |s| && rest <= s[j..]
    ensures s[i..j] + rest <= s[i..] && (s[i..j] + rest == s[i..] <==> rest == s[j..])
  {
    assert s[i..] == s[i..j] + s[j..];
    assert |s[i..j] + rest| == |s[i..]| <==> |rest| == |s[j..]|;
  }

  lemma NoneLeft(all: seq<Event>, c: Cred, max: nat, hardmax: int64)
    requires Filter(all, c) == []
    ensures !Lost(all, c, max + 1, hardmax)
  {
    hide Select;
    var n := CutPoint(max + 1, hardmax, 0);
    if n <= |all| { SelectSplit(all, Seen(c), n); }
  }

  lemma VisibleIsOfUser(rows: seq<Event>, user: int64, c: Cred, asc: bool, m: nat)
    requires m < |Filter(UserRows(rows, user, asc), c)|
    ensures OfUser(KeyOf(Filter(UserRows(rows, user, asc), c)[m]), user)
  {
    hide UserRows, Filter, OfUser;
    PositionIs(UserRows(rows, user, asc), c, m);
    RowIsOfUser(rows, user, asc, Position(UserRows(rows, user, asc), c, m));
  }

  /** Following the next keys from the start ends, and gives events visible to the subject in order, none twice.
      It gives all of them if and only if, on none of the pages at 0, max, 2 max and so on, an event is lost. */
  lemma FollowNext(rows: seq<Event>, user: int64, c: Cred, asc: bool, max: nat, hardmax: int64)
    requires Table(rows) && user != 0 && max >= 1
    ensures var all := UserRows(rows, user, asc);
            var visible := Filter(all, c);
            var (found, last) := Walk(rows, user, c, asc, max + 1, hardmax, NO_KEY, |visible| + 1);
            && last == NO_KEY && found <= visible
            && (found == visible <==>
                  forall m :: 0 <= m < |visible| && m % max == 0 ==> !Lost(From(all, c, m), c, max + 1, hardmax))
  {
    hide Filter, UserRows, Lost, From, Walk, NothingLost;
    var all := UserRows(rows, user, asc);
    WalkFrom(rows, user, c, asc, max, hardmax, NO_KEY, 0, |Filter(all, c)| + 1);
    NothingLostIs(all, c, max, hardmax, 0);
    assert Filter(all, c)[0..] == Filter(all, c);
  }

  /** In particular when the user has no more rows than one scan may look at, or when all of them are visible. */
  lemma FollowsAll(rows: seq<Event>, user: int64, c: Cred, asc: bool, max: nat, hardmax: int64)
    requires Table(rows) && user != 0 && max >= 1
    requires var all := UserRows(rows, user, asc);
             hardmax > |all| || forall e :: e in all ==> Visible(e, c)
    ensures var visible := Filter(UserRows(rows, user, asc), c);
            Walk(rows, user, c, asc, max + 1, hardmax, NO_KEY, |visible| + 1) == (visible, NO_KEY)
  {
    hide Filter, UserRows, Walk, Lost, From;
    var all := UserRows(rows, user, asc);
    forall m | 0 <= m < |Filter(all, c)| && m % max == 0 ensures !Lost(From(all, c, m), c, max + 1, hardmax) {
      FromWithin(all, c, m);
      NotLost(all, From(all, c, m), c, max + 1, hardmax);
    }
    FollowNext(rows, user, c, asc, max, hardmax);
  }

  lemma FromWithin(all: seq<Event>, c: Cred, m: nat)
    requires m < |Filter(all, c)|
    ensures |From(all, c, m)| <= |all| && forall e :: e in From(all, c, m) ==> e in all
  {
    hide Filter, Position;
    PositionIs(all, c, m);
  }

  lemma NotLost(all: seq<Event>, asked: seq<Event>, c: Cred, overmax: nat, hardmax: int64)
    requires |asked| <= |all| && forall e :: e in asked ==> e in all
    requires hardmax > |all| || forall e :: e in all ==> Visible(e, c)
    ensures !Lost(asked, c, overmax, hardmax)
  {
    hide Select, Visible;
    if overmax >= 1 {
      var n := CutPoint(overmax, hardmax, 0);
      if n <= |asked| && hardmax <= |all| {
        assert forall i :: 0 <= i < n ==> asked[i] in asked;
        SelectAll(asked[..n], Seen(c));
      }
    }
  }

  /** With a maximum of zero, which a configuration can ask for, no number of pages lists anything: the key stays that
      of the first visible event, or is missing if nothing is visible up to the cut. */
  lemma {:induction false} StuckAtZero(rows: seq<Event>, user: int64, c: Cred, asc: bool, hardmax: int64, from: Key,
                                       n: nat)
    requires Table(rows) && user != 0 && n > 0
    requires var visible := Filter(UserRows(rows, user, asc), c);
             from == NO_KEY || (visible != [] && from == KeyOf(visible[0]))
    ensures var all := UserRows(rows, user, asc);
            var visible := Filter(all, c);
            Walk(rows, user, c, asc, 1, hardmax, from, n)
            == ([], if visible == [] || (from == NO_KEY && Lost(all, c, 1, hardmax)) then NO_KEY else KeyOf(visible[0]))
    decreases n
  {
    hide PageFor, UserRows, Filter, Lost, Position, Place, OfUser;
    var all := UserRows(rows, user, asc);
    var visible := Filter(all, c);
    PageAtKeyOfFirst(rows, user, c, asc, hardmax, from);
    var page := PageFor(rows, user, c, asc, from, 1, hardmax);
    if page.next != NO_KEY && n > 1 {
      StuckAtZero(rows, user, c, asc, hardmax, page.next, n - 1);
      assert page.events + [] == [];
    }
  }

  lemma PageAtKeyOfFirst(rows: seq<Event>, user: int64, c: Cred, asc: bool, hardmax: int64, from: Key)
    requires Table(rows) && user != 0
    requires var visible := Filter(UserRows(rows, user, asc), c);
             from == NO_KEY || (visible != [] && from == KeyOf(visible[0]))
    ensures var all := UserRows(rows, user, asc);
            var visible, page := Filter(all, c), PageFor(rows, user, c, asc, from, 1, hardmax);
            && page.events == []
            && page.next == (if visible == [] || (from == NO_KEY && Lost(all, c, 1, hardmax)) then NO_KEY
                             else KeyOf(visible[0]))
            && (visible != [] ==> KeyOf(visible[0]) != NO_KEY)
  {
    hide PageFor, UserRows, Filter, Lost, Position, Place, OfUser;
    var all := UserRows(rows, user, asc);
    var visible := Filter(all, c);
    if visible != [] {
      VisibleIsOfUser(rows, user, c, asc, 0);
      NoKeyOfUser(KeyOf(visible[0]), user);
    }
    if from == NO_KEY {
      PageAtVisible(rows, user, c, asc, from, 0, 0, hardmax);
      assert visible[0..] == visible;
      if visible == [] { NoneLeft(all, c, 0, hardmax); }
    } else {
      var j := Position(all, c, 0);
      PositionIs(all, c, 0);
      RowIsOfUser(rows, user, asc, j);
      PlaceOfRow(rows, user, asc, j);
      PageAtKey(rows, user, c, asc, from, 0, hardmax);
      assert visible[0..] == visible;
      FirstVisibleFound(all, c, hardmax);
    }
  }

  /** A scan that starts at a visible row finds it in its first batch. */
  lemma FirstVisibleFound(all: seq<Event>, c: Cred, hardmax: int64)
    requires Filter(all, c) != []
    ensures Position(all, c, 0) < |all|
    ensures !Lost(all[Position(all, c, 0)..], c, 1, hardmax)
  {
    hide Select, Visible;
    PositionIs(all, c, 0);
    var asked := all[Position(all, c, 0)..];
    var n := CutPoint(1, hardmax, 0);
    if n <= |asked| {
      SelectMembers(all, Seen(c), asked[0]);
      assert Filter(all, c)[0] in Filter(all, c);
      assert asked[..n][0] == asked[0];
      SelectMembers(asked[..n], Seen(c), asked[0]);
    }
  }

  /** Asking the other way from the previous key, which names the row just before the page even if that row is
      not visible, gives the visible events just before the page, nearest first, unless one is lost. */
  lemma BackFromPrev(rows: seq<Event>, user: int64, c: Cred, asc: bool, from: Key, max: nat, hardmax: int64)
    requires Table(rows) && user != 0 && (from == NO_KEY || OfUser(from, user))
    ensures var all := UserRows(rows, user, asc);
            var j, visible := Place(all, from, asc), Filter(all, c);
            var prev := PageFor(rows, user, c, asc, from, max + 1, hardmax).prev;
            && j <= |all| && (prev == NO_KEY <==> j == 0)
            && var m, back := |Filter(all[..j], c)|, PageFor(rows, user, c, !asc, prev, max + 1, hardmax);
            && m <= |visible| && visible[m..] == Filter(all[j..], c)
            && (j > 0 ==>
                  ((back.events, back.next) == Wanted(Reverse(visible[..m]), max)
                   <==> !Lost(Reverse(all[..j]), c, max + 1, hardmax)))
  {
    hide PageFor, Select, UserRows, Lost, Wanted, Reverse, Place, OfUser;
    var all := UserRows(rows, user, asc);
    PageAtKey(rows, user, c, asc, from, max, hardmax);
    var j := Place(all, from, asc);
    if j > 0 {
      var k, prev := |all| - j, KeyOf(all[j - 1]);
      RowIsOfUser(rows, user, asc, j - 1);
      NoKeyOfUser(prev, user);
      OtherRows(rows, user, asc);
      ReverseAt(all, j - 1);
      PlaceOfRow(rows, user, !asc, k);
      PageAtKey(rows, user, c, !asc, prev, max, hardmax);
      ReverseSlices(all, k);
      BackVisible(all, c, j);
    }
  }

  /** What is visible before the j-th row, seen from there. */
  lemma BackVisible(all: seq<Event>, c: Cred, j: nat)
    requires j <= |all|
    ensures var k := |all| - j;
            var other, m := Filter(Reverse(all), c), |Filter(all[..j], c)|;
            && |Reverse(all)| == |all| && m <= |Filter(all, c)| && |Filter(Reverse(all)[..k], c)| <= |other|
            && other[|Filter(Reverse(all)[..k], c)|..] == Reverse(Filter(all, c)[..m])
  {
    hide Select, Reverse;
    var k := |all| - j;
    ReverseSlices(all, k);
    SelectSplit(all, Seen(c), j);
    SelectReverse(all[..j], Seen(c));
    SelectSplit(Reverse(all), Seen(c), k);
  }

  /** How an event is lost: two rows that are not visible use up the scan, the request
      comes back empty and without a next key, and the visible row behind them is never listed. */
  lemma CutLosesEvents(e0: Event, e1: Event, e2: Event, c: Cred)
    requires !Visible(e0, c) && !Visible(e1, c) && Visible(e2, c)
    ensures PageOf(Loop([e0, e1, e2], c, 2, 2, 0), [], 2) == Page([], NO_KEY, NO_KEY)
    ensures Filter([e0, e1, e2], c) == [e2] && Lost([e0, e1, e2], c, 2, 2)
  {
    hide Select, Loop, Visible;
    var all := [e0, e1, e2];
    assert all[..2] == [e0, e1] && all[2..] == [e2];
    SelectNone([e0, e1], Seen(c));
    SelectOne(e2, Seen(c));
    SelectSplit(all, Seen(c), 2);
    assert CutPoint(2, 2, 0) == 2;
    LoopExact(all, c, 2, 2);
  }
}
