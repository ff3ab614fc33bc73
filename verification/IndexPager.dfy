/** Paging over the index of pics (be/tasks/read_index_pics_task.go), on a table that does not change. */
module IndexPager {
  import opened Lists
  import opened Prelude

  datatype Pic = Pic(id: int64, created: int64, hidden: bool)

  /** `IndexOrder` of be/schema/pic.go: a hidden pic sorts before all others. */
  function IndexOrder(p: Pic): int64 {
    if p.hidden then -1 else p.created
  }

  /** A value of the index (index_order, id). */
  datatype Key = Key(order: int64, id: int64)

  predicate Less(a: Key, b: Key) {
    a.order < b.order || (a.order == b.order && a.id < b.id)
  }

  function KeyOf(p: Pic): Key { Key(IndexOrder(p), p.id) }

  /** The rows of the table in index order; ids are unique. */
  ghost predicate Table(rows: seq<Pic>) {
    && (forall i, j :: 0 <= i < j < |rows| ==> Less(KeyOf(rows[i]), KeyOf(rows[j])))
    && (forall i, j :: 0 <= i < j < |rows| ==> rows[i].id != rows[j].id)
  }

  // The queries

  function Within(low: Key, high: Key): Pic -> bool {
    p => !Less(KeyOf(p), low) && Less(KeyOf(p), high)
  }

  /** The rows from `low` inclusive to `high` exclusive, in index order. */
  function Between(rows: seq<Pic>, low: Key, high: Key): seq<Pic> { Select(rows, Within(low, high)) }

  /** `FindPics` over the index. */
  function Find(rows: seq<Pic>, low: Key, high: Key, reverse: bool, limit: nat): seq<Pic> {
    var found := Between(rows, low, high);
    Limited(if reverse then Reverse(found) else found, limit)
  }

  lemma FindLimited(rows: seq<Pic>, low: Key, high: Key, reverse: bool, limit: nat)
    ensures limit > 0 ==> |Find(rows, low, high, reverse, limit)| <= limit
  {
    hide Between;
  }

  /** `lookupStartPic`: the pic with the smallest id from `id` on, or the largest up to `id`. */
  function StartPic(rows: seq<Pic>, id: int64, asc: bool): Option<Pic> {
    if rows == [] then None
    else
      var best, p := StartPic(rows[1..], id, asc), rows[0];
      if (if asc then p.id < id else p.id > id) then best
      else if best.None? || (if asc then p.id < best.value.id else p.id > best.value.id) then Some(p)
      else best
  }

  // The task

  /** `getMaxConf`: one more than the number of pics wanted, unless that is the largest int64. */
  function OverMax(requested: int64, confDefault: Option<int64>, confMax: Option<int64>): int64 {
    var dflt := if confDefault.Some? then confDefault.value else MAX_INT64;
    var most := if confMax.Some? then confMax.value else MAX_INT64;
    var wanted := if requested == 0 then dflt else if requested < most then requested else most;
    if wanted < MAX_INT64 then wanted + 1 else wanted
  }

  /** A page holds no more than was asked for, or by default, and no more than the configuration allows; if there is
      more to come it holds just as many, but for the greatest numbers. */
  ghost predicate PageFits(n: nat, more: bool, requested: int64, confDefault: Option<int64>, confMax: Option<int64>) {
    && (requested == 0 && confDefault.Some? && confDefault.value >= 0 ==>
          n <= confDefault.value && (more && confDefault.value < MAX_INT64 ==> n == confDefault.value))
    && (requested > 0 && (confMax.Some? ==> confMax.value >= 0) ==>
          && n <= requested && (confMax.Some? ==> n <= confMax.value)
          && (more ==> n == requested || n == MAX_INT64 - 1 || (confMax.Some? && n == confMax.value)))
  }

  /** What is left of as many rows as were fetched when the last one is kept back. */
  lemma CutFits(found: nat, requested: int64, confDefault: Option<int64>, confMax: Option<int64>)
    requires requested >= 0 && OverMax(requested, confDefault, confMax) >= 0
    requires OverMax(requested, confDefault, confMax) > 0 ==> found <= OverMax(requested, confDefault, confMax)
    ensures var full := found > 0 && found == OverMax(requested, confDefault, confMax);
            var n := if full then found - 1 else found;
            PageFits(n, full, requested, confDefault, confMax) && PageFits(n, false, requested, confDefault, confMax)
  {
  }

  /** `PicId + 1` on 64 bits. */
  function Next64(id: int64): int64 {
    if id == MAX_INT64 then MIN_INT64 else id + 1
  }

  const BOTTOM := Key(0, 0)
  const TOP := Key(MAX_INT64, MAX_INT64)

  datatype Page = Page(pics: seq<Pic>, next: int64, prev: int64)

  datatype PageError = NegativeMax | NegativeLimit

  class ReadIndexPicsTask {
    const startId: int64
    const maxPics: int64
    const ascending: bool
    var pics: seq<Pic>
    var nextId: int64
    var prevId: int64

    constructor (startId: int64, maxPics: int64, ascending: bool)
      ensures this.startId == startId && this.maxPics == maxPics && this.ascending == ascending
      ensures pics == [] && nextId == 0 && prevId == 0
    {
      this.startId, this.maxPics, this.ascending := startId, maxPics, ascending;
      pics, nextId, prevId := [], 0, 0;
    }

    /** The part of `Run` after the checks of the user: two queries and the three results. A task is run
        on its own, so its outputs are still zero. */
    method Run(rows: seq<Pic>, confDefault: Option<int64>, confMax: Option<int64>) returns (e: Option<PageError>)
      requires nextId == 0
      modifies this
      ensures var overmax := OverMax(maxPics, confDefault, confMax);
              e == (if maxPics < 0 then Some(NegativeMax) else if overmax < 0 then Some(NegativeLimit) else None)
      ensures e == None ==>
                Page(pics, nextId, prevId)
                == PageOf(rows, startId, OverMax(maxPics, confDefault, confMax), ascending)
      ensures e == None ==> PageFits(|pics|, nextId != 0, maxPics, confDefault, confMax)
    {
      hide Find, StartPic, PageFits;
      if maxPics < 0 {
        return Some(NegativeMax);
      }
      var overmax := OverMax(maxPics, confDefault, confMax);
      var startPic: Option<Pic> := None;
      if startId != 0 {
        startPic := StartPic(rows, startId, ascending);
      }
      var minOrder, maxOrder, minId, maxId: int64 := 0, MAX_INT64, 0, MAX_INT64;
      if startPic.Some? {
        if ascending {
          minOrder, minId := startPic.value.created, startPic.value.id;
        } else {
          maxOrder, maxId := startPic.value.created, Next64(startPic.value.id);
        }
      }
      if overmax < 0 {
        return Some(NegativeLimit);
      }
      var found := Find(rows, Key(minOrder, minId), Key(maxOrder, maxId), !ascending, overmax);
      FindLimited(rows, Key(minOrder, minId), Key(maxOrder, maxId), !ascending, overmax);
      var prevPicId: int64 := 0;
      if startPic.Some? {
        if ascending {
          maxOrder, maxId := minOrder, minId;
          minOrder, minId := 0, 0;
        } else {
          minOrder, minId := maxOrder, maxId;
          maxOrder, maxId := MAX_INT64, MAX_INT64;
        }
        var prevPics := Find(rows, Key(minOrder, minId), Key(maxOrder, maxId), ascending, 1);
        if |prevPics| > 0 {
          prevPicId := prevPics[0].id;
        }
      }
      var n := |found|;
      CutFits(n, maxPics, confDefault, confMax);
      if n > 0 && n == overmax {
        pics := found[..n - 1];
        nextId := found[n - 1].id;
      } else {
        pics := found;
      }
      prevId := prevPicId;
      return None;
    }
  }

  /** The rows of the table from a bound on in the given direction. */
  function Onward(rows: seq<Pic>, from: Option<Key>, asc: bool, limit: nat): seq<Pic> {
    if from.None? then Find(rows, BOTTOM, TOP, !asc, limit)
    else if asc then Find(rows, from.value, TOP, false, limit)
    else Find(rows, BOTTOM, from.value, true, limit)
  }

  /** The rows before the bound, nearest first. */
  function Backward(rows: seq<Pic>, from: Option<Key>, asc: bool, limit: nat): seq<Pic> {
    if from.None? then []
    else if asc then Find(rows, BOTTOM, from.value, true, limit)
    else Find(rows, from.value, TOP, false, limit)
  }

  /** The page that starts at a bound: the rows from it on, the one after them, and the one before. */
  function PageFrom(rows: seq<Pic>, from: Option<Key>, overmax: nat, asc: bool): Page {
    Cut(Onward(rows, from, asc, overmax), Backward(rows, from, asc, 1), overmax)
  }

  function Cut(found: seq<Pic>, before: seq<Pic>, overmax: nat): Page {
    var full := |found| > 0 && |found| == overmax;
    Page(if full then found[..|found| - 1] else found,
         if full then found[|found| - 1].id else 0,
         if |before| > 0 then before[0].id else 0)
  }

  function BoundOf(p: Pic, asc: bool): Key {
    if asc then Key(p.created, p.id) else Key(p.created, Next64(p.id))
  }

  /** The bound that a start id stands for: that of the nearest pic in the direction of the listing. */
  function StartBound(rows: seq<Pic>, startId: int64, asc: bool): Option<Key> {
    var start := if startId == 0 then None else StartPic(rows, startId, asc);
    if start.None? then None else Some(BoundOf(start.value, asc))
  }

  function PageOf(rows: seq<Pic>, startId: int64, overmax: nat, asc: bool): Page {
    PageFrom(rows, StartBound(rows, startId, asc), overmax, asc)
  }

  // The listing that the pages cut up

  /** What the task can list: pics that are not hidden, and not from before 1970. */
  predicate Listable(p: Pic) { !p.hidden && p.created >= 0 }

  function Listing(rows: seq<Pic>, asc: bool): seq<Pic> {
    var up := Between(rows, BOTTOM, TOP);
    if asc then up else Reverse(up)
  }

  /** Ids as the allocator gives them out. */
  ghost predicate AllocatedIds(rows: seq<Pic>) {
    forall p :: p in rows ==> 1 <= p.id < MAX_INT64
  }

  lemma BetweenMembers(rows: seq<Pic>, low: Key, high: Key)
    ensures forall p :: p in Between(rows, low, high) <==> p in rows && !Less(KeyOf(p), low) && Less(KeyOf(p), high)
  {
    hide Select, Less;
    forall p ensures p in Between(rows, low, high) <==> p in rows && !Less(KeyOf(p), low) && Less(KeyOf(p), high) {
      SelectMembers(rows, Within(low, high), p);
    }
  }

  lemma BetweenTable(rows: seq<Pic>, low: Key, high: Key)
    requires Table(rows)
    ensures Table(Between(rows, low, high))
  {
    hide Select, Less;
    SelectAscending(rows, Within(low, high), (a, b) => Less(KeyOf(a), KeyOf(b)) && a.id != b.id);
  }

  /** A pic that is in the table is found by its own id, from either side. */
  lemma {:induction false} StartPicFound(rows: seq<Pic>, k: nat, asc: bool)
    requires k < |rows| && forall i, j :: 0 <= i < j < |rows| ==> rows[i].id != rows[j].id
    ensures StartPic(rows, rows[k].id, asc) == Some(rows[k])
  {
    if k > 0 {
      StartPicFound(rows[1..], k - 1, asc);
    } else {
      StartPicInRows(rows[1..], rows[0].id, asc);
    }
  }

  lemma {:induction false} StartPicInRows(rows: seq<Pic>, id: int64, asc: bool)
    ensures var p := StartPic(rows, id, asc);
            p.Some? ==> p.value in rows && if asc then p.value.id >= id else p.value.id <= id
  {
    if rows != [] {
      StartPicInRows(rows[1..], id, asc);
    }
  }

  lemma {:induction false} StartPicNearer(rows: seq<Pic>, id: int64, asc: bool, q: Pic)
    requires q in rows && if asc then q.id >= id else q.id <= id
    ensures var p := StartPic(rows, id, asc);
            p.Some? && if asc then p.value.id <= q.id else p.value.id >= q.id
  {
    if q in rows[1..] {
      StartPicNearer(rows[1..], id, asc, q);
    } else {
      assert q == rows[0];
    }
  }

  /** The start pic is the one with the nearest id, if there is any that way. */
  lemma StartPicNearest(rows: seq<Pic>, id: int64, asc: bool)
    ensures match StartPic(rows, id, asc)
            case None => forall q :: q in rows ==> if asc then q.id < id else q.id > id
            case Some(p) =>
              && p in rows && (if asc then p.id >= id else p.id <= id)
              && forall q :: q in rows && (if asc then q.id >= id else q.id <= id) ==>
                   if asc then p.id <= q.id else p.id >= q.id
  {
    hide StartPic;
    StartPicInRows(rows, id, asc);
    forall q | q in rows && (if asc then q.id >= id else q.id <= id)
      ensures StartPic(rows, id, asc).Some?
      ensures var p := StartPic(rows, id, asc).value; if asc then p.id <= q.id else p.id >= q.id
    {
      StartPicNearer(rows, id, asc, q);
    }
  }

  // The place of a bound

  function Lowest(from: Key): Key { if Less(from, BOTTOM) then from else BOTTOM }

  /** A listing, and what a bound below it adds in front. */
  function Shown(rows: seq<Pic>, from: Option<Key>, asc: bool): seq<Pic> {
    var up := Between(rows, if from.Some? then Lowest(from.value) else BOTTOM, TOP);
    if asc then up else Reverse(up)
  }

  lemma ShownIsListing(rows: seq<Pic>, from: Option<Key>, asc: bool)
    requires from.Some? ==> !Less(from.value, BOTTOM)
    ensures Shown(rows, from, asc) == Listing(rows, asc)
  {
  }

  function AheadOf(from: Key, asc: bool): Pic -> bool {
    p => Less(KeyOf(p), from) == asc
  }

  /** The number of pics that a bound leaves behind. */
  function Place(list: seq<Pic>, from: Option<Key>, asc: bool): nat {
    if from.None? then 0 else |Select(list, AheadOf(from.value, asc))|
  }

  ghost predicate InOrder(list: seq<Pic>, asc: bool) {
    forall i, j :: 0 <= i < j < |list| ==>
      if asc then Less(KeyOf(list[i]), KeyOf(list[j])) else Less(KeyOf(list[j]), KeyOf(list[i]))
  }

  lemma ShownInOrder(rows: seq<Pic>, from: Option<Key>, asc: bool)
    requires Table(rows)
    ensures InOrder(Shown(rows, from, asc), asc)
  {
    hide Between, Less;
    BetweenTable(rows, if from.Some? then Lowest(from.value) else BOTTOM, TOP);
  }

  lemma ListingInOrder(rows: seq<Pic>, asc: bool)
    requires Table(rows)
    ensures InOrder(Listing(rows, asc), asc)
  {
    ShownInOrder(rows, None, asc);
  }

  lemma PlaceSplits(list: seq<Pic>, from: Key, asc: bool)
    requires InOrder(list, asc)
    ensures var k := Place(list, Some(from), asc);
            k <= |list| && forall i :: 0 <= i < |list| ==> ((Less(KeyOf(list[i]), from) <==> asc) <==> i < k)
  {
    hide Select;
    SelectFront(list, AheadOf(from, asc));
  }

  /** A bound that separates the first k rows cuts them off. */
  lemma CutAt(rows: seq<Pic>, low: Key, from: Key, k: nat)
    requires Table(rows) && !Less(from, low) && k <= |Between(rows, low, TOP)|
    requires forall i :: 0 <= i < |Between(rows, low, TOP)| ==>
               (Less(KeyOf(Between(rows, low, TOP)[i]), from) <==> i < k)
    ensures Between(rows, from, TOP) == Between(rows, low, TOP)[k..]
    ensures Between(rows, low, from) == Between(rows, low, TOP)[..k]
  {
    hide Select;
    var up := Between(rows, low, TOP);
    BetweenMembers(rows, low, TOP);
    assert forall i :: 0 <= i < |up| ==> up[i] in up;
    SelectNarrow(rows, Within(low, TOP), Within(from, TOP));
    SelectNarrow(rows, Within(low, TOP), Within(low, from));
    SelectSlice(up, Within(from, TOP), k, |up|);
    SelectSlice(up, Within(low, from), 0, k);
  }

  lemma NothingBetween(rows: seq<Pic>, low: Key, high: Key)
    requires !Less(low, high)
    ensures Between(rows, low, high) == []
  {
    hide Select;
    SelectNone(rows, Within(low, high));
  }

  function Min(a: int, b: int): int { if a < b then a else b }

  /** The page that starts at position k of a list. */
  function PageAt(list: seq<Pic>, k: nat, max: nat): Page
    requires k <= |list|
  {
    Page(list[k..Min(k + max, |list|)],
         if k + max < |list| then list[k + max].id else 0,
         if 0 < k then list[k - 1].id else 0)
  }

  /** A bound anywhere cuts what is shown into what the two queries see. */
  lemma BoundCuts(rows: seq<Pic>, from: Key, m: nat)
    requires Table(rows)
    requires var up := Shown(rows, Some(from), true);
             m <= |up| && forall i :: 0 <= i < |up| ==> (Less(KeyOf(up[i]), from) <==> i < m)
    ensures var up := Shown(rows, Some(from), true);
            Between(rows, from, TOP) == up[m..] && Between(rows, BOTTOM, from) == up[..m]
  {
    hide Between;
    CutAt(rows, Lowest(from), from, m);
    if Less(from, BOTTOM) {
      NothingBetween(rows, BOTTOM, from);
      NothingBetween(rows, from, from);
    }
  }

  /** The two queries see the list from the place of the bound on, and what comes before, nearest first. */
  lemma QueriesAt(rows: seq<Pic>, from: Option<Key>, asc: bool)
    requires Table(rows)
    ensures var list := Shown(rows, from, asc);
            var k := Place(list, from, asc);
            k <= |list| && Onward(rows, from, asc, 0) == list[k..] && Backward(rows, from, asc, 0) == Reverse(list[..k])
  {
    hide Between, Select;
    if from.Some? && asc {
      hide Shown, Place;
      ShownInOrder(rows, from, true);
      PlaceSplits(Shown(rows, from, true), from.value, true);
      BoundCuts(rows, from.value, Place(Shown(rows, from, true), from, true));
    } else if from.Some? {
      QueriesDown(rows, from.value);
    }
  }

  lemma QueriesDown(rows: seq<Pic>, from: Key)
    requires Table(rows)
    ensures var list := Shown(rows, Some(from), false);
            var k := Place(list, Some(from), false);
            && k <= |list| && Onward(rows, Some(from), false, 0) == list[k..]
            && Backward(rows, Some(from), false, 0) == Reverse(list[..k])
  {
    var up, list := Shown(rows, Some(from), true), Shown(rows, Some(from), false);
    assert list == Reverse(up);
    hide Between, Place, Less, Shown;
    ShownInOrder(rows, Some(from), false);
    PlaceSplits(list, from, false);
    var k := Place(list, Some(from), false);
    var m := |up| - k;
    forall i | 0 <= i < |up| ensures Less(KeyOf(up[i]), from) <==> i < m {
      assert up[i] == list[|up| - 1 - i];
    }
    BoundCuts(rows, from, m);
    ReverseSlices(up, k);
    ReverseTwice(up[m..]);
  }

  lemma CutAtPosition(list: seq<Pic>, k: nat, max: nat, found: seq<Pic>, before: seq<Pic>)
    requires k <= |list|
    requires found == Limited(list[k..], max + 1) && before == Limited(Reverse(list[..k]), 1)
    ensures Cut(found, before, max + 1) == PageAt(list, k, max)
  {
    hide Reverse;
    if k > 0 { ReverseAt(list[..k], k - 1); }
    if k + max < |list| {
      assert found == First(list[k..], max + 1);
      SliceFrom(list, k, max + 1, max);
    }
  }

  // The page for any start id

  /** Whatever start id is asked for, the page is cut out of the list at the place of its bound: the pics from
      there on, the one after them, and the one before. */
  lemma PageIsPageAt(rows: seq<Pic>, asc: bool, max: nat, startId: int64)
    requires Table(rows)
    ensures var from := StartBound(rows, startId, asc);
            var list := Shown(rows, from, asc);
            && Place(list, from, asc) <= |list|
            && PageOf(rows, startId, max + 1, asc) == PageAt(list, Place(list, from, asc), max)
  {
    hide StartBound, Place, Shown, Between, BoundOf;
    var from := StartBound(rows, startId, asc);
    QueriesAt(rows, from, asc);
    var list := Shown(rows, from, asc);
    CutAtPosition(list, Place(list, from, asc), max, Onward(rows, from, asc, max + 1), Backward(rows, from, asc, 1));
  }

  /** The start ids whose pages belong to the listing: all but those of pics from before 1970. */
  predicate Proper(rows: seq<Pic>, startId: int64, asc: bool) {
    var from := StartBound(rows, startId, asc);
    from.Some? ==> !Less(from.value, BOTTOM)
  }

  lemma ProperPage(rows: seq<Pic>, asc: bool, max: nat, startId: int64)
    requires Table(rows) && Proper(rows, startId, asc)
    ensures var (list, from) := (Listing(rows, asc), StartBound(rows, startId, asc));
            && Place(list, from, asc) <= |list|
            && PageOf(rows, startId, max + 1, asc) == PageAt(list, Place(list, from, asc), max)
  {
    hide StartBound, Place, Shown, Listing, PageOf;
    PageIsPageAt(rows, asc, max, startId);
    ShownIsListing(rows, StartBound(rows, startId, asc), asc);
  }

  lemma ListedInRows(rows: seq<Pic>, asc: bool, k: nat)
    requires k < |Listing(rows, asc)|
    ensures Listing(rows, asc)[k] in rows
    ensures AllocatedIds(rows) ==> Listable(Listing(rows, asc)[k])
  {
    hide Between;
    BetweenMembers(rows, BOTTOM, TOP);
    var up := Between(rows, BOTTOM, TOP);
    assert Listing(rows, asc)[k] == if asc then up[k] else up[|up| - 1 - k];
  }

  /** The id of a listed pic stands for its own position. */
  lemma PlaceOfListed(rows: seq<Pic>, asc: bool, k: nat)
    requires Table(rows) && AllocatedIds(rows) && k < |Listing(rows, asc)|
    ensures var list := Listing(rows, asc);
            && StartBound(rows, list[k].id, asc) == Some(BoundOf(list[k], asc))
            && Proper(rows, list[k].id, asc)
            && Place(list, Some(BoundOf(list[k], asc)), asc) == k
  {
    hide Listing, StartPic, Place, Less;
    var list := Listing(rows, asc);
    ListedInRows(rows, asc, k);
    var i :| 0 <= i < |rows| && rows[i] == list[k];
    StartPicFound(rows, i, asc);
    BoundProper(list[k], asc);
    ListingInOrder(rows, asc);
    PlaceSplits(list, BoundOf(list[k], asc), asc);
    var p := Place(list, Some(BoundOf(list[k], asc)), asc);
    BoundSplits(list, asc, k, k);
    BoundSplits(list, asc, Min(p, k), k);
  }

  lemma BoundProper(p: Pic, asc: bool)
    requires Listable(p) && 1 <= p.id < MAX_INT64
    ensures !Less(BoundOf(p, asc), BOTTOM)
  {
  }

  /** The bound of a pic leaves behind what comes before the pic. */
  lemma BoundSplits(list: seq<Pic>, asc: bool, i: nat, k: nat)
    requires InOrder(list, asc) && i < |list| && k < |list|
    requires Listable(list[k]) && list[k].id < MAX_INT64
    ensures (Less(KeyOf(list[i]), BoundOf(list[k], asc)) <==> asc) <==> i < k
  {
  }

  /** A page shows a pic that should not be listed if and only if it is ascending and starts at a pic created
      before 1970: its bound lies below that of the listing. */
  lemma OldStartShowsHidden(rows: seq<Pic>, asc: bool, max: nat, startId: int64)
    requires Table(rows) && AllocatedIds(rows) && max >= 1
    ensures var start := StartPic(rows, startId, asc);
            (exists p :: p in PageOf(rows, startId, max + 1, asc).pics && !Listable(p))
            <==> asc && startId != 0 && start.Some? && start.value.created < 0
  {
    hide PageOf, Place, Between, StartPic, Listing, Shown;
    StartPicInRows(rows, startId, asc);
    if Proper(rows, startId, asc) {
      ProperPage(rows, asc, max, startId);
      PageListable(rows, asc, Place(Listing(rows, asc), StartBound(rows, startId, asc), asc), max);
    } else {
      PageIsPageAt(rows, asc, max, startId);
      OldPage(rows, asc, max, StartPic(rows, startId, asc).value);
    }
  }

  lemma PageListable(rows: seq<Pic>, asc: bool, k: nat, max: nat)
    requires AllocatedIds(rows) && k <= |Listing(rows, asc)|
    ensures forall p :: p in PageAt(Listing(rows, asc), k, max).pics ==> Listable(p)
  {
    hide Listing, Listable;
    var list := Listing(rows, asc);
    forall p | p in PageAt(list, k, max).pics ensures Listable(p) {
      var i :| k <= i < |list| && list[i] == p;
      ListedInRows(rows, asc, i);
    }
  }

  lemma OldPage(rows: seq<Pic>, asc: bool, max: nat, start: Pic)
    requires Table(rows) && AllocatedIds(rows) && max >= 1 && start in rows && Less(BoundOf(start, asc), BOTTOM)
    ensures var from := Some(BoundOf(start, asc));
            var list := Shown(rows, from, asc);
            && Place(list, from, asc) <= |list|
            && (exists p :: p in PageAt(list, Place(list, from, asc), max).pics && !Listable(p)) == asc
  {
    hide Between, Place, Listable, Less;
    var from := BoundOf(start, asc);
    var list := Shown(rows, Some(from), asc);
    OldPlace(rows, from, asc);
    if asc {
      OldFirst(rows, start);
      assert list[0] in PageAt(list, 0, max).pics;
    }
  }

  /** All rows shown are at or above an old bound: a descending page finds nothing before it. */
  lemma OldPlace(rows: seq<Pic>, from: Key, asc: bool)
    requires Table(rows) && Less(from, BOTTOM)
    ensures var list := Shown(rows, Some(from), asc);
            Place(list, Some(from), asc) == if asc then 0 else |list|
  {
    hide Between, Place, Less;
    var up, list := Between(rows, from, TOP), Shown(rows, Some(from), asc);
    ShownInOrder(rows, Some(from), asc);
    BetweenMembers(rows, from, TOP);
    PlaceSplits(list, from, asc);
    forall i | 0 <= i < |list| ensures !Less(KeyOf(list[i]), from) {
      assert list[i] == up[if asc then i else |up| - 1 - i];
    }
    assert list != [] ==> !Less(KeyOf(list[0]), from) && !Less(KeyOf(list[|list| - 1]), from);
  }

  lemma OldFirst(rows: seq<Pic>, start: Pic)
    requires Table(rows) && AllocatedIds(rows) && start in rows && Less(BoundOf(start, true), BOTTOM)
    ensures var up := Between(rows, BoundOf(start, true), TOP);
            up != [] && !Listable(up[0])
  {
    hide Between;
    var up := Between(rows, BoundOf(start, true), TOP);
    BetweenTable(rows, BoundOf(start, true), TOP);
    BetweenMembers(rows, BoundOf(start, true), TOP);
    assert start in up;
    var i :| 0 <= i < |up| && up[i] == start;
    assert i == 0 || Less(KeyOf(up[0]), KeyOf(start));
  }

  /** The pics of the first n pages, each asked for with the token of the one before, and the last token. */
  function Walk(rows: seq<Pic>, asc: bool, overmax: nat, startId: int64, n: nat): (seq<Pic>, int64)
    decreases n
  {
    if n == 0 then ([], startId)
    else
      var page := PageOf(rows, startId, overmax, asc);
      if page.next == 0 then (page.pics, 0)
      else
        var (rest, last) := Walk(rows, asc, overmax, page.next, n - 1);
        (page.pics + rest, last)
  }

  /** How far n pages reach from position k. */
  function Reach(k: nat, n: nat, max: nat, len: nat): (r: nat)
    requires k <= len
    ensures k <= r <= len
    decreases n
  {
    if n == 0 then k else Reach(Min(k + max, len), n - 1, max, len)
  }

  /** A page ends the listing, or its token stands for the position after it. */
  lemma PageLeadsOn(rows: seq<Pic>, asc: bool, max: nat, startId: int64)
    requires Table(rows) && AllocatedIds(rows) && Proper(rows, startId, asc)
    ensures var list, page := Listing(rows, asc), PageOf(rows, startId, max + 1, asc);
            var k := Place(list, StartBound(rows, startId, asc), asc);
            && k <= |list|
            && (k + max >= |list| ==> page.pics == list[k..] && page.next == 0)
            && (k + max < |list| ==>
                  && page.pics == list[k..k + max] && page.next != 0 && Proper(rows, page.next, asc)
                  && Place(list, StartBound(rows, page.next, asc), asc) == k + max)
  {
    hide PageOf, Listing, Place, Proper, StartBound, BoundOf;
    var list := Listing(rows, asc);
    ProperPage(rows, asc, max, startId);
    var k := Place(list, StartBound(rows, startId, asc), asc);
    if k + max < |list| {
      IdNotZero(rows, asc, k + max);
      PlaceOfListed(rows, asc, k + max);
    }
  }

  /** From any start id but those of old pics, n pages give the listing from its place on. */
  lemma {:induction false} WalkFrom(rows: seq<Pic>, asc: bool, max: nat, startId: int64, n: nat)
    requires Table(rows) && AllocatedIds(rows) && max >= 1 && Proper(rows, startId, asc)
    ensures var list := Listing(rows, asc);
            var k := Place(list, StartBound(rows, startId, asc), asc);
            && k <= |list|
            && Walk(rows, asc, max + 1, startId, n).0 == list[k..Reach(k, n, max, |list|)]
            && (n > 0 ==> (Walk(rows, asc, max + 1, startId, n).1 == 0 <==> Reach(k, n, max, |list|) == |list|))
    decreases n
  {
    hide PageOf, Listing, Place, Proper, StartBound, Table, AllocatedIds;
    var list, page := Listing(rows, asc), PageOf(rows, startId, max + 1, asc);
    PageLeadsOn(rows, asc, max, startId);
    var k := Place(list, StartBound(rows, startId, asc), asc);
    if n > 0 {
      if k + max < |list| {
        WalkFrom(rows, asc, max, page.next, n - 1);
        SlicesJoin(list, k, k + max, Reach(k, n, max, |list|));
      } else {
        ReachEnd(|list|, n - 1, max);
      }
    }
  }

  lemma {:induction false} ReachEnd(len: nat, n: nat, max: nat)
    ensures Reach(len, n, max, len) == len
  {
    if n > 0 { ReachEnd(len, n - 1, max); }
  }

  lemma {:induction false} ReachGrows(k: nat, n: nat, max: nat, len: nat)
    requires k <= len && max >= 1 && k + n >= len
    ensures Reach(k, n, max, len) == len
    decreases n
  {
    if k == len {
      ReachEnd(len, n, max);
    } else {
      ReachGrows(Min(k + max, len), n - 1, max, len);
    }
  }

  lemma FirstRequest(rows: seq<Pic>, asc: bool)
    ensures StartBound(rows, 0, asc) == None && Proper(rows, 0, asc) && Place(Listing(rows, asc), None, asc) == 0
  {
  }

  lemma ListingShorter(rows: seq<Pic>, asc: bool)
    ensures |Listing(rows, asc)| <= |rows|
  {
  }

  /** Following NextId from the start lists everything that can be listed, in order, once, and stops. */
  lemma FollowNext(rows: seq<Pic>, asc: bool, max: nat)
    requires Table(rows) && AllocatedIds(rows) && max >= 1
    ensures Walk(rows, asc, max + 1, 0, |rows| + 1) == (Listing(rows, asc), 0)
  {
    hide Walk, Proper, Listing, Place, StartBound;
    var list := Listing(rows, asc);
    ListingShorter(rows, asc);
    ReachGrows(0, |rows| + 1, max, |list|);
    FirstRequest(rows, asc);
    WalkFrom(rows, asc, max, 0, |rows| + 1);
    assert list[0..|list|] == list;
  }

  /** With a maximum of zero, which a configuration can ask for, no number of pages gets anywhere. */
  lemma {:induction false} StuckAtZero(rows: seq<Pic>, asc: bool, startId: int64, n: nat)
    requires Table(rows) && AllocatedIds(rows) && Listing(rows, asc) != []
    requires startId == 0 || startId == Listing(rows, asc)[0].id
    ensures n > 0 ==> Walk(rows, asc, 1, startId, n) == ([], Listing(rows, asc)[0].id)
    decreases n
  {
    hide PageOf, Listing, Place, Proper, StartBound;
    if n > 0 {
      FirstRequest(rows, asc);
      PlaceOfListed(rows, asc, 0);
      ProperPage(rows, asc, 0, startId);
      ListedInRows(rows, asc, 0);
      var page := PageOf(rows, startId, 1, asc);
      assert page.pics == [] && page.next == Listing(rows, asc)[0].id && page.next != 0;
      StuckAtZero(rows, asc, page.next, n - 1);
      assert Walk(rows, asc, 1, page.next, n - 1) == ([], page.next);
      assert page.pics + [] == [];
    }
  }

  /** The listing holds exactly the pics that can be listed: so a pic that is not hidden is left out if and
      only if it was created before 1970. */
  lemma ListingComplete(rows: seq<Pic>, asc: bool, p: Pic)
    requires Table(rows) && AllocatedIds(rows)
    ensures p in Listing(rows, asc) <==> p in rows && Listable(p)
    ensures Table(Listing(rows, true)) && Listing(rows, false) == Reverse(Listing(rows, true))
  {
    hide Reverse, Between;
    BetweenMembers(rows, BOTTOM, TOP);
    BetweenTable(rows, BOTTOM, TOP);
    ReverseMembers(Between(rows, BOTTOM, TOP), p);
  }

  lemma OtherListing(rows: seq<Pic>, asc: bool)
    ensures Listing(rows, !asc) == Reverse(Listing(rows, asc))
  {
    ReverseTwice(Listing(rows, true));
  }

  lemma BackSlice(list: seq<Pic>, k: nat, max: nat)
    requires k <= |list| && max >= 1
    ensures PageAt(list, k, max).prev == if k > 0 then list[k - 1].id else 0
    ensures PageAt(Reverse(list), |list| - k, max).pics == Reverse(list[Max(0, k - max)..k])
    ensures k > 0 ==> Reverse(list)[|list| - k] == list[k - 1]
  {
  }

  /** Asking in the other direction from PrevId gives the pics just before the page, nearest first; there are
      none if and only if PrevId is zero. */
  lemma BackFromPrev(rows: seq<Pic>, asc: bool, max: nat, startId: int64)
    requires Table(rows) && AllocatedIds(rows) && max >= 1 && Proper(rows, startId, asc)
    ensures var list := Listing(rows, asc);
            var k := Place(list, StartBound(rows, startId, asc), asc);
            var prev := PageOf(rows, startId, max + 1, asc).prev;
            && k <= |list| && (prev == 0 <==> k == 0)
            && (k > 0 ==>
                  && prev == list[k - 1].id
                  && PageOf(rows, prev, max + 1, !asc).pics == Reverse(list[Max(0, k - max)..k]))
  {
    hide *;
    var list := Listing(rows, asc);
    ProperPage(rows, asc, max, startId);
    var k := Place(list, StartBound(rows, startId, asc), asc);
    BackSlice(list, k, max);
    if k > 0 {
      IdNotZero(rows, asc, k - 1);
      OtherListing(rows, asc);
      PlaceOfListed(rows, !asc, |list| - k);
      ProperPage(rows, !asc, max, list[k - 1].id);
    }
  }

  lemma IdNotZero(rows: seq<Pic>, asc: bool, k: nat)
    requires AllocatedIds(rows) && k < |Listing(rows, asc)|
    ensures Listing(rows, asc)[k].id != 0
  {
    hide Listing;
    ListedInRows(rows, asc, k);
  }

  function Max(a: int, b: int): int { if a < b then b else a }
}
