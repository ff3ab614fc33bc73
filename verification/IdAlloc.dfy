/** One server's cache of ids (be/schema/db/idalloc.go) and the sequence row it is filled from. */
module IdAlloc {
  import opened Prelude

  datatype SeqError = GrabTooLow | TooManyRows | TooFewRows | AllocationOverflow | CommitFailed

  /** What a call to Commit does to the table and what it reports. An error leaves it open which. */
  datatype CommitOutcome = Acknowledged | AppliedWithError | Dropped

  /** The ids base, base + 1, ... */
  function Run(base: int, n: nat): (ids: seq<int>)
    ensures |ids| == n && forall i :: 0 <= i < n ==> ids[i] == base + i
    ensures forall id :: id in ids <==> base <= id < base + n
  {
    var ids := seq(n, i => base + i);
    RunMembers(ids, base);
    ids
  }

  lemma RunMembers(ids: seq<int>, base: int)
    requires forall i :: 0 <= i < |ids| ==> ids[i] == base + i
    ensures forall id :: id in ids <==> base <= id < base + |ids|
  {
    forall id | base <= id < base + |ids| ensures id in ids {
      assert ids[id - base] == id;
    }
  }

  lemma RunHead(base: int, n: nat)
    requires n > 0
    ensures Run(base, n) == [base] + Run(base + 1, n - 1)
  {
  }

  /** The difference `math.MaxInt64 - num`, which wraps when num is negative. */
  function RoomAbove(num: int64): int64 {
    if num >= 0 then MAX_INT64 - num else MAX_INT64 - num - TWO_TO_THE_64
  }

  /** `reserveIds` on the rows a transaction sees: the first id reserved and the rows after the update. */
  function Reserve(rows: seq<int64>, grab: int): Result<(int64, seq<int64>), SeqError> {
    if grab < 1 then Err(GrabTooLow)
    else if |rows| > 1 then Err(TooManyRows)
    else if |rows| == 0 then Err(TooFewRows)
    else if grab > RoomAbove(rows[0]) then Err(AllocationOverflow)
    else Ok((rows[0], [rows[0] + grab]))
  }

  /** What a refill of a queue below the low watermark does: either exactly the ids from the row on, as many as are
      missing, are in the queue and the row has been counted up by as many, or the queue is as it was. */
  ghost predicate FilledUp(before: seq<int>, after: seq<int>, high: int, rows: seq<int64>, rows': seq<int64>,
                           outcome: CommitOutcome, r: Result<(), SeqError>) {
    var n, grab := |before|, high - |before|;
    && (r == Err(TooManyRows) <==> |rows| > 1)
    && (r == Err(TooFewRows) <==> |rows| == 0)
    && (r == Err(AllocationOverflow) <==> |rows| == 1 && (rows[0] < 0 || grab > MAX_INT64 - rows[0]))
    && (r == Err(CommitFailed) <==>
          |rows| == 1 && rows[0] >= 0 && grab <= MAX_INT64 - rows[0] && outcome != Acknowledged)
    && (r.Ok? <==> |rows| == 1 && rows[0] >= 0 && grab <= MAX_INT64 - rows[0] && outcome == Acknowledged)
    && (r.Ok? ==>
          && rows' == [rows[0] + grab]
          && before <= after && |after| == high
          && forall i :: n <= i < high ==> after[i] == rows[0] + (i - n))
    && (r.Err? ==> after == before)
    && (r.Err? ==> rows' == if r.error == CommitFailed && outcome == AppliedWithError then [rows[0] + grab] else rows)
  }

  lemma RunFills(before: seq<int>, high: int, rows: seq<int64>)
    requires |before| < high && |rows| == 1 && rows[0] >= 0 && high - |before| <= MAX_INT64 - rows[0]
    ensures FilledUp(before, before + Run(rows[0], high - |before|), high, rows, [rows[0] + high - |before|], Acknowledged,
                     Ok(()))
  {
  }

  class IdRange {
    var next: int
    var available: int

    constructor (next: int, available: int)
      ensures this.next == next && this.available == available
    {
      this.next, this.available := next, available;
    }
  }

  ghost predicate Ranges(idrs: seq<IdRange>)
    reads idrs
  {
    && (forall i :: 0 <= i < |idrs| ==> idrs[i].available >= 0)
    && (forall i, j :: 0 <= i < j < |idrs| ==> idrs[i] != idrs[j])
  }

  /** The ids left in the ranges, in the order they will be given out. */
  ghost function Ids(idrs: seq<IdRange>): seq<int>
    requires Ranges(idrs)
    reads idrs
  {
    if idrs == [] then []
    else Run(idrs[0].next, idrs[0].available) + Ids(idrs[1..])
  }

  lemma {:induction false} IdsAppend(idrs: seq<IdRange>, r: IdRange)
    requires Ranges(idrs + [r])
    ensures Ranges(idrs) && r.available >= 0 && Ids(idrs + [r]) == Ids(idrs) + Run(r.next, r.available)
  {
    var all := idrs + [r];
    assert forall i :: 0 <= i < |idrs| ==> idrs[i] == all[i];
    assert all[|idrs|] == r;
    if idrs == [] {
      assert all == [r] && all[1..] == [];
    } else {
      assert all[1..] == idrs[1..] + [r];
      IdsAppend(idrs[1..], r);
    }
  }

  /** Used-up ranges at the front hold no ids. */
  lemma {:induction false} IdsSkip(idrs: seq<IdRange>, n: nat)
    requires Ranges(idrs) && n <= |idrs|
    requires forall i :: 0 <= i < n ==> idrs[i].available == 0
    ensures Ids(idrs) == Ids(idrs[n..])
  {
    if n > 0 {
      IdsSkip(idrs[1..], n - 1);
      assert idrs[1..][n - 1..] == idrs[n..];
    } else {
      assert idrs[n..] == idrs;
    }
  }

  class IdAlloc {
    var idrs: seq<IdRange>
    var total: int

    ghost predicate Valid()
      reads this, idrs
    {
      Ranges(idrs) && total == |Contents()|
    }

    /** The cached ids, as a queue. `total` is its length. */
    ghost function Contents(): seq<int>
      requires Ranges(idrs)
      reads this, idrs
    {
      Ids(idrs)
    }

    constructor ()
      ensures Valid() && Contents() == [] && idrs == []
    {
      idrs, total := [], 0;
    }

    /** The part of `allocIdJob` under the lock: the head of the queue, if there is one.
        The loop always finds a range with ids when `total` is positive: the panic is unreachable. */
    method TakeCached() returns (id: Option<int>)
      requires Valid()
      modifies this, idrs
      ensures Valid()
      ensures forall r :: r in idrs ==> r in old(idrs)
      ensures if old(Contents()) == [] then id == None && Contents() == []
              else id == Some(old(Contents())[0]) && Contents() == old(Contents())[1..]
    {
      if total <= 0 {
        return None;
      }
      var i := 0;
      while i < |idrs| && idrs[i].available <= 0
        invariant 0 <= i <= |idrs|
        invariant forall k :: 0 <= k < i ==> idrs[k].available == 0
      {
        i := i + 1;
      }
      IdsSkip(idrs, i);
      if i == |idrs| {
        assert false;
      }
      var idr := idrs[i];
      idrs := idrs[i..];
      var taken := idr.next;
      TakeFirst();
      return Some(taken);
    }

    /** The assignment in the loop of `allocIdJob`, once the used-up ranges are cut off. */
    method TakeFirst()
      requires Valid() && |idrs| > 0 && idrs[0].available > 0
      modifies this`total, idrs[0]
      ensures Valid()
      ensures old(Contents()) == [old(idrs[0].next)] + Contents()
    {
      var idr := idrs[0];
      ghost var rest := Ids(idrs[1..]);
      RunHead(idr.next, idr.available);
      idr.next, idr.available, total := idr.next + 1, idr.available - 1, total - 1;
      assert idr !in idrs[1..];
      assert Ids(idrs[1..]) == rest;
    }

    /** `allocIdJob` for a job whose transaction sees the given rows: a cached id, or one reserved by the
        transaction itself, which leaves the cache alone. */
    method AllocIdJob(rows: seq<int64>) returns (r: Result<int, SeqError>, rows': seq<int64>)
      requires Valid()
      modifies this, idrs
      ensures Valid()
      ensures forall r :: r in idrs ==> r in old(idrs)
      ensures old(Contents()) != [] ==>
                r == Ok(old(Contents())[0]) && Contents() == old(Contents())[1..] && rows' == rows
      ensures old(Contents()) == [] ==>
                && Contents() == []
                && (r.Ok? <==> |rows| == 1 && 0 <= rows[0] < MAX_INT64)
                && (r.Ok? ==> r.value == rows[0] && rows' == [rows[0] + 1])
                && (r == Err(TooManyRows) <==> |rows| > 1)
                && (r == Err(TooFewRows) <==> |rows| == 0)
                && (r == Err(AllocationOverflow) <==> |rows| == 1 && (rows[0] < 0 || rows[0] == MAX_INT64))
                && (r.Err? ==> rows' == rows)
    {
      var id := TakeCached();
      if id.Some? {
        return Ok(id.value), rows;
      }
      match Reserve(rows, 1) {
        case Ok((num, after)) => return Ok(num), after;
        case Err(e) => return Err(e), rows;
      }
    }

    /** The end of a refill: the ids reserved go to the back of the queue. */
    method AppendRange(base: int, n: nat)
      requires Valid()
      modifies this
      ensures Valid() && Contents() == old(Contents()) + Run(base, n)
      ensures old(idrs) <= idrs && fresh(set x | x in idrs[|old(idrs)|..])
    {
      hide Run;
      var idr := new IdRange(base, n);
      ghost var before := idrs;
      idrs := idrs + [idr];
      total := total + n;
      assert idrs[|before|..] == [idr];
      assert Ids(before) == old(Ids(idrs));
      IdsAppend(before, idr);
    }

    /** `preallocateIds` from the second check on, which holds the lock throughout: fill up to the high
        watermark by a transaction of its own. The rows are those of the table; a dropped commit leaves them. */
    method Refill(low: int, high: int, rows: seq<int64>, outcome: CommitOutcome)
      returns (r: Result<(), SeqError>, rows': seq<int64>)
      requires Valid() && low <= high
      modifies this
      ensures Valid()
      ensures old(idrs) <= idrs && fresh(set x | x in idrs[|old(idrs)|..])
      ensures |old(Contents())| >= low ==> r == Ok(()) && rows' == rows && Contents() == old(Contents())
      ensures |old(Contents())| < low ==> FilledUp(old(Contents()), Contents(), high, rows, rows', outcome, r)
    {
      hide Run;
      if total >= low {
        return Ok(()), rows;
      }
      var grab := high - total;
      match Reserve(rows, grab) {
        case Err(e) => return Err(e), rows;
        case Ok((base, after)) =>
          if outcome != Acknowledged {
            return Err(CommitFailed), if outcome == Dropped then rows else after;
          }
          RunFills(Contents(), high, rows);
          AppendRange(base, grab);
          return Ok(()), after;
      }
    }
  }
}
