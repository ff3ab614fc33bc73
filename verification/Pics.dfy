/** The row of a pic over its life: upload and re-upload (be/tasks/upsert_pic_task.go), soft and hard deletion
    (be/tasks/soft_delete_pic_task.go, be/tasks/hard_delete_pic_task.go), purge. */
module Pics {
  import opened Indexes
  import opened Notifications
  import opened Prelude

  const REASON_UNKNOWN := 0
  const REASON_NONE := 1

  datatype Deletion = Deletion(marked: Option<int64>, pending: Option<int64>, actual: Option<int64>, reason: int,
                               details: string, temporary: bool)

  datatype File = File(index: int64, mime: int)

  datatype Source = Source(user: int64, url: string)

  datatype Pic = Pic(deletion: Option<Deletion>, thumbs: seq<File>, derived: seq<File>, sources: seq<Source>,
                     ext: map<string, string>, created: int64, modified: int64, views: int, voteUp: int, voteDown: int)

  datatype PicError = NoReason | NoPic | AlreadyHardDeleted | CannotUpload | CannotLookup | NoId | IndexPanic |
                      EventOverflow | DuplicateExt

  predicate HardDeleted(p: Pic) {
    p.deletion.Some? && p.deletion.value.actual.Some?
  }

  predicate SoftDeleted(p: Pic) {
    p.deletion.Some? && p.deletion.value.marked.Some? && !HardDeleted(p)
  }

  /** The column that listings are ordered by; -1 hides a pic. */
  function IndexOrder(p: Pic): int64 {
    if HardDeleted(p) then -1 else p.created
  }

  // File indexes

  predicate UsesIndex(files: seq<File>, i: int64) {
    exists k :: 0 <= k < |files| && files[k].index == i
  }

  predicate DistinctIndexes(files: seq<File>) {
    forall i, k :: 0 <= i < k < |files| ==> files[i].index != files[k].index
  }

  /** No file has the index, and every index below it is that of a file. */
  ghost predicate LeastFree(files: seq<File>, i: int64) {
    i >= 0 && !UsesIndex(files, i) && forall k :: 0 <= k < i ==> UsesIndex(files, k)
  }

  /** The indexes below a bound. */
  function Below(n: nat): (r: set<int>)
    ensures |r| == n && forall i :: i in r <==> 0 <= i < n
  {
    if n == 0 then {} else Below(n - 1) + {n - 1}
  }

  /** `nextPicFileIndex`: the least index that is not used, or the panic when an index is used twice. */
  method NextPicFileIndex(thumbs: seq<File>, derived: seq<File>) returns (r: Option<int64>)
    requires |thumbs| + |derived| <= MAX_INT64
    ensures r == None <==> !DistinctIndexes(thumbs + derived)
    ensures r.Some? ==> r.value <= |thumbs| + |derived| && LeastFree(thumbs + derived, r.value)
  {
    var all := thumbs + derived;
    var used: set<int64> := {};
    for n := 0 to |all|
      invariant |used| == n && DistinctIndexes(all[..n])
      invariant forall i :: i in used <==> UsesIndex(all[..n], i)
    {
      UsesMore(all, n);
      if all[n].index in used {
        return None;
      }
      used := used + {all[n].index};
    }
    assert all[..|all|] == all;
    var i: int64 := 0;
    while i in used
      invariant 0 <= i <= |used|
      invariant forall k :: 0 <= k < i ==> k in used
      decreases |used| - i
    {
      SubsetSize(Below(i + 1), used);
      i := i + 1;
    }
    return Some(i);
  }

  lemma UsesMore(all: seq<File>, n: nat)
    requires n < |all|
    ensures forall i :: UsesIndex(all[..n + 1], i) <==> UsesIndex(all[..n], i) || all[n].index == i
    ensures UsesIndex(all[..n], all[n].index) ==> !DistinctIndexes(all)
    ensures DistinctIndexes(all[..n]) && !UsesIndex(all[..n], all[n].index) ==> DistinctIndexes(all[..n + 1])
  {
    forall i ensures UsesIndex(all[..n + 1], i) <==> UsesIndex(all[..n], i) || all[n].index == i {
      assert all[..n + 1][n] == all[n];
      if UsesIndex(all[..n], i) {
        var k :| 0 <= k < n && all[..n][k].index == i;
        assert all[..n + 1][k].index == i;
      }
    }
    if UsesIndex(all[..n], all[n].index) {
      var k :| 0 <= k < n && all[..n][k].index == all[n].index;
      assert all[k].index == all[n].index;
    }
    if DistinctIndexes(all[..n]) && !UsesIndex(all[..n], all[n].index) {
      var was, now := all[..n], all[..n + 1];
      forall i, k | 0 <= i < k < |now| ensures now[i].index != now[k].index {
        assert was[i] == now[i];
        if k < n { assert was[k] == now[k]; }
      }
    }
  }

  // Sources

  /** A source adds nothing when its address, or its named user, is there already. */
  predicate KnownSource(sources: seq<Source>, s: Source) {
    exists i :: 0 <= i < |sources|
      && (sources[i].url == s.url || (sources[i].user != ANONYMOUS && sources[i].user == s.user))
  }

  predicate SourcesApart(sources: seq<Source>) {
    forall i, k :: 0 <= i < k < |sources| ==>
      sources[i].url != sources[k].url && (sources[i].user != ANONYMOUS ==> sources[i].user != sources[k].user)
  }

  // `mergePic`

  datatype Upload = Upload(hash: string, source: Source, ext: map<string, string>, derivedMime: Option<int>,
                           thumbMime: int, now: int64)

  /** What an upload does to the row of a pic, once the files are in place. */
  ghost predicate Merged(p: Pic, p': Pic, up: Upload) {
    && (p'.deletion == if p.deletion.Some? && p.deletion.value.temporary then None else p.deletion)
    && (p'.sources == if KnownSource(p.sources, up.source) then p.sources else p.sources + [up.source])
    && p.ext.Keys !! up.ext.Keys && p'.ext == p.ext + up.ext
    && p' == p.(deletion := p'.deletion, sources := p'.sources, ext := p'.ext, modified := up.now)
  }

  method IsKnownSource(sources: seq<Source>, t: Source) returns (found: bool)
    ensures found <==> KnownSource(sources, t)
  {
    for i := 0 to |sources|
      invariant !KnownSource(sources[..i], t)
    {
      var s := sources[i];
      if s.url == t.url {
        return true;
      }
      if s.user != ANONYMOUS && s.user == t.user {
        return true;
      }
    }
    assert sources[..|sources|] == sources;
    return false;
  }

  /** The loop over the extension data of an upload. */
  method MergeExt(ext: map<string, string>, more: map<string, string>) returns (r: Option<map<string, string>>)
    ensures r == None <==> !(ext.Keys !! more.Keys)
    ensures r.Some? ==> r.value == ext + more
  {
    var merged := ext;
    var rest := more.Keys;
    while rest != {}
      invariant rest <= more.Keys
      invariant forall k :: k in more && k !in rest ==> k !in ext
      invariant forall k :: k in merged <==> k in ext || (k in more && k !in rest)
      invariant forall k :: k in merged ==> merged[k] == if k in ext then ext[k] else more[k]
      decreases |rest|
    {
      var k :| k in rest;
      if k in merged {
        return None;
      }
      merged := merged[k := more[k]];
      rest := rest - {k};
    }
    assert merged == ext + more;
    return Some(merged);
  }

  /** A named user who adds a source hears of it. */
  predicate Announced(p: Pic, up: Upload) {
    !KnownSource(p.sources, up.source) && up.source.user != ANONYMOUS
  }

  /** The events after the upload. */
  ghost predicate Announces(p: Pic, id: int64, up: Upload, events: EventTable, events': EventTable) {
    if Announced(p, up) then Told(events, events', up.now, up.source.user, Upserted(id)) else events' == events
  }

  method MergePic(p: Pic, id: int64, up: Upload, events: EventTable)
    returns (r: Result<Pic, PicError>, events': EventTable)
    requires AllDense(events.Keys)
    ensures r.Ok? ==> Merged(p, r.value, up) && AllDense(events'.Keys)
    ensures r.Ok? ==> Announces(p, id, up, events, events')
    ensures r == Err(EventOverflow) <==> Announced(p, up) && !Fits(events, up.now, up.source.user)
    ensures r == Err(DuplicateExt) <==>
              !(p.ext.Keys !! up.ext.Keys) && (Announced(p, up) ==> Fits(events, up.now, up.source.user))
    ensures r.Err? ==> r.error in {EventOverflow, DuplicateExt} && events' == events
  {
    hide Told, AllDense, Fits, KnownSource;
    events' := events;
    var q := p.(modified := up.now);
    if p.deletion.Some? {
      if p.deletion.value.temporary {
        q := q.(deletion := None);
      }
    }
    var known := IsKnownSource(p.sources, up.source);
    if !known {
      q := q.(sources := q.sources + [up.source]);
      if up.source.user != ANONYMOUS {
        OnlyAuthor(events, up.now, up.source.user, id);
        var told := Notify(events, up.now, up.source.user, Upserted(id));
        if told == None {
          return Err(EventOverflow), events;
        }
        events' := told.value;
      }
    }
    var ext := MergeExt(p.ext, up.ext);
    if ext == None {
      return Err(DuplicateExt), events;
    }
    q := q.(ext := ext.value);
    return Ok(q), events';
  }

  lemma OnlyAuthor(events: EventTable, at: int64, user: int64, id: int64)
    requires user != ANONYMOUS
    ensures AllFit(events, at, user, Upserted(id)) <==> Fits(events, at, user)
  {
    assert Audience(user, Upserted(id)) == {user};
  }

  // The invariant

  /** What every row keeps: a deletion has a time; a hard-deleted pic has no thumbnails, any other has; files
      can be told apart by index; sources by address and by named user. */
  ghost predicate Proper(p: Pic) {
    && (p.deletion.Some? ==> p.deletion.value.marked.Some?)
    && (HardDeleted(p) <==> p.thumbs == [])
    && DistinctIndexes(p.thumbs + p.derived)
    && p.sources != [] && SourcesApart(p.sources)
  }

  datatype Tables = Tables(pics: map<int64, Pic>, idents: map<string, int64>)

  /** Every pic is proper and is found by the hash of its file, and by that only. */
  ghost predicate Sound(t: Tables) {
    && (forall id :: id in t.pics ==> Proper(t.pics[id]) && exists h :: h in t.idents && t.idents[h] == id)
    && (forall h :: h in t.idents ==> t.idents[h] in t.pics)
    && (forall g, h :: g in t.idents && h in t.idents && t.idents[g] == t.idents[h] ==> g == h)
  }

  // The tasks

  /** The pic is deleted in appearance: when this happened first is kept, the rest is overwritten. */
  ghost predicate SoftStep(t: Tables, t': Tables, id: int64, reason: int, details: string, temporary: bool,
                           pending: Option<int64>, now: int64) {
    && reason != REASON_UNKNOWN && id in t.pics && !HardDeleted(t.pics[id])
    && id in t'.pics && SoftDeleted(t'.pics[id])
    && t'.pics[id].deletion.value == Deletion(
         Some(if t.pics[id].deletion.Some? && t.pics[id].deletion.value.marked.Some?
              then t.pics[id].deletion.value.marked.value else now),
         pending, None, reason, details, temporary)
    && t' == t.(pics := t.pics[id := t.pics[id].(deletion := t'.pics[id].deletion, modified := now)])
  }

  /** The pic is deleted: only now it loses its thumbnails. */
  ghost predicate HardStep(t: Tables, t': Tables, id: int64, now: int64) {
    && id in t.pics && !HardDeleted(t.pics[id])
    && id in t'.pics && HardDeleted(t'.pics[id]) && t'.pics[id].thumbs == []
    && t'.pics[id].deletion.value == (
         if t.pics[id].deletion.Some? then t.pics[id].deletion.value.(actual := Some(now))
         else Deletion(Some(now), Some(now), Some(now), REASON_NONE, "", false))
    && t' == t.(pics := t.pics[id := t.pics[id].(deletion := t'.pics[id].deletion, thumbs := [], modified := now)])
  }

  /** The files of an upload behind those there are: the converted video, if there is one, in its own format, and
      the thumbnail in its own, each under the least index that is free when it is added. */
  ghost predicate FilesAdded(thumbs: seq<File>, derived: seq<File>, p: Pic, up: Upload) {
    && (match up.derivedMime
        case None => p.derived == derived
        case Some(mime) => exists i :: LeastFree(thumbs + derived, i) && p.derived == derived + [File(i, mime)])
    && exists k :: LeastFree(thumbs + p.derived, k) && p.thumbs == thumbs + [File(k, up.thumbMime)]
  }

  /** The row that an upload merges into: a new one, a restored one with new files, or the one there is. */
  ghost predicate Prepared(before: Option<Pic>, p: Pic, up: Upload) {
    match before
    case None =>
      && p.deletion == None && p.sources == [] && p.ext == map[] && p.created == up.now
      && p.views == 0 && p.voteUp == 0 && p.voteDown == 0
      && FilesAdded([], [], p, up) && DistinctIndexes(p.thumbs + p.derived)
    case Some(q) =>
      if HardDeleted(q) then
        && q.deletion.value.temporary
        && p == q.(thumbs := p.thumbs, derived := p.derived)
        && FilesAdded(q.thumbs, q.derived, p, up)
        && (DistinctIndexes(q.thumbs + q.derived) ==> DistinctIndexes(p.thumbs + p.derived))
      else p == q
  }

  ghost predicate UploadStep(t: Tables, t': Tables, id: int64, up: Upload) {
    && id in t'.pics && t' == Tables(t.pics[id := t'.pics[id]], t.idents[up.hash := id])
    && (if up.hash in t.idents then id == t.idents[up.hash] && id in t.pics else id !in t.pics)
    && exists p :: Merged(p, t'.pics[id], up) && Prepared(if up.hash in t.idents then Some(t.pics[id]) else None, p, up)
  }

  /** A view or a vote: refused on a hard-deleted pic; counters only. */
  ghost predicate CountStep(t: Tables, t': Tables, id: int64) {
    && id in t.pics && !HardDeleted(t.pics[id]) && id in t'.pics
    && t' == t.(pics := t.pics[id := t.pics[id].(modified := t'.pics[id].modified, views := t'.pics[id].views,
                                                 voteUp := t'.pics[id].voteUp, voteDown := t'.pics[id].voteDown)])
  }

  ghost predicate PurgeStep(t: Tables, t': Tables, id: int64) {
    t' == Tables(t.pics - {id}, map h | h in t.idents && t.idents[h] != id :: t.idents[h])
  }

  class Job {
    var t: Tables
    /** The ids that the allocator will give out. */
    var supply: seq<int64>

    constructor (t: Tables, supply: seq<int64>)
      ensures this.t == t && this.supply == supply
    {
      this.t, this.supply := t, supply;
    }

    /** `SoftDeletePicTask.Run`. */
    method SoftDelete(id: int64, reason: int, details: string, temporary: bool, pending: Option<int64>, now: int64)
      returns (r: Result<bool, PicError>)
      modifies this`t
      ensures r.Ok? ==> SoftStep(old(t), t, id, reason, details, temporary, pending, now)
      ensures r.Err? ==> t == old(t)
      ensures r.Ok? <==> reason != REASON_UNKNOWN && id in old(t).pics && !HardDeleted(old(t).pics[id])
    {
      if reason == REASON_UNKNOWN {
        return Err(NoReason);
      }
      if id !in t.pics {
        return Err(NoPic);
      }
      var p := t.pics[id];
      var d := Deletion(None, None, None, REASON_UNKNOWN, "", false);
      if p.deletion.Some? {
        if HardDeleted(p) {
          return Err(AlreadyHardDeleted);
        }
        d := p.deletion.value;
      }
      d := d.(reason := reason, details := details, temporary := temporary);
      if pending.Some? {
        d := d.(pending := pending);
      } else {
        d := d.(pending := None);
      }
      if d.marked == None {
        d := d.(marked := Some(now));
      }
      p := p.(deletion := Some(d), modified := now);
      t := t.(pics := t.pics[id := p]);
      return Ok(true);
    }

    /** `HardDeletePicTask.Run` up to the commit. */
    method HardDelete(id: int64, now: int64) returns (r: Result<bool, PicError>)
      modifies this`t
      ensures r.Ok? ==> HardStep(old(t), t, id, now)
      ensures r.Err? ==> t == old(t)
      ensures r.Ok? <==> id in old(t).pics && !HardDeleted(old(t).pics[id])
    {
      if id !in t.pics {
        return Err(NoPic);
      }
      var p := t.pics[id];
      if p.deletion == None {
        p := p.(deletion := Some(Deletion(Some(now), Some(now), None, REASON_NONE, "", false)));
      }
      if HardDeleted(p) {
        return Err(AlreadyHardDeleted);
      }
      p := p.(deletion := Some(p.deletion.value.(actual := Some(now))));
      p := p.(thumbs := []);
      p := p.(modified := now);
      t := t.(pics := t.pics[id := p]);
      return Ok(true);
    }

    /** `UpsertPicTask.Run` from the lookup by hash on, when no file operation fails. */
    method UploadPic(up: Upload, events: EventTable) returns (r: Result<int64, PicError>, events': EventTable)
      requires Sound(t) && AllDense(events.Keys) && forall i :: 0 <= i < |supply| ==> supply[i] !in t.pics
      requires forall id :: id in t.pics ==> |t.pics[id].thumbs| + |t.pics[id].derived| < MAX_INT64 - 1
      modifies this
      ensures r.Ok? ==> UploadStep(old(t), t, r.value, up) && AllDense(events'.Keys)
      ensures up.hash !in old(t).idents && old(supply) != [] ==> supply == old(supply)[1..]
      ensures up.hash in old(t).idents ==> supply == old(supply)
      ensures r.Ok? && up.hash !in old(t).idents ==> old(supply) != [] && r.value == old(supply)[0]
      ensures r.Ok? ==> Announces(Target(old(t), up), r.value, up, events, events')
      ensures r.Err? ==> t == old(t) && events' == events
      ensures r.Err? ==> r.error in {CannotUpload, NoId, EventOverflow, DuplicateExt}
      ensures r == Err(CannotUpload) <==> up.hash in old(t).idents && Frozen(old(t), old(t).idents[up.hash])
      ensures r == Err(NoId) <==> up.hash !in old(t).idents && old(supply) == []
      ensures r == Err(EventOverflow) <==> Allowed(old(t), old(supply), up) && !Announceable(old(t), up, events)
      ensures r == Err(DuplicateExt) <==>
                && Allowed(old(t), old(supply), up) && Announceable(old(t), up, events)
                && !(Target(old(t), up).ext.Keys !! up.ext.Keys)
      ensures r.Ok? <==>
                && Allowed(old(t), old(supply), up) && Announceable(old(t), up, events)
                && Target(old(t), up).ext.Keys !! up.ext.Keys
    {
      hide Sound, AllDense, Told, Fits, KnownSource, DistinctIndexes, Proper;
      var id: int64 := 0;
      var p := NewPic(up.now);
      if up.hash in t.idents {
        id := t.idents[up.hash];
        IdentFound(t, up.hash);
        if id !in t.pics {
          return Err(CannotLookup), events;
        }
        p := t.pics[id];
        if HardDeleted(p) {
          if !p.deletion.value.temporary {
            return Err(CannotUpload), events;
          }
        } else {
          r, events' := StoreMerged(id, p, up, events, Some(p));
          return;
        }
      } else {
        if |supply| == 0 {
          return Err(NoId), events;
        }
        id := supply[0];
        supply := supply[1..];
        NewPicProper(up.now);
      }
      var filed := AddFiles(p, up);
      if filed == None {
        return Err(IndexPanic), events;
      }
      FilesPrepare(p, filed.value, up, up.hash in t.idents);
      r, events' := StoreMerged(id, filed.value, up, events, if up.hash in t.idents then Some(p) else None);
    }

    /** The last part: the row is merged and written. */
    method StoreMerged(id: int64, p: Pic, up: Upload, events: EventTable, ghost before: Option<Pic>)
      returns (r: Result<int64, PicError>, events': EventTable)
      requires AllDense(events.Keys) && Prepared(before, p, up)
      requires if up.hash in t.idents then id == t.idents[up.hash] && id in t.pics && before == Some(t.pics[id])
               else id !in t.pics && before == None
      modifies this`t
      ensures r.Ok? ==> r.value == id && UploadStep(old(t), t, id, up) && AllDense(events'.Keys)
      ensures r.Ok? ==> Announces(p, id, up, events, events')
      ensures r.Err? ==> t == old(t) && events' == events && r.error in {EventOverflow, DuplicateExt}
      ensures r == Err(EventOverflow) <==> Announced(p, up) && !Fits(events, up.now, up.source.user)
      ensures r == Err(DuplicateExt) <==>
                !(p.ext.Keys !! up.ext.Keys) && (Announced(p, up) ==> Fits(events, up.now, up.source.user))
    {
      hide AllDense, Announces, Fits, Announced, Merged, Prepared, UploadStep;
      var merged;
      merged, events' := MergePic(p, id, up, events);
      if merged.Err? {
        return Err(merged.error), events;
      }
      MergedStep(t, id, p, merged.value, up);
      t := Tables(t.pics[id := merged.value], t.idents[up.hash := id]);
      return Ok(id), events';
    }
  }

  lemma MergedStep(t: Tables, id: int64, p: Pic, p': Pic, up: Upload)
    requires if up.hash in t.idents then id == t.idents[up.hash] && id in t.pics else id !in t.pics
    requires Merged(p, p', up) && Prepared(if up.hash in t.idents then Some(t.pics[id]) else None, p, up)
    ensures UploadStep(t, Tables(t.pics[id := p'], t.idents[up.hash := id]), id, up)
  {
    hide Merged, Prepared;
    var t' := Tables(t.pics[id := p'], t.idents[up.hash := id]);
    assert t'.pics[id] == p' && Merged(p, t'.pics[id], up);
    assert up.hash in t.idents ==> t'.idents == t.idents;
  }

  function NewPic(now: int64): Pic {
    Pic(None, [], [], [], map[], now, now, 0, 0, 0)
  }

  /** The row that an upload is merged into, but for files. */
  function Target(t: Tables, up: Upload): Pic {
    if up.hash in t.idents && t.idents[up.hash] in t.pics then t.pics[t.idents[up.hash]] else NewPic(up.now)
  }

  /** Not the file of a pic deleted for good, and an id is left for a new one. */
  predicate Allowed(t: Tables, supply: seq<int64>, up: Upload) {
    if up.hash in t.idents then !Frozen(t, t.idents[up.hash]) else supply != []
  }

  predicate Announceable(t: Tables, up: Upload, events: EventTable) {
    Announced(Target(t, up), up) ==> Fits(events, up.now, up.source.user)
  }

  /** The derived file of a video, and the thumbnail, each with the next free index. */
  method AddFiles(p: Pic, up: Upload) returns (r: Option<Pic>)
    requires |p.thumbs| + |p.derived| < MAX_INT64 - 1
    ensures r.Some? <==> DistinctIndexes(p.thumbs + p.derived)
    ensures r.Some? ==> r.value == p.(thumbs := r.value.thumbs, derived := r.value.derived)
    ensures r.Some? ==> FilesAdded(p.thumbs, p.derived, r.value, up)
    ensures r.Some? ==> DistinctIndexes(r.value.thumbs + r.value.derived)
  {
    hide DistinctIndexes, LeastFree;
    var q := p;
    if up.derivedMime.Some? {
      var next := NextPicFileIndex(q.thumbs, q.derived);
      if next == None {
        return None;
      }
      DerivedApart(q.thumbs, q.derived, File(next.value, up.derivedMime.value));
      q := q.(derived := q.derived + [File(next.value, up.derivedMime.value)]);
    }
    var next := NextPicFileIndex(q.thumbs, q.derived);
    if next == None {
      return None;
    }
    ThumbApart(q.thumbs, q.derived, File(next.value, up.thumbMime));
    q := q.(thumbs := q.thumbs + [File(next.value, up.thumbMime)]);
    return Some(q);
  }

  lemma NewPicProper(now: int64)
    ensures DistinctIndexes(NewPic(now).thumbs + NewPic(now).derived)
  {
  }

  lemma IdentFound(t: Tables, hash: string)
    requires Sound(t) && hash in t.idents
    ensures t.idents[hash] in t.pics && Proper(t.pics[t.idents[hash]])
    ensures DistinctIndexes(t.pics[t.idents[hash]].thumbs + t.pics[t.idents[hash]].derived)
  {
    hide DistinctIndexes, SourcesApart;
  }

  lemma FilesPrepare(p: Pic, q: Pic, up: Upload, known: bool)
    requires q == p.(thumbs := q.thumbs, derived := q.derived) && FilesAdded(p.thumbs, p.derived, q, up)
    requires DistinctIndexes(q.thumbs + q.derived)
    requires if known then HardDeleted(p) && p.deletion.value.temporary else p == NewPic(up.now)
    ensures Prepared(if known then Some(p) else None, q, up)
  {
    hide DistinctIndexes, FilesAdded;
  }

  lemma DerivedApart(thumbs: seq<File>, derived: seq<File>, f: File)
    requires DistinctIndexes(thumbs + derived) && LeastFree(thumbs + derived, f.index)
    ensures DistinctIndexes(thumbs + (derived + [f]))
  {
    assert thumbs + (derived + [f]) == (thumbs + derived) + [f];
    assert forall i :: 0 <= i < |thumbs + derived| ==> (thumbs + derived)[i].index != f.index;
  }

  lemma ThumbApart(thumbs: seq<File>, derived: seq<File>, f: File)
    requires DistinctIndexes(thumbs + derived) && LeastFree(thumbs + derived, f.index)
    ensures DistinctIndexes(thumbs + [f] + derived)
  {
    var was, now := thumbs + derived, thumbs + [f] + derived;
    assert forall i :: 0 <= i < |was| ==> was[i].index != f.index;
    assert forall i :: 0 <= i < |now| && i != |thumbs| ==> now[i] == was[if i < |thumbs| then i else i - 1];
  }

  // Every run

  datatype Step =
    | Soft(id: int64, reason: int, details: string, temporary: bool, pending: Option<int64>, now: int64)
    | Hard(id: int64, now: int64)
    | Uploaded(id: int64, up: Upload)
    | CountUp(id: int64)
    | Purged(id: int64)
    /** A transaction that fails, or that leaves pics alone. */
    | Other

  ghost predicate Next(t: Tables, step: Step, t': Tables) {
    match step
    case Soft(id, reason, details, temporary, pending, now) => SoftStep(t, t', id, reason, details, temporary, pending, now)
    case Hard(id, now) => HardStep(t, t', id, now)
    case Uploaded(id, up) => UploadStep(t, t', id, up)
    case CountUp(id) => CountStep(t, t', id)
    case Purged(id) => PurgeStep(t, t', id)
    case Other => t' == t
  }

  lemma MergedProper(before: Option<Pic>, p: Pic, p': Pic, up: Upload)
    requires Merged(p, p', up) && Prepared(before, p, up)
    requires before.Some? ==> Proper(before.value)
    ensures Proper(p') && !HardDeleted(p')
  {
  }

  lemma UploadProper(t: Tables, t': Tables, id: int64, up: Upload)
    requires Sound(t) && UploadStep(t, t', id, up)
    ensures Proper(t'.pics[id])
  {
    hide Proper, Merged, Prepared;
    var was := if up.hash in t.idents then Some(t.pics[id]) else None;
    var p :| Merged(p, t'.pics[id], up) && Prepared(was, p, up);
    MergedProper(was, p, t'.pics[id], up);
  }

  lemma UploadKeeps(t: Tables, t': Tables, id: int64, up: Upload)
    requires Sound(t) && UploadStep(t, t', id, up)
    ensures Sound(t')
  {
    UploadProper(t, t', id, up);
    hide Proper, Merged, Prepared;
    forall i | i in t'.pics ensures Proper(t'.pics[i]) && exists h :: h in t'.idents && t'.idents[h] == i {
      if i == id {
        assert t'.idents[up.hash] == id;
      } else {
        var h :| h in t.idents && t.idents[h] == i;
        assert t'.idents[h] == i;
      }
    }
  }

  lemma PurgeKeeps(t: Tables, t': Tables, id: int64)
    requires Sound(t) && PurgeStep(t, t', id)
    ensures Sound(t')
  {
    hide Proper;
    forall i | i in t'.pics ensures exists h :: h in t'.idents && t'.idents[h] == i {
      var h :| h in t.idents && t.idents[h] == i;
      assert t'.idents[h] == i;
    }
  }

  lemma RowKeeps(t: Tables, t': Tables, id: int64)
    requires Sound(t) && id in t.pics && id in t'.pics && t' == t.(pics := t.pics[id := t'.pics[id]])
    requires Proper(t'.pics[id])
    ensures Sound(t')
  {
    hide Proper;
    forall i | i in t'.pics ensures exists h :: h in t'.idents && t'.idents[h] == i {
      var h :| h in t.idents && t.idents[h] == i;
      assert t'.idents[h] == i;
    }
  }

  lemma NextKeeps(t: Tables, step: Step, t': Tables)
    requires Sound(t) && Next(t, step, t')
    ensures Sound(t')
  {
    match step
    case Soft(id, _, _, _, _, _) => RowKeeps(t, t', id);
    case Hard(id, _) =>
      var q := t'.pics[id];
      assert forall i :: 0 <= i < |q.derived| ==> q.derived[i] == (t.pics[id].thumbs + q.derived)[|t.pics[id].thumbs| + i];
      RowKeeps(t, t', id);
    case Uploaded(id, up) => UploadKeeps(t, t', id, up);
    case CountUp(id) => RowKeeps(t, t', id);
    case Purged(id) => PurgeKeeps(t, t', id);
    case Other =>
  }

  /** Over every run the tables stay sound. */
  lemma {:induction false} RunKeeps(run: seq<Tables>, steps: seq<Step>, n: nat)
    requires |run| == |steps| + 1 && n < |run| && Sound(run[0])
    requires forall i :: 0 <= i < |steps| ==> Next(run[i], steps[i], run[i + 1])
    ensures Sound(run[n])
  {
    hide Sound, Next;
    if n > 0 {
      RunKeeps(run, steps, n - 1);
      NextKeeps(run[n - 1], steps[n - 1], run[n]);
    }
  }

  predicate Frozen(t: Tables, id: int64) {
    id in t.pics && HardDeleted(t.pics[id]) && !t.pics[id].deletion.value.temporary
  }

  lemma StepLeavesFrozen(t: Tables, step: Step, t': Tables, id: int64)
    requires Sound(t) && Next(t, step, t') && Frozen(t, id) && step != Purged(id)
    ensures id in t'.pics && t'.pics[id] == t.pics[id]
  {
    hide Sound;
  }

  /** A pic that is deleted for good keeps its row, to the letter, until it is purged. */
  lemma {:induction false} DeletedForGood(run: seq<Tables>, steps: seq<Step>, id: int64, n: nat)
    requires |run| == |steps| + 1 && n < |run| && Sound(run[0]) && Frozen(run[0], id)
    requires forall i :: 0 <= i < |steps| ==> Next(run[i], steps[i], run[i + 1]) && steps[i] != Purged(id)
    ensures id in run[n].pics && run[n].pics[id] == run[0].pics[id]
  {
    hide Sound, Next;
    if n > 0 {
      DeletedForGood(run, steps, id, n - 1);
      RunKeeps(run, steps, n - 1);
      StepLeavesFrozen(run[n - 1], steps[n - 1], run[n], id);
    }
  }

  /** The first upload of a file: the row has its converted video and its thumbnail and no other files, and has not
      been looked at or voted on. */
  lemma FirstUpload(t: Tables, t': Tables, id: int64, up: Upload)
    requires UploadStep(t, t', id, up) && up.hash !in t.idents
    ensures var (p, video) := (t'.pics[id], up.derivedMime);
            && p.derived == (if video.Some? then [File(0, video.value)] else [])
            && p.thumbs == [File(if video.Some? then 1 else 0, up.thumbMime)]
            && p.sources == [up.source] && p.ext == up.ext && p.deletion == None
            && p.created == up.now && p.modified == up.now
            && p.views == 0 && p.voteUp == 0 && p.voteDown == 0
  {
    var p :| Merged(p, t'.pics[id], up) && Prepared(None, p, up);
    forall files: seq<File>, i | files == [] ensures LeastFree(files, i) <==> i == 0 {
      assert i > 0 ==> !UsesIndex(files, 0);
    }
    if up.derivedMime.Some? {
      var one := [File(0, up.derivedMime.value)];
      assert [] + one == one && one[0].index == 0;
      assert UsesIndex(one, 0);
      forall i ensures LeastFree(one, i) <==> i == 1 {
        assert i > 1 ==> !UsesIndex(one, 1);
      }
    }
  }

  /** Uploading the file of a pic again: what was deleted temporarily is back, with a thumbnail, under its old id;
      what was only marked for good stays marked. */
  lemma UploadRestores(t: Tables, t': Tables, id: int64, up: Upload)
    requires Sound(t) && UploadStep(t, t', id, up) && up.hash in t.idents
    ensures id == t.idents[up.hash] && t'.pics.Keys == t.pics.Keys && t'.idents == t.idents
    ensures !HardDeleted(t'.pics[id]) && t'.pics[id].thumbs != []
    ensures t.pics[id].deletion.Some? && t.pics[id].deletion.value.temporary ==> t'.pics[id].deletion == None
    ensures SoftDeleted(t.pics[id]) && !t.pics[id].deletion.value.temporary ==> SoftDeleted(t'.pics[id])
    ensures IndexOrder(t'.pics[id]) == t.pics[id].created
  {
    var p :| Merged(p, t'.pics[id], up) && Prepared(Some(t.pics[id]), p, up);
    MergedProper(Some(t.pics[id]), p, t'.pics[id], up);
  }

  /** The files of a pic that is restored are added to those left to it; of any other pic they stay. */
  lemma UploadFiles(t: Tables, t': Tables, id: int64, up: Upload)
    requires Sound(t) && UploadStep(t, t', id, up) && up.hash in t.idents
    ensures if HardDeleted(t.pics[id]) then FilesAdded([], t.pics[id].derived, t'.pics[id], up)
            else t'.pics[id].thumbs == t.pics[id].thumbs && t'.pics[id].derived == t.pics[id].derived
  {
    assert Proper(t.pics[id]);
    hide Sound, Proper;
    var p :| Merged(p, t'.pics[id], up) && Prepared(Some(t.pics[id]), p, up);
  }

  /** Deleting a pic twice over and uploading it again ends with the row as it was, but for the thumbnail's file,
      the time of change, and the source and data of the upload. */
  lemma DeleteThenRestore(t: Tables, t1: Tables, t2: Tables, t': Tables, id: int64, reason: int, details: string,
                          pending: Option<int64>, now: int64, up: Upload)
    requires Sound(t) && id in t.pics && t.pics[id].deletion == None
    requires SoftStep(t, t1, id, reason, details, true, pending, now) && HardStep(t1, t2, id, now)
    requires up.hash in t.idents && t.idents[up.hash] == id && UploadStep(t2, t', id, up)
    ensures t'.pics[id] == t.pics[id].(thumbs := t'.pics[id].thumbs, derived := t'.pics[id].derived, modified := up.now,
                                       sources := t'.pics[id].sources, ext := t'.pics[id].ext)
    ensures |t'.pics[id].thumbs| == 1 && FilesAdded([], t.pics[id].derived, t'.pics[id], up)
  {
    hide Sound;
    var p :| Merged(p, t'.pics[id], up) && Prepared(Some(t2.pics[id]), p, up);
  }
}
