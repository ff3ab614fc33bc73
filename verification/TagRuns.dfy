/** Purging a pic's tags (be/tasks/purge_pic_task.go), and every run of tagging and purging. */
module TagRuns {
  import opened Prelude
  import opened Tags

  function Minus(tag: Tag): Tag { tag.(usage := tag.usage - 1) }

  /** The tags after those of the rows have been used once less, or deleted if that was their only use. */
  function Dropped(tags: map<int64, Tag>, rows: seq<TagRow>): map<int64, Tag> {
    map id | id in tags && !(HasRow(rows, id) && tags[id].usage <= 1) ::
      if HasRow(rows, id) then Minus(tags[id]) else tags[id]
  }

  predicate DistinctPicTags(pts: seq<PicTag>) {
    forall i, k :: 0 <= i < k < |pts| ==> pts[i] != pts[k]
  }

  method FindPicTags(j: Job, picId: int64) returns (pts: seq<PicTag>)
    ensures DistinctPicTags(pts) && forall pt :: pt in pts <==> pt in j.picTags && pt.picId == picId
  {
    pts := [];
    var all := set pt | pt in j.picTags && pt.picId == picId;
    var rest := all;
    while rest != {}
      invariant rest <= all && DistinctPicTags(pts) && forall pt :: pt in pts <==> pt in all - rest
      decreases |rest|
    {
      var pt :| pt in rest;
      assert forall k :: 0 <= k < |pts| ==> pts[k] in pts;
      pts := pts + [pt];
      rest := rest - {pt};
    }
  }

  /** The rows of the tags that some pic tags of one pic point to. */
  ghost predicate RowsFor(rows: seq<TagRow>, pts: seq<PicTag>, tags: map<int64, Tag>) {
    RowsOf(rows, tags) && |rows| == |pts| && forall i :: 0 <= i < |rows| ==> rows[i].id == pts[i].tagId
  }

  /** The tags of a pic go with it: one that no other pic has is deleted, any other is used once less. */
  ghost predicate Detached(tags: map<int64, Tag>, picTags: set<PicTag>, tags': map<int64, Tag>, picTags': set<PicTag>,
                           picId: int64) {
    && picTags' == (set pt | pt in picTags && pt.picId != picId)
    && (forall id :: id in tags' ==> id in tags)
    && (forall id :: id in tags ==>
          if PicTag(picId, id) !in picTags then id in tags' && tags'[id] == tags[id]
          else if tags[id].usage > 1 then id in tags' && tags'[id] == Minus(tags[id])
          else id !in tags')
  }

  /** The part of a purge that concerns tags; false is the return when a tag cannot be looked up. */
  method PurgeTags(j: Job, picId: int64) returns (ok: bool)
    requires j.Valid()
    modifies j`tags, j`byName, j`picTags
    ensures ok && j.Valid()
    ensures Detached(old(j.tags), old(j.picTags), j.tags, j.picTags, picId)
  {
    hide Indexed, Dropped, HasRow, FreshSupply, Detached, RowsOf, DistinctPicTags;
    ghost var tags0, picTags0, byName0 := j.tags, j.picTags, j.byName;
    var pts := FindPicTags(j, picId);
    for i := 0 to |pts|
      invariant j.picTags == picTags0 - (set pt | pt in pts[..i]) && j.tags == tags0 && j.byName == byName0
    {
      assert pts[..i + 1] == pts[..i] + [pts[i]];
      j.picTags := j.picTags - {pts[i]};
    }
    assert pts[..|pts|] == pts && pts[..0] == [];
    ghost var left := j.picTags;
    assert left == set pt | pt in picTags0 && pt.picId != picId;
    var rows: seq<TagRow> := [];
    NoRows(tags0);
    for i := 0 to |pts|
      invariant RowsFor(rows, pts[..i], tags0) && j.tags == tags0 && j.byName == byName0 && j.picTags == left
    {
      assert pts[i] in pts;
      if pts[i].tagId !in j.tags {
        return false;
      }
      assert pts[..i + 1] == pts[..i] + [pts[i]];
      RowsForMore(rows, pts, i, picId, tags0);
      rows := rows + [TagRow(pts[i].tagId, j.tags[pts[i].tagId])];
    }
    for i := 0 to |rows|
      invariant j.tags == Dropped(tags0, rows[..i]) && j.picTags == left
      invariant Indexed(j.tags, j.byName, j.rules) && FreshSupply(j.tags, j.supply)
    {
      var row := rows[i];
      RowHere(rows, tags0, i);
      assert rows[..i + 1] == rows[..i] + [row];
      DroppedMore(tags0, rows[..i], row);
      if row.tag.usage > 1 {
        SameName(j.tags, j.byName, j.supply, j.rules, row.id, Minus(row.tag));
        j.tags := j.tags[row.id := Minus(row.tag)];
      } else {
        IndexedLess(j.tags, j.byName, j.supply, j.rules, row.id);
        j.byName := j.byName - {j.rules.uniq(row.tag.name)};
        j.tags := j.tags - {row.id};
      }
    }
    assert rows[..|rows|] == rows;
    DroppedIsDetached(tags0, picTags0, rows, pts, picId);
    DetachedKeepsCounts(tags0, picTags0, j.tags, j.picTags, picId);
    return true;
  }

  lemma NoRows(tags: map<int64, Tag>)
    ensures RowsFor([], [], tags) && Dropped(tags, []) == tags
  {
  }

  lemma RowsForMore(rows: seq<TagRow>, pts: seq<PicTag>, i: nat, picId: int64, tags: map<int64, Tag>)
    requires i < |pts| && RowsFor(rows, pts[..i], tags) && pts[i].tagId in tags && DistinctPicTags(pts)
    requires forall pt :: pt in pts ==> pt.picId == picId
    ensures RowsFor(rows + [TagRow(pts[i].tagId, tags[pts[i].tagId])], pts[..i + 1], tags)
  {
    forall k | 0 <= k < i ensures rows[k].id != pts[i].tagId {
      assert pts[k] in pts && pts[i] in pts;
    }
  }

  lemma RowHere(rows: seq<TagRow>, tags: map<int64, Tag>, i: nat)
    requires RowsOf(rows, tags) && i < |rows|
    ensures rows[i].id in tags && tags[rows[i].id] == rows[i].tag && !HasRow(rows[..i], rows[i].id)
  {
  }

  lemma DroppedMore(tags: map<int64, Tag>, rows: seq<TagRow>, row: TagRow)
    requires row.id in tags && tags[row.id] == row.tag && !HasRow(rows, row.id)
    ensures row.id in Dropped(tags, rows) && Dropped(tags, rows)[row.id] == row.tag
    ensures Dropped(tags, rows + [row])
         == if row.tag.usage > 1 then Dropped(tags, rows)[row.id := Minus(row.tag)] else Dropped(tags, rows) - {row.id}
  {
    RowAdded(rows, row);
    hide HasRow;
  }

  lemma SameName(tags: map<int64, Tag>, byName: map<string, int64>, supply: seq<int64>, rules: Rules, id: int64,
                 tag: Tag)
    requires Indexed(tags, byName, rules) && FreshSupply(tags, supply) && id in tags && tag.name == tags[id].name
    ensures Indexed(tags[id := tag], byName, rules) && FreshSupply(tags[id := tag], supply)
  {
  }

  lemma IndexedLess(tags: map<int64, Tag>, byName: map<string, int64>, supply: seq<int64>, rules: Rules, id: int64)
    requires Indexed(tags, byName, rules) && FreshSupply(tags, supply) && id in tags
    ensures Indexed(tags - {id}, byName - {rules.uniq(tags[id].name)}, rules) && FreshSupply(tags - {id}, supply)
  {
  }

  lemma DroppedIsDetached(tags: map<int64, Tag>, picTags: set<PicTag>, rows: seq<TagRow>, pts: seq<PicTag>, picId: int64)
    requires RowsFor(rows, pts, tags) && forall pt :: pt in pts <==> pt in picTags && pt.picId == picId
    ensures Detached(tags, picTags, Dropped(tags, rows), (set pt | pt in picTags && pt.picId != picId), picId)
  {
    forall id ensures HasRow(rows, id) <==> PicTag(picId, id) in picTags {
      if PicTag(picId, id) in picTags {
        var i :| 0 <= i < |pts| && pts[i] == PicTag(picId, id);
        assert rows[i].id == id;
      }
      if HasRow(rows, id) {
        var i :| 0 <= i < |rows| && rows[i].id == id;
        assert pts[i] in pts;
        assert pts[i] == PicTag(picId, id);
      }
    }
    hide HasRow;
  }

  // Every run

  /** How often a tag is used once a pic is gone. */
  lemma UsesDetached(picTags: set<PicTag>, left: set<PicTag>, picId: int64, id: int64)
    requires left == set pt | pt in picTags && pt.picId != picId
    ensures Uses(left, id) == Uses(picTags, id) - if PicTag(picId, id) in picTags then 1 else 0
  {
    var was := set pt | pt in picTags && pt.tagId == id;
    var now := set pt | pt in left && pt.tagId == id;
    if PicTag(picId, id) in picTags {
      assert now == was - {PicTag(picId, id)};
    } else {
      assert now == was;
    }
  }

  /** Detaching a pic's tags keeps the counts: none of them falls to zero, and no pic tag is left dangling. */
  lemma DetachedKeepsCounts(tags: map<int64, Tag>, picTags: set<PicTag>, tags': map<int64, Tag>, picTags': set<PicTag>,
                            picId: int64)
    requires Counted(tags, picTags) && Detached(tags, picTags, tags', picTags', picId)
    ensures Counted(tags', picTags')
  {
    forall id | id in tags ensures id in tags' ==> tags'[id].usage == Uses(picTags', id) >= 1 {
      UsesDetached(picTags, picTags', picId, id);
    }
    forall pt | pt in picTags' ensures pt.tagId in tags' {
      UsesDetached(picTags, picTags', picId, pt.tagId);
      UsesInsert(picTags' - {pt}, pt, pt.tagId);
      assert picTags' - {pt} + {pt} == picTags';
    }
  }

  datatype Tables = Tables(tags: map<int64, Tag>, picTags: set<PicTag>)

  ghost predicate UniqueNames(tags: map<int64, Tag>, rules: Rules) {
    forall a, b :: a in tags && b in tags && rules.uniq(tags[a].name) == rules.uniq(tags[b].name) ==> a == b
  }

  /** Usage counts are those of the pic tags and at least one, no pic tag dangles, unique names are unique. */
  ghost predicate Sound(t: Tables, rules: Rules) {
    Counted(t.tags, t.picTags) && UniqueNames(t.tags, rules)
  }

  /** A committed tagging of a pic. */
  ghost predicate TagStep(t: Tables, t': Tables, picId: int64, names: seq<TagName>, answer: map<string, int64>,
                          rules: Rules) {
    && DistinctNames(names) && Sole(t'.tags, names, answer, rules)
    && Upserted(t.tags, t.picTags, t'.tags, t'.picTags, picId, names, answer, rules)
  }

  /** A committed transaction: a tagging or a purge. Any other leaves the tables alone. */
  ghost predicate Step(t: Tables, t': Tables, rules: Rules) {
    || t == t'
    || (exists picId :: Detached(t.tags, t.picTags, t'.tags, t'.picTags, picId))
    || (exists picId, names, answer :: TagStep(t, t', picId, names, answer, rules))
  }

  lemma UpsertedKeepsNames(t: Tables, t': Tables, picId: int64, names: seq<TagName>, answer: map<string, int64>,
                           rules: Rules)
    requires UniqueNames(t.tags, rules) && TagStep(t, t', picId, names, answer, rules)
    ensures UniqueNames(t'.tags, rules)
  {
    forall a, b | a in t'.tags && b in t'.tags && a !in t.tags
                  && rules.uniq(t'.tags[a].name) == rules.uniq(t'.tags[b].name)
      ensures a == b
    {
      var o :| o in answer && answer[o] == a;
      assert Given(names, o);
      var i :| 0 <= i < |names| && names[i].orig == o;
    }
  }

  lemma StepKeeps(t: Tables, t': Tables, rules: Rules)
    requires Sound(t, rules) && Step(t, t', rules)
    ensures Sound(t', rules)
  {
    if t != t' {
      if picId :| Detached(t.tags, t.picTags, t'.tags, t'.picTags, picId) {
        DetachedKeepsCounts(t.tags, t.picTags, t'.tags, t'.picTags, picId);
      } else {
        var picId, names, answer :| TagStep(t, t', picId, names, answer, rules);
        AttachedKeepsCounts(t.tags, t.picTags, t'.tags, t'.picTags, picId, answer.Values);
        UpsertedKeepsNames(t, t', picId, names, answer, rules);
      }
    }
  }

  /** Over every run of tagging and purging, from empty tables or any sound ones, the tables stay sound. */
  lemma {:induction false} RunKeeps(run: seq<Tables>, rules: Rules, n: nat)
    requires n < |run| && Sound(run[0], rules)
    requires forall i :: 0 <= i < |run| - 1 ==> Step(run[i], run[i + 1], rules)
    ensures Sound(run[n], rules)
  {
    if n > 0 {
      RunKeeps(run, rules, n - 1);
      StepKeeps(run[n - 1], run[n], rules);
    }
  }

  /** A pic that is tagged and then purged leaves the tags as they were. */
  lemma TagThenPurge(t: Tables, t': Tables, t'': Tables, picId: int64, names: seq<TagName>, answer: map<string,
                     int64>, rules: Rules)
    requires Sound(t, rules) && (forall pt :: pt in t.picTags ==> pt.picId != picId)
    requires TagStep(t, t', picId, names, answer, rules)
    requires Detached(t'.tags, t'.picTags, t''.tags, t''.picTags, picId)
    ensures t'' == t
  {
    hide DistinctNames, Sole, Given, Uses;
    assert t''.picTags == t.picTags;
    forall id ensures id in t''.tags <==> id in t.tags {
    }
    forall id | id in t.tags ensures id in t''.tags && t''.tags[id] == t.tags[id] {
    }
    assert t''.tags == t.tags;
  }
}
